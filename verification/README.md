# Websocket shooter game: session server and client rules, in Dafny

This project models the two pieces of game logic in a small multiplayer
shooter. The game uses a Node.js WebSocket server and a React client.

**The server** (`websocket-game/server.js`) keeps three module-level
collections:

- `players`: an object from a server-minted uuid to `{id, name, position}`;
- `connections`: a `Set` of sockets;
- `bullets`: an array that is only ever pushed to.

Three socket callbacks change these collections:

- connection: insert a default player and add the socket;
- message: `register` sets the name, `move` sets the position, `bullet`
  records the bullet under a fresh id and broadcasts it;
- close: delete the player and the socket.

After every message and every close, a `players` snapshot goes to every
socket whose `readyState` is OPEN. The model is the class
`Server.GameServer`. Each handler is a method that updates the fields in place
and returns the sends it performs, in order: the list of `(socket, message)`
pairs. The fan-out rules are therefore part of each handler's postcondition.
The class invariant `Valid()` says three things:

- live sockets and players correspond one to one;
- every id in use was minted;
- bullet ids are unique.

**The client** (`client/src/App.jsx`) contributes these integer rules:

- the keydown/keyup velocity rules;
- the movement step, which clamps to the field. The clamp has a quirk: a y
  beyond 580 goes to 570, not 580;
- the reducer that turns a `players` message into an id-keyed table, where
  the last entry for an id wins;
- appending an incoming `bullet` event;
- the filter that drops bullets outside [0,900]×[0,600].

The movement step and the `players` reducer update local variables step by
step, so they are methods. The velocity rules and the bullet-list updates are
spread, map and filter expressions, so they are functions.

Modelling choices:

- `uuidv4` is a counter, `nextId`. A fresh id is the counter's value, and every
  id in use is below it.
- A JavaScript object iterates its (non-numeric) keys in insertion order, and
  ids are minted in increasing order. So `Object.values(players)` is modelled as
  the players in ascending id order (`Server.Snapshot`).
- The `Set` of sockets keeps insertion order. It is a `seq<Conn>` without
  repeats, and `forEach` is the loop of `Broadcast`.
- `readyState` belongs to the socket library. Each handler takes it as a
  parameter `open`: the set of sockets that are OPEN at that moment.
- The `id` that each socket's callbacks capture at connection time is the field
  `idOf`. The ghost map `connOf` is its inverse on live sockets.
- The library calls `message` and `close` only for a socket that has connected
  and not yet closed, and it calls `connection` with a new socket. The handlers'
  preconditions (`ws in connections`, `ws !in connections`) say this.
- A `register` without `name`, or a `move` without `position`, stores
  `undefined` in that field. Fields that may be missing are `Option` values, and
  `None` stands for `undefined`.

Things the code does that a reader might not expect:

- A `move` without a position does overwrite the stored position, with
  `undefined`.
- The server never re-clamps positions.
- The server never prunes or advances bullets.
- The server never acknowledges the id it minted. Clients put their own uuid in
  `register`/`move`, and the server ignores it.
- A y beyond 580 is clamped to 570.

## Model

| member | source | states |
|---|---|---|
| Server.GameServer.constructor | websocket-game/server.js:10-12 | The server starts with no players, no sockets and no bullets, and the invariant holds. |
| Server.GameServer.OnConnection | websocket-game/server.js:14-17 | A connection mints an id that no player or bullet uses and that is greater than every player id in use, so the new player comes last in insertion order. It inserts `{id, name: '', position: {0,0}}` under that id and appends the socket to `connections`. The invariant is kept and bullets are unchanged. |
| Server.GameServer.OnMessage | websocket-game/server.js:19-48 | `register` replaces only the name, and `move` only the position, of the player the socket owns; the id inside the message plays no part. `bullet` appends exactly one bullet: the client's bullet with its id replaced by one no earlier bullet or player has. Other types change nothing. Sends: for `bullet`, the bullet event to every OPEN socket; then, for every type, a `players` snapshot to every OPEN socket. The invariant is kept. |
| Server.GameServer.Record | websocket-game/server.js:22-31 | The state change of a message: `register` replaces only the name, and `move` only the position, of the socket's own player. `bullet` pushes the client's bullet under a fresh id, distinct from every earlier bullet id and every player id, and hands that bullet back. Any other type changes nothing and hands back nothing. Sockets are unchanged and the invariant is kept. |
| Server.GameServer.Forget | websocket-game/server.js:51-52 | `delete players[id]` and `connections.delete(ws)`: exactly the socket's own player and the socket are removed, bullets are unchanged and the invariant is kept. |
| Server.GameServer.OnClose | websocket-game/server.js:50-61 | Close deletes the socket's player and removes the socket; other players and bullets are unchanged. The `players` update goes only to the remaining OPEN sockets, never to the closed one, and it omits the closed player. |
| Server.GameServer.Broadcast | websocket-game/server.js:43-47 | The `forEach` loop sends the message to exactly the OPEN sockets, in `Set` order (equal to `Fanout`). |
| Server.Fanout | websocket-game/server.js:43-47 | A fan-out sends only the given message, only to OPEN members of `connections`, and no more sends than there are sockets. |
| Server.FanoutReaches | websocket-game/server.js:43-47 | Every OPEN socket in `connections` is sent the message. |
| Server.FanoutOnce | websocket-game/server.js:11 | Because `connections` is a `Set` (no repeats), a fan-out sends at most one message per socket: no socket receives the same broadcast twice. |
| Server.FanoutAllOpen | websocket-game/server.js:43-47 | When every socket is OPEN, the broadcast is exactly one send per socket, in insertion order. |
| Server.BulletEventFirst | websocket-game/server.js:34-47 | On a `bullet` message, each OPEN socket gets the bullet event at an earlier position than its `players` update. |
| Server.BulletSendsPrecede | websocket-game/server.js:34-47 | On a `bullet` message, every bullet-event send comes before every `players` send. |
| Server.Without | websocket-game/server.js:52 | `connections.delete(ws)` keeps exactly the other sockets, and the result still has no repeats. |
| Server.Snapshot | websocket-game/server.js:42 | `Object.values(players).map(...)`: every record in the payload is one the server stores. |
| Server.GameServer.PlayerData | websocket-game/server.js:55 | The `players` payload built from the current state holds only stored records. |
| Server.IdsBelow | websocket-game/server.js:42 | The ids listed are exactly the player ids below the bound, strictly ascending: the players' insertion order. |
| Server.SnapshotIsPlayers | websocket-game/server.js:42 | The `players` payload has one entry per current player and no other, each equal to that player's record, in insertion order. |
| Server.SnapshotOnlyPlayers | websocket-game/server.js:55 | Every record in a payload is a current player's, stored under its own id, so a deleted player never appears. |
| Server.SnapshotOfTwo | websocket-game/server.js:42 | With two players, the payload lists exactly both, the one that connected first (smaller id) first. |
| Server.SnapshotOfOne | websocket-game/server.js:55 | With a single player left, the snapshot is that player alone. |
| Server.DistinctCard | websocket-game/server.js:42 | A strictly ascending list of exactly the keys has as many entries as there are keys, so the payload's length equals the number of players. |
| Server.ConnectKeepsInvariant | websocket-game/server.js:15-17 | Pairing a new socket with the next id and inserting that player keeps the whole invariant. The next id is above every player id and differs from every bullet id. |
| Server.UpdateKeepsInvariant | websocket-game/server.js:22-25 | Rewriting a player's record under its own id keeps the whole invariant. |
| Server.CloseKeepsInvariant | websocket-game/server.js:51-52 | Removing a socket together with its own player keeps the whole invariant. |
| Server.ConnectKeepsOneToOne | websocket-game/server.js:15-17 | Adding a new socket with a never-used id keeps sockets and players in one-to-one correspondence. |
| Server.CloseKeepsOneToOne | websocket-game/server.js:51-52 | Removing a socket together with its own player keeps the one-to-one correspondence. |
| Server.MintedAfterShot | websocket-game/server.js:27-31 | Pushing a bullet under a freshly minted id keeps bullet ids unique, and the new id differs from every earlier bullet id and every player id. |
| Server.MintedAfterClose | websocket-game/server.js:51 | Deleting a player keeps every remaining id minted and each record under its own key. |
| Client.KeyDown | client/src/App.jsx:28-45 | `w`/`s` set `vy` to -2/2 and keep `vx`. `a`/`d` set `vx` to -2/2 and keep `vy`. Any other key changes nothing. |
| Client.KeyUp | client/src/App.jsx:47-60 | `w` or `s` zeroes only `vy`. `a` or `d` zeroes only `vx`. Any other key changes nothing. |
| Client.KeyEventsKeepVelocity | client/src/App.jsx:28-60 | Any sequence of key events keeps each velocity component in {-2, 0, 2}. |
| Client.ReleaseAfterPress | client/src/App.jsx:28-60 | Releasing a key after pressing it gives the same velocity as releasing it alone. |
| Client.PressesOnDifferentAxesCommute | client/src/App.jsx:28-45 | A vertical and a horizontal key press give the same velocity in either order. |
| Client.Step | client/src/App.jsx:74-80 | After a step, x is in [0,880] and equals `prev.x + vx` when that sum is in range. Below 0 it becomes 0 and above 880 it becomes 880. y below 0 becomes 0 and y above 580 becomes 570, so y is always in [0,580]. |
| Client.MoveStep | client/src/App.jsx:72-84 | The successive clamps compute `Step`, and the `move` message sent carries exactly the stored position. |
| Client.StepsStayInField | client/src/App.jsx:73-80 | From inside the field, any number of steps at any velocities stays inside the field. |
| Client.WallBehaviour | client/src/App.jsx:78-80 | Holding `d` at the right wall keeps x at 880. Holding `s` at the bottom wall throws y back to 570, and from there it climbs back by 2 per step. |
| Client.IndexPlayers | client/src/App.jsx:19-22 | The table's keys are exactly the ids in the list. Each key maps to the last list entry with that id, and every value is a list entry filed under its own id. |
| Client.OnServerMessage | client/src/App.jsx:16-25 | A `players` message replaces the table by the indexed list and leaves the bullets alone. A `bullet` message appends the bullet after all earlier ones, in order, and leaves the players alone. |
| Client.InBounds | client/src/App.jsx:138 | The filter's test, `0 <= x <= 900 && 0 <= y <= 600`, with the edges included. |
| Client.KeepInBounds | client/src/App.jsx:138 | The filter returns only bullets of the input that lie in [0,900]×[0,600]. |
| Client.KeepInBoundsKeeps | client/src/App.jsx:138 | Every input bullet inside the field survives the filter. |
| Client.KeepInBoundsKeepsAll | client/src/App.jsx:138 | A bullet is kept exactly when it is in the input and inside the field. |
| Client.KeepInBoundsAppend | client/src/App.jsx:138 | Filtering a concatenation gives the concatenation of the filtered parts, so kept bullets keep their relative order. |
| Client.KeepInBoundsIdempotent | client/src/App.jsx:138 | Filtering an already filtered list changes nothing. |
| Client.Moved | client/src/App.jsx:133-137 | `{...bullet, x, y}`: the id and the velocity are kept, and only the coordinates are replaced by the new ones. |
| Client.Tick | client/src/App.jsx:124-138 | A tick is the filter applied to the moved bullets, in input order. Every remaining bullet is inside the field and is a moved input bullet. A moved bullet remains exactly when its new position is inside the field. |

## Left out

- Transport and plumbing: `express`, `http`, the `WebSocket.Server` setup, `server.listen`, `socket.send`/`close` and JSON encoding. The sends are returned as values.
- `JSON.parse` on a malformed message throws at websocket-game/server.js:20, and the code does not handle it. The model has no unparseable input.
- A message that parses to `null` makes `data.type` throw at websocket-game/server.js:22. The model has no such input either: every modelled message has a type.
- A `register` whose `name` is not a string is not represented. This covers `null`, a number and an object. The server stores whatever value arrives (websocket-game/server.js:23), and `JSON.stringify` keeps a `null` name but drops a missing one. The model has only a string name or a missing one (`None`).
- Positions are integer pairs or missing. The server stores whatever JSON value a `move` carries (websocket-game/server.js:25). A position of another shape, such as a string or an object with extra fields, is not represented.
- A `bullet` message whose `bullet` field is missing, or lacks some coordinates: the model's bullet always carries all four coordinates. A field of the wrong JSON type is not modelled either.
- `uuidv4`: it is a counter. Real uuids are random, so the model's "ascending id" order stands for insertion order, not for the uuid strings' order.
- `readyState`: it is a parameter fixed for one handler call. A send that fails, and state changes the library makes by itself, are not modelled.
- Concurrency: Node runs the callbacks one at a time, and the model runs them one method call at a time.
- Bullet trajectory arithmetic (client/src/App.jsx:110-114 and 126-131): `atan2`, `cos`, `sin`, `sqrt` and the division. It is floating-point work, and it divides by zero for a zero velocity. `Client.Tick` takes the new coordinates from a function parameter `advance`.
- Bullet coordinates are `real`, so NaN does not occur. The source's filter would drop a NaN coordinate.
- The click handler (client/src/App.jsx:105-120): it appends the player's own bullet locally under the client's uuid and sends it. Its coordinates come from the trajectory arithmetic above.
- `handleRegister` and `handleLeaveRoom` (client/src/App.jsx:93-103), timers (`setInterval`), React hooks and state plumbing, and all rendering (client/src/App.jsx:147-218). These are state plumbing with no game rule to state.
- `client/src/Game.jsx` is not part of this model: it is a Phaser scene of sprite, asset and input calls, and its shooting handler is empty.
