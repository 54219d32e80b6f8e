/**
 The game server: one process holding every player, every live socket and
 every bullet ever fired, and three handlers the socket library calls one at a
 time (connection, message, close). Each handler changes that state and
 returns the sends it performs, in order, so the fan-out rules are part of its
 contract.
 */
module Server {
  import opened Protocol

  /** A socket handle. */
  type Conn = nat

  /** One `client.send(...)`. */
  datatype Send = Send(to: Conn, msg: OutMsg)

  /** What one `connections.forEach` sends: `msg` to each socket of `conns`
      whose readyState is OPEN (a member of `open`), in iteration order. */
  function Fanout(conns: seq<Conn>, open: set<Conn>, msg: OutMsg): (r: seq<Send>)
    ensures |r| <= |conns|
    ensures forall s :: s in r ==> s.msg == msg && s.to in conns && s.to in open
  {
    if conns == [] then []
    else
      var last := conns[|conns| - 1];
      Fanout(conns[..|conns| - 1], open, msg) + (if last in open then [Send(last, msg)] else [])
  }

  /** Every OPEN socket of `conns` is sent `msg`. */
  lemma {:induction false} FanoutReaches(conns: seq<Conn>, open: set<Conn>, msg: OutMsg, c: Conn)
    requires c in conns && c in open
    ensures Send(c, msg) in Fanout(conns, open, msg)
  {
    var n := |conns| - 1;
    assert Fanout(conns, open, msg) ==
      Fanout(conns[..n], open, msg) + (if conns[n] in open then [Send(conns[n], msg)] else []);
    if conns[n] != c {
      assert c in conns[..n] by {
        var i :| 0 <= i < |conns| && conns[i] == c;
        assert i != n && conns[..n][i] == c;
      }
      FanoutReaches(conns[..n], open, msg, c);
    }
  }

  /** No socket is sent two of these messages. */
  ghost predicate DistinctRecipients(r: seq<Send>) {
    forall i, j :: 0 <= i < j < |r| ==> r[i].to != r[j].to
  }

  /** When every socket is OPEN, each is sent `msg` once, in iteration order. */
  lemma {:induction false} FanoutAllOpen(conns: seq<Conn>, open: set<Conn>, msg: OutMsg)
    requires forall c :: c in conns ==> c in open
    ensures Fanout(conns, open, msg) == seq(|conns|, i requires 0 <= i < |conns| => Send(conns[i], msg))
  {
    if conns != [] {
      var n := |conns| - 1;
      var front := conns[..n];
      assert forall c :: c in front ==> c in conns;
      FanoutAllOpen(front, open, msg);
      assert conns[n] in open;
      var r := Fanout(conns, open, msg);
      assert r == Fanout(front, open, msg) + [Send(conns[n], msg)];
      assert |r| == |conns|;
      forall i | 0 <= i < |conns|
        ensures r[i] == Send(conns[i], msg)
      {
        if i < n {
          assert r[i] == Fanout(front, open, msg)[i] == Send(front[i], msg);
        }
      }
    }
  }

  /** When the sockets are distinct (a `Set`), each is sent the message at most once. */
  lemma {:induction false} FanoutOnce(conns: seq<Conn>, open: set<Conn>, msg: OutMsg)
    requires Distinct(conns)
    ensures DistinctRecipients(Fanout(conns, open, msg))
  {
    if conns != [] {
      var n := |conns| - 1;
      var front := conns[..n];
      FanoutOnce(front, open, msg);
      var r' := Fanout(front, open, msg);
      assert Fanout(conns, open, msg) ==
        r' + (if conns[n] in open then [Send(conns[n], msg)] else []);
      forall i | 0 <= i < |r'|
        ensures r'[i].to != conns[n]
      {
        assert r'[i] in r';
        var k :| 0 <= k < n && front[k] == r'[i].to;
        assert conns[k] == r'[i].to;
      }
      var r := Fanout(conns, open, msg);
      forall i, j | 0 <= i < j < |r|
        ensures r[i].to != r[j].to
      {
        assert r[i] == r'[i];
        if j < |r'| {
          assert r[j] == r'[j];
          assert DistinctRecipients(r');
        } else {
          assert conns[n] in open && r[j] == Send(conns[n], msg);
          assert r'[i].to != conns[n];
        }
      }
    }
  }

  /** In `a + p`, an element of `a` sits before an element of `p`. */
  lemma ConcatIndices(a: seq<Send>, p: seq<Send>, i: nat, j: nat)
    requires i < |a| && j < |p|
    ensures i < |a| + j < |a + p| && (a + p)[i] == a[i] && (a + p)[|a| + j] == p[j]
  {
  }

  /** On a `bullet` message every OPEN socket receives the bullet event
      before the `players` update. */
  lemma BulletEventFirst(conns: seq<Conn>, open: set<Conn>, b: Bullet, ps: seq<Player>, c: Conn)
    requires c in conns && c in open
    ensures var s := Fanout(conns, open, BulletMsg(b)) + Fanout(conns, open, PlayersMsg(ps));
      exists i, j :: 0 <= i < j < |s| && s[i] == Send(c, BulletMsg(b)) && s[j] == Send(c, PlayersMsg(ps))
  {
    var a := Fanout(conns, open, BulletMsg(b));
    var p := Fanout(conns, open, PlayersMsg(ps));
    FanoutReaches(conns, open, BulletMsg(b), c);
    FanoutReaches(conns, open, PlayersMsg(ps), c);
    var i :| 0 <= i < |a| && a[i] == Send(c, BulletMsg(b));
    var j :| 0 <= j < |p| && p[j] == Send(c, PlayersMsg(ps));
    ConcatIndices(a, p, i, j);
  }

  /** On a `bullet` message no `players` update is sent before any bullet event. */
  lemma BulletSendsPrecede(conns: seq<Conn>, open: set<Conn>, b: Bullet, ps: seq<Player>)
    ensures var s := Fanout(conns, open, BulletMsg(b)) + Fanout(conns, open, PlayersMsg(ps));
      forall i, j :: 0 <= i < |s| && 0 <= j < |s| && s[i].msg.PlayersMsg? && s[j].msg.BulletMsg? ==> j < i
  {
    var a := Fanout(conns, open, BulletMsg(b));
    var p := Fanout(conns, open, PlayersMsg(ps));
    var s := a + p;
    forall k | 0 <= k < |s|
      ensures k < |a| <==> s[k].msg.BulletMsg?
    {
      if k < |a| {
        assert s[k] == a[k] && a[k] in a;
      } else {
        assert s[k] == p[k - |a|] && p[k - |a|] in p;
      }
    }
  }

  /** `connections.delete(ws)`: the set without `x`, the rest in their order. */
  function Without(s: seq<Conn>, x: Conn): (r: seq<Conn>)
    ensures forall c :: c in r <==> c in s && c != x
    ensures Distinct(s) ==> Distinct(r)
  {
    if s == [] then []
    else
      var r := (if s[0] == x then [] else [s[0]]) + Without(s[1..], x);
      assert forall c :: c in s <==> c == s[0] || c in s[1..] by {
        assert s == [s[0]] + s[1..];
      }
      assert Distinct(s) ==> s[0] !in s[1..] by {
        if Distinct(s) {
          forall j | 0 <= j < |s[1..]|
            ensures s[1..][j] != s[0]
          {
            assert s[1..][j] == s[j + 1];
          }
        }
      }
      r
  }

  /** The ids of `players` below `n`, ascending. Ids are minted in increasing
      order, so this is also the order in which they were inserted. */
  function IdsBelow(players: map<Id, Player>, n: nat): (r: seq<Id>)
    ensures forall k :: k in r <==> k in players && k < n
    ensures forall i, j :: 0 <= i < j < |r| ==> r[i] < r[j]
  {
    if n == 0 then []
    else
      var front := IdsBelow(players, n - 1);
      assert forall i :: 0 <= i < |front| ==> front[i] in front;
      assert forall i :: 0 <= i < |front| ==> front[i] < n - 1;
      front + (if n - 1 in players then [n - 1] else [])
  }

  /** `Object.values(players).map(p => ({id, name, position}))`: the players in
      insertion order. The projection keeps every field of a `Player`. */
  function Snapshot(players: map<Id, Player>, n: nat): (r: seq<Player>)
    ensures forall p :: p in r ==> exists k :: k in players && players[k] == p
  {
    var ids := IdsBelow(players, n);
    assert forall i :: 0 <= i < |ids| ==> ids[i] in ids;
    seq(|ids|, i requires 0 <= i < |ids| => players[ids[i]])
  }

  /** A snapshot lists exactly the current players, each once, in id order. */
  lemma SnapshotIsPlayers(players: map<Id, Player>, n: nat)
    requires forall k :: k in players ==> k < n && players[k].id == k
    ensures var s := Snapshot(players, n);
      && |s| == |players|
      && (forall i :: 0 <= i < |s| ==> s[i].id in players && s[i] == players[s[i].id])
      && (forall k :: k in players ==> exists i :: 0 <= i < |s| && s[i].id == k)
      && (forall i, j :: 0 <= i < j < |s| ==> s[i].id < s[j].id)
  {
    var ids := IdsBelow(players, n);
    var s := Snapshot(players, n);
    assert |s| == |ids|;
    forall i | 0 <= i < |s|
      ensures s[i].id == ids[i] && s[i].id in players && s[i] == players[s[i].id]
    {
      assert ids[i] in ids;
      assert s[i] == players[ids[i]];
    }
    forall k | k in players
      ensures exists i :: 0 <= i < |s| && s[i].id == k
    {
      assert k in ids;
      var i :| 0 <= i < |ids| && ids[i] == k;
      assert s[i].id == k;
    }
    DistinctCard(ids, players.Keys);
  }

  /** Every record in a snapshot is a current player's, under its own id. */
  lemma SnapshotOnlyPlayers(players: map<Id, Player>, n: nat)
    requires forall k :: k in players ==> players[k].id == k
    ensures forall p :: p in Snapshot(players, n) ==> p.id in players && players[p.id] == p
  {
    var ids := IdsBelow(players, n);
    var s := Snapshot(players, n);
    forall p | p in s
      ensures p.id in players && players[p.id] == p
    {
      var i :| 0 <= i < |s| && s[i] == p;
      assert ids[i] in ids;
    }
  }

  /** With a single player, the snapshot is that player alone. */
  lemma SnapshotOfOne(players: map<Id, Player>, n: nat, k: Id)
    requires players.Keys == {k} && k < n && players[k].id == k
    ensures Snapshot(players, n) == [players[k]]
  {
    SnapshotIsPlayers(players, n);
    var s := Snapshot(players, n);
    assert |s| == 1;
    assert s[0].id in players;
  }

  /** With two players, the snapshot lists the earlier one first. */
  lemma SnapshotOfTwo(players: map<Id, Player>, n: nat, a: Id, b: Id)
    requires players.Keys == {a, b} && a < b < n && players[a].id == a && players[b].id == b
    ensures Snapshot(players, n) == [players[a], players[b]]
  {
    SnapshotIsPlayers(players, n);
    var s := Snapshot(players, n);
    assert |players.Keys| == 2;
    assert |s| == 2;
    assert s[0].id < s[1].id;
    assert s[0].id in {a, b} && s[1].id in {a, b};
  }

  /** A strictly increasing sequence holding exactly the members of `keys` has `|keys|` elements. */
  lemma {:induction false} DistinctCard(ids: seq<Id>, keys: set<Id>)
    requires forall k :: k in ids <==> k in keys
    requires forall i, j :: 0 <= i < j < |ids| ==> ids[i] < ids[j]
    ensures |ids| == |keys|
  {
    if ids != [] {
      var rest := ids[1..];
      assert ids[0] !in rest by {
        forall j | 0 <= j < |rest|
          ensures rest[j] != ids[0]
        {
          assert rest[j] == ids[j + 1];
        }
      }
      assert forall k :: k in rest <==> k in keys - {ids[0]} by {
        assert forall k :: k in ids <==> k == ids[0] || k in rest by {
          assert ids == [ids[0]] + rest;
        }
      }
      DistinctCard(rest, keys - {ids[0]});
    }
  }

  /** The live sockets `conns` (distinct) and the player ids `ids` correspond
      one to one: `idOf` maps each socket to its player, `connOf` back. */
  ghost predicate OneToOne(conns: seq<Conn>, idOf: map<Conn, Id>, connOf: map<Id, Conn>, ids: set<Id>) {
    && Distinct(conns)
    && (forall c :: c in idOf <==> c in conns)
    && connOf.Keys == ids
    && (forall c :: c in idOf ==> idOf[c] in connOf && connOf[idOf[c]] == c)
    && (forall k :: k in connOf ==> connOf[k] in idOf && idOf[connOf[k]] == k)
  }

  /** Every id in use is below `next`, the next one to be minted; each player
      record carries its own key; no two bullets share an id. */
  ghost predicate Minted(players: map<Id, Player>, bullets: seq<Bullet>, next: nat) {
    && (forall k :: k in players ==> players[k].id == k && k < next)
    && (forall i :: 0 <= i < |bullets| ==> bullets[i].id < next)
    && DistinctIds(bullets)
  }

  /** A new socket paired with a never-used id keeps the correspondence. */
  lemma ConnectKeepsOneToOne(conns: seq<Conn>, idOf: map<Conn, Id>, connOf: map<Id, Conn>, ids: set<Id>, ws: Conn, id: Id)
    requires OneToOne(conns, idOf, connOf, ids)
    requires ws !in conns && id !in ids
    ensures OneToOne(conns + [ws], idOf[ws := id], connOf[id := ws], ids + {id})
  {
    var conns' := conns + [ws];
    forall i, j | 0 <= i < j < |conns'|
      ensures conns'[i] != conns'[j]
    {
      assert conns'[i] == conns[i];
      if j < |conns| {
        assert conns'[j] == conns[j];
      }
    }
  }

  /** Removing a socket together with its player keeps the correspondence. */
  lemma CloseKeepsOneToOne(conns: seq<Conn>, idOf: map<Conn, Id>, connOf: map<Id, Conn>, ids: set<Id>, ws: Conn)
    requires OneToOne(conns, idOf, connOf, ids)
    requires ws in conns
    ensures ws in idOf
    ensures OneToOne(Without(conns, ws), idOf - {ws}, connOf - {idOf[ws]}, ids - {idOf[ws]})
  {
  }

  /** Pushing a bullet under the next id, then advancing the supply, keeps every id minted and bullet ids unique. */
  lemma MintedAfterShot(players: map<Id, Player>, bullets: seq<Bullet>, next: nat, b: Bullet)
    requires Minted(players, bullets, next) && b.id == next
    ensures Minted(players, bullets + [b], next + 1)
    ensures b.id !in players && forall i :: 0 <= i < |bullets| ==> bullets[i].id != b.id
  {
    var bs := bullets + [b];
    forall i, j | 0 <= i < j < |bs|
      ensures bs[i].id != bs[j].id
    {
      assert bs[i] == bullets[i];
      if j < |bullets| {
        assert bs[j] == bullets[j];
      }
    }
  }

  /** Deleting a player keeps every id minted. */
  lemma MintedAfterClose(players: map<Id, Player>, bullets: seq<Bullet>, next: nat, id: Id)
    requires Minted(players, bullets, next)
    ensures Minted(players - {id}, bullets, next)
  {
  }

  /** A connection keeps the server invariant: the new socket is paired with
      the next id, which no player or bullet uses yet and which exceeds every
      id in use. */
  lemma ConnectKeepsInvariant(players: map<Id, Player>, conns: seq<Conn>, idOf: map<Conn, Id>,
                              connOf: map<Id, Conn>, bullets: seq<Bullet>, next: nat, ws: Conn, p: Player)
    requires OneToOne(conns, idOf, connOf, players.Keys) && Minted(players, bullets, next)
    requires ws !in conns && p.id == next
    ensures OneToOne(conns + [ws], idOf[ws := next], connOf[next := ws], players[next := p].Keys)
    ensures Minted(players[next := p], bullets, next + 1)
    ensures forall k :: k in players ==> k < next
    ensures forall i :: 0 <= i < |bullets| ==> bullets[i].id != next
  {
    ConnectKeepsOneToOne(conns, idOf, connOf, players.Keys, ws, next);
    assert players[next := p].Keys == players.Keys + {next};
  }

  /** Rewriting a player's record under its own id keeps the server invariant. */
  lemma UpdateKeepsInvariant(players: map<Id, Player>, conns: seq<Conn>, idOf: map<Conn, Id>,
                             connOf: map<Id, Conn>, bullets: seq<Bullet>, next: nat, id: Id, p: Player)
    requires OneToOne(conns, idOf, connOf, players.Keys) && Minted(players, bullets, next)
    requires id in players && p.id == id
    ensures OneToOne(conns, idOf, connOf, players[id := p].Keys)
    ensures Minted(players[id := p], bullets, next)
  {
    assert players[id := p].Keys == players.Keys;
  }

  /** Closing a socket keeps the server invariant: the socket and its own
      player leave together, and nothing new is minted. */
  lemma CloseKeepsInvariant(players: map<Id, Player>, conns: seq<Conn>, idOf: map<Conn, Id>,
                            connOf: map<Id, Conn>, bullets: seq<Bullet>, next: nat, ws: Conn)
    requires OneToOne(conns, idOf, connOf, players.Keys) && Minted(players, bullets, next)
    requires ws in conns
    ensures ws in idOf
    ensures OneToOne(Without(conns, ws), idOf - {ws}, connOf - {idOf[ws]}, (players - {idOf[ws]}).Keys)
    ensures Minted(players - {idOf[ws]}, bullets, next)
  {
    CloseKeepsOneToOne(conns, idOf, connOf, players.Keys, ws);
    MintedAfterClose(players, bullets, next, idOf[ws]);
    assert (players - {idOf[ws]}).Keys == players.Keys - {idOf[ws]};
  }

  /** The module-level state of the server: `players`, `connections` and
      `bullets`, plus the id that each socket's handlers captured when the
      socket connected, and the supply of fresh uuids. */
  class GameServer {
    var players: map<Id, Player>
    var connections: seq<Conn>     // a JavaScript Set: distinct, in insertion order
    var bullets: seq<Bullet>       // only ever pushed to
    var idOf: map<Conn, Id>        // the `id` each live socket's closures hold
    var nextId: nat                // every uuid minted so far is below this
    ghost var connOf: map<Id, Conn>  // the socket that owns each player

    /** Players and live sockets correspond one to one; every id in use was
        minted; bullet ids are unique. */
    ghost predicate Valid()
      reads this
    {
      OneToOne(connections, idOf, connOf, players.Keys) && Minted(players, bullets, nextId)
    }

    /** The payload of a `players` message: every current player once, each
        record as stored, in the order the players connected. */
    function PlayerData(): (r: seq<Player>)
      reads this
      ensures forall p :: p in r ==> exists k :: k in players && players[k] == p
    {
      Snapshot(players, nextId)
    }

    /** The module is loaded with empty state. */
    constructor ()
      ensures Valid()
      ensures players == map[] && connections == [] && bullets == [] && idOf == map[]
    {
      players, connections, bullets := map[], [], [];
      idOf, nextId, connOf := map[], 0, map[];
    }

    /** One `connections.forEach` that sends `msg` to every OPEN socket. */
    method Broadcast(msg: OutMsg, open: set<Conn>) returns (sends: seq<Send>)
      ensures sends == Fanout(connections, open, msg)
    {
      sends := [];
      for i := 0 to |connections|
        invariant sends == Fanout(connections[..i], open, msg)
      {
        var client := connections[i];
        if client in open {
          sends := sends + [Send(client, msg)];
        }
        assert connections[..i + 1][..i] == connections[..i];
      }
      assert connections[..|connections|] == connections;
    }

    /** A socket connects: mint a fresh id, insert a default player under it,
        remember the socket. Nothing is sent. */
    method OnConnection(ws: Conn) returns (id: Id)
      requires Valid() && ws !in connections
      modifies this
      ensures Valid()
      ensures id !in old(players)
      ensures forall k :: k in old(players) ==> k < id
      ensures forall i :: 0 <= i < |bullets| ==> bullets[i].id != id
      ensures players == old(players)[id := Player(id, Some(""), Some(Position(0, 0)))]
      ensures connections == old(connections) + [ws]
      ensures idOf == old(idOf)[ws := id]
      ensures bullets == old(bullets)
    {
      id := nextId;
      var p := Player(id, Some(""), Some(Position(0, 0)));
      ConnectKeepsInvariant(players, connections, idOf, connOf, bullets, nextId, ws, p);
      players, connections, idOf, connOf := players[id := p], connections + [ws], idOf[ws := id], connOf[id := ws];
      nextId := nextId + 1;
    }

    /** The state change a message makes: `register` sets only the name and
        `move` only the position of the socket's own player (the id inside the
        message is ignored); `bullet` pushes a copy of the client's bullet under
        a fresh id and hands it back for broadcasting. */
    method Record(ws: Conn, data: InMsg) returns (fired: Option<Bullet>)
      requires Valid() && ws in connections
      modifies this
      ensures Valid()
      ensures connections == old(connections) && idOf == old(idOf)
      ensures var id := old(idOf)[ws];
        && (data.Register? ==> players == old(players)[id := old(players)[id].(name := data.name)])
        && (data.Move? ==> players == old(players)[id := old(players)[id].(position := data.position)])
        && (!data.Register? && !data.Move? ==> players == old(players))
      ensures !data.Shoot? ==> bullets == old(bullets) && fired == None
      ensures data.Shoot? ==>
        && |bullets| == |old(bullets)| + 1
        && bullets[..|old(bullets)|] == old(bullets)
        && fired == Some(bullets[|old(bullets)|])
        && var b := bullets[|old(bullets)|];
           && b == data.bullet.(id := b.id)
           && b.id !in players
           && (forall i :: 0 <= i < |old(bullets)| ==> old(bullets)[i].id != b.id)
    {
      fired := None;
      var id := idOf[ws];
      match data {
        case Register(_, name) =>
          var p := players[id].(name := name);
          UpdateKeepsInvariant(players, connections, idOf, connOf, bullets, nextId, id, p);
          players := players[id := p];
        case Move(_, position) =>
          var p := players[id].(position := position);
          UpdateKeepsInvariant(players, connections, idOf, connOf, bullets, nextId, id, p);
          players := players[id := p];
        case Shoot(b) =>
          var bullet := b.(id := nextId);
          MintedAfterShot(players, bullets, nextId, bullet);
          nextId, bullets := nextId + 1, bullets + [bullet];
          fired := Some(bullet);
        case Unknown(_) =>
      }
    }

    /** A message arrives on socket `ws`: its state change is recorded; a
        fired bullet goes to every OPEN socket; then, whatever the type, a
        `players` update goes to every OPEN socket. */
    method OnMessage(ws: Conn, data: InMsg, open: set<Conn>) returns (sends: seq<Send>)
      requires Valid() && ws in connections
      modifies this
      ensures Valid()
      ensures connections == old(connections) && idOf == old(idOf)
      ensures var id := old(idOf)[ws];
        && (data.Register? ==> players == old(players)[id := old(players)[id].(name := data.name)])
        && (data.Move? ==> players == old(players)[id := old(players)[id].(position := data.position)])
        && (!data.Register? && !data.Move? ==> players == old(players))
      ensures !data.Shoot? ==> bullets == old(bullets)
      ensures data.Shoot? ==>
        && |bullets| == |old(bullets)| + 1
        && bullets[..|old(bullets)|] == old(bullets)
        && var b := bullets[|old(bullets)|];
           && b == data.bullet.(id := b.id)
           && b.id !in players
           && (forall i :: 0 <= i < |old(bullets)| ==> old(bullets)[i].id != b.id)
      ensures sends ==
        (if data.Shoot? then Fanout(connections, open, BulletMsg(bullets[|bullets| - 1])) else [])
        + Fanout(connections, open, PlayersMsg(PlayerData()))
    {
      sends := [];
      var fired := Record(ws, data);
      if fired.Some? {
        sends := Broadcast(BulletMsg(fired.value), open);
      }
      var playerData := PlayerData();
      var update := Broadcast(PlayersMsg(playerData), open);
      sends := sends + update;
    }

    /** `delete players[id]; connections.delete(ws)`: forget socket `ws` and
        the player it owns. */
    method Forget(ws: Conn)
      requires Valid() && ws in connections
      modifies this
      ensures Valid()
      ensures players == old(players) - {old(idOf)[ws]}
      ensures connections == Without(old(connections), ws)
      ensures idOf == old(idOf) - {ws}
      ensures bullets == old(bullets) && nextId == old(nextId)
    {
      CloseKeepsInvariant(players, connections, idOf, connOf, bullets, nextId, ws);
      var id := idOf[ws];
      players, connections, idOf, connOf := players - {id}, Without(connections, ws), idOf - {ws}, connOf - {id};
    }

    /** Socket `ws` closes: its player and the socket are removed, and a
        `players` update without that player goes to the remaining OPEN
        sockets. */
    method OnClose(ws: Conn, open: set<Conn>) returns (sends: seq<Send>)
      requires Valid() && ws in connections
      modifies this
      ensures Valid()
      ensures players == old(players) - {old(idOf)[ws]}
      ensures connections == Without(old(connections), ws)
      ensures idOf == old(idOf) - {ws}
      ensures bullets == old(bullets)
      ensures sends == Fanout(connections, open, PlayersMsg(PlayerData()))
      ensures forall s :: s in sends ==> s.to != ws
      ensures forall p :: p in PlayerData() ==> p.id != old(idOf)[ws]
    {
      Forget(ws);
      var playerData := PlayerData();
      SnapshotOnlyPlayers(players, nextId);
      sends := Broadcast(PlayersMsg(playerData), open);
    }
  }

}
