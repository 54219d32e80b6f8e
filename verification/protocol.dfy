/**
 The values that travel between the game server and its browser clients:
 players, bullets, and the JSON messages in both directions.
 */
module Protocol {

  /** A JSON field that may be missing from a message (`undefined` in JavaScript). */
  datatype Option<+T> = None | Some(value: T)

  /** A uuid. The server mints them from a counter, so they are naturals here. */
  type Id = nat

  /** Player coordinates in pixels. The client only ever sends integers (it starts
      at 0 and moves in steps of 2). The server would store any JSON value a
      `move` carries, but only integer pairs are represented here. */
  datatype Position = Position(x: int, y: int)

  /** The `{id, name, position}` record the server keeps per socket and broadcasts.
      `name` and `position` are what the last `register`/`move` carried, `None`
      when that message lacked the field. Only a string name and an integer
      position are represented; the server would store any JSON value. */
  datatype Player = Player(id: Id, name: Option<string>, position: Option<Position>)

  /** A bullet `{id, x, y, vx, vy}`; its coordinates are JavaScript numbers. */
  datatype Bullet = Bullet(id: Id, x: real, y: real, vx: real, vy: real)

  /** Messages a client sends, discriminated by their `type` field. The `id` a
      client puts in `register` and `move` is its own uuid; the server ignores it. */
  datatype InMsg =
    | Register(id: Id, name: Option<string>)
    | Move(id: Id, position: Option<Position>)
    | Shoot(bullet: Bullet)        // `type: 'bullet'`
    | Unknown(kind: string)        // any other `type`

  /** Messages the server sends. */
  datatype OutMsg =
    | PlayersMsg(players: seq<Player>)   // `type: 'players'`
    | BulletMsg(bullet: Bullet)          // `type: 'bullet'`

  /** No element occurs twice. */
  ghost predicate Distinct<T>(s: seq<T>) {
    forall i, j :: 0 <= i < j < |s| ==> s[i] != s[j]
  }

  /** No two bullets share an id. */
  ghost predicate DistinctIds(bs: seq<Bullet>) {
    forall i, j :: 0 <= i < j < |bs| ==> bs[i].id != bs[j].id
  }
}
