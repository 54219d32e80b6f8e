/**
 The browser client's game rules: the keyboard-driven velocity, the movement
 step with its clamp to the play field, the handling of the server's
 `players` and `bullet` messages, and the filter that drops bullets that have
 left the field.
 */
module Client {
  import opened Protocol

  /** Pixels per movement step along each axis. */
  datatype Velocity = Velocity(vx: int, vy: int)

  // ---------------------------------------------------------------------------
  // Keyboard

  /** `handleKeyDown`: `w`/`s` set the vertical speed to -2/2, `a`/`d` the
      horizontal one; any other key does nothing. */
  function KeyDown(v: Velocity, key: string): (r: Velocity)
    ensures key == "w" || key == "s" ==> r.vx == v.vx && r.vy == (if key == "w" then -2 else 2)
    ensures key == "a" || key == "d" ==> r.vy == v.vy && r.vx == (if key == "a" then -2 else 2)
    ensures key !in {"w", "s", "a", "d"} ==> r == v
  {
    match key
    case "w" => v.(vy := -2)
    case "s" => v.(vy := 2)
    case "a" => v.(vx := -2)
    case "d" => v.(vx := 2)
    case _ => v
  }

  /** `handleKeyUp`: releasing `w` or `s` stops vertical motion, releasing `a`
      or `d` horizontal motion; any other key does nothing. */
  function KeyUp(v: Velocity, key: string): (r: Velocity)
    ensures key == "w" || key == "s" ==> r == Velocity(v.vx, 0)
    ensures key == "a" || key == "d" ==> r == Velocity(0, v.vy)
    ensures key !in {"w", "s", "a", "d"} ==> r == v
  {
    match key
    case "w" | "s" => v.(vy := 0)
    case "a" | "d" => v.(vx := 0)
    case _ => v
  }

  /** Each component of a keyboard-driven velocity is -2, 0 or 2. */
  ghost predicate KeyboardVelocity(v: Velocity) {
    v.vx in {-2, 0, 2} && v.vy in {-2, 0, 2}
  }

  /** From rest, or any other keyboard velocity, every sequence of key events keeps each component in {-2, 0, 2}. */
  lemma {:induction false} KeyEventsKeepVelocity(v: Velocity, events: seq<(bool, string)>)
    requires KeyboardVelocity(v)
    ensures KeyboardVelocity(ApplyKeys(v, events))
    decreases events
  {
    if events != [] {
      var (down, key) := events[0];
      var v' := if down then KeyDown(v, key) else KeyUp(v, key);
      KeyEventsKeepVelocity(v', events[1..]);
    }
  }

  /** The velocity after a sequence of key events, `true` for keydown. */
  function ApplyKeys(v: Velocity, events: seq<(bool, string)>): Velocity
    decreases events
  {
    if events == [] then v
    else
      var (down, key) := events[0];
      ApplyKeys(if down then KeyDown(v, key) else KeyUp(v, key), events[1..])
  }

  /** Releasing a key undoes pressing it on its axis, whatever that axis held before. */
  lemma ReleaseAfterPress(v: Velocity, key: string)
    ensures KeyUp(KeyDown(v, key), key) == KeyUp(v, key)
  {
  }

  /** Keys on different axes do not interfere: their presses commute. */
  lemma PressesOnDifferentAxesCommute(v: Velocity, vertical: string, horizontal: string)
    requires vertical in {"w", "s"} && horizontal in {"a", "d"}
    ensures KeyDown(KeyDown(v, vertical), horizontal) == KeyDown(KeyDown(v, horizontal), vertical)
  {
  }

  // ---------------------------------------------------------------------------
  // Movement

  /** Where one movement step puts the player: the sum of position and
      velocity, clamped per axis. Below 0 goes to 0 on both axes; beyond 880
      x goes to 880, but beyond 580 y goes to 570. */
  function Step(prev: Position, v: Velocity): (r: Position)
    ensures 0 <= r.x <= 880 && 0 <= r.y <= 580
    ensures 0 <= prev.x + v.vx <= 880 ==> r.x == prev.x + v.vx
    ensures 0 <= prev.y + v.vy <= 580 ==> r.y == prev.y + v.vy
    ensures prev.x + v.vx < 0 ==> r.x == 0
    ensures prev.x + v.vx > 880 ==> r.x == 880
    ensures prev.y + v.vy < 0 ==> r.y == 0
    ensures prev.y + v.vy > 580 ==> r.y == 570
  {
    var x := prev.x + v.vx;
    var y := prev.y + v.vy;
    Position(if x < 0 then 0 else if x > 880 then 880 else x,
             if y < 0 then 0 else if y > 580 then 570 else y)
  }

  /** The `move` callback: compute the next position by successive clamps,
      send it to the server in a `move` message, and store it. */
  method MoveStep(id: Id, prev: Position, velocity: Velocity) returns (newPos: Position, sent: InMsg)
    ensures newPos == Step(prev, velocity)
    ensures sent == Move(id, Some(newPos))
  {
    newPos := Position(prev.x + velocity.vx, prev.y + velocity.vy);
    if newPos.x < 0 { newPos := newPos.(x := 0); }
    if newPos.x > 880 { newPos := newPos.(x := 880); }
    if newPos.y < 0 { newPos := newPos.(y := 0); }
    if newPos.y > 580 { newPos := newPos.(y := 570); }
    sent := Move(id, Some(newPos));
  }

  /** A player inside the field stays inside after any number of steps, at any velocity. */
  lemma {:induction false} StepsStayInField(p: Position, vs: seq<Velocity>)
    requires 0 <= p.x <= 880 && 0 <= p.y <= 580
    ensures var q := Steps(p, vs); 0 <= q.x <= 880 && 0 <= q.y <= 580
    decreases vs
  {
    if vs != [] {
      StepsStayInField(Step(p, vs[0]), vs[1..]);
    }
  }

  /** The position after one step per velocity in `vs`. */
  function Steps(p: Position, vs: seq<Velocity>): Position
    decreases vs
  {
    if vs == [] then p else Steps(Step(p, vs[0]), vs[1..])
  }

  /** At the right wall, holding `d` keeps the player there. At the bottom
      wall, holding `s` throws the player back to 570, from where it climbs
      back to 580 in steps of 2 and is thrown back again. */
  lemma WallBehaviour(x: int, y: int)
    requires 0 <= x <= 880 && 0 <= y <= 580
    ensures Step(Position(880, y), Velocity(2, 0)) == Position(880, y)
    ensures Step(Position(x, 580), Velocity(0, 2)) == Position(x, 570)
    ensures 570 <= y <= 578 ==> Step(Position(x, y), Velocity(0, 2)) == Position(x, y + 2)
  {
  }

  // ---------------------------------------------------------------------------
  // Messages from the server

  /** The entry of `list` at `i` is the last one with its id. */
  ghost predicate LastWithId(list: seq<Player>, i: int)
    requires 0 <= i < |list|
  {
    forall j :: i < j < |list| ==> list[j].id != list[i].id
  }

  /** The `players` reducer: fold the list into an object keyed by id; a later
      entry with the same id overwrites an earlier one. */
  method IndexPlayers(list: seq<Player>) returns (acc: map<Id, Player>)
    ensures acc.Keys == set p | p in list :: p.id
    ensures forall i :: 0 <= i < |list| && LastWithId(list, i) ==> acc[list[i].id] == list[i]
    ensures forall k :: k in acc ==> acc[k] in list && acc[k].id == k
  {
    acc := map[];
    for i := 0 to |list|
      invariant acc.Keys == set p | p in list[..i] :: p.id
      invariant forall j :: 0 <= j < i && (forall m :: j < m < i ==> list[m].id != list[j].id) ==> acc[list[j].id] == list[j]
      invariant forall k :: k in acc ==> acc[k] in list[..i] && acc[k].id == k
    {
      assert list[..i + 1] == list[..i] + [list[i]];
      acc := acc[list[i].id := list[i]];
    }
    assert list[..|list|] == list;
  }

  /** What the client shows: players by id, and the bullets in flight. */
  datatype View = View(players: map<Id, Player>, bullets: seq<Bullet>)

  /** `socket.onmessage`: a `players` message replaces the player table; a
      `bullet` message appends the bullet after those already shown. */
  method OnServerMessage(view: View, data: OutMsg) returns (next: View)
    ensures data.PlayersMsg? ==>
      && next.bullets == view.bullets
      && next.players.Keys == (set p | p in data.players :: p.id)
      && (forall i :: 0 <= i < |data.players| && LastWithId(data.players, i) ==>
            next.players[data.players[i].id] == data.players[i])
    ensures data.BulletMsg? ==>
      && next.players == view.players
      && |next.bullets| == |view.bullets| + 1
      && next.bullets[..|view.bullets|] == view.bullets
      && next.bullets[|view.bullets|] == data.bullet
  {
    match data {
      case PlayersMsg(list) =>
        var table := IndexPlayers(list);
        next := view.(players := table);
      case BulletMsg(b) =>
        next := view.(bullets := view.bullets + [b]);
    }
  }

  // ---------------------------------------------------------------------------
  // Bullets in flight

  /** The field a bullet may be drawn in, edges included. */
  predicate InBounds(b: Bullet) {
    0.0 <= b.x <= 900.0 && 0.0 <= b.y <= 600.0
  }

  /** The `filter` of the bullet tick: keep the bullets inside the field. */
  function KeepInBounds(bs: seq<Bullet>): (r: seq<Bullet>)
    ensures |r| <= |bs|
    ensures forall b :: b in r ==> b in bs && InBounds(b)
  {
    if bs == [] then []
    else
      var rest := KeepInBounds(bs[1..]);
      assert forall b :: b in rest ==> b in bs;
      (if InBounds(bs[0]) then [bs[0]] else []) + rest
  }

  /** Every bullet inside the field survives the filter. */
  lemma {:induction false} KeepInBoundsKeeps(bs: seq<Bullet>, b: Bullet)
    requires b in bs && InBounds(b)
    ensures b in KeepInBounds(bs)
  {
    if bs[0] != b {
      assert b in bs[1..] by {
        var i :| 0 <= i < |bs| && bs[i] == b;
        assert bs[1..][i - 1] == b;
      }
      KeepInBoundsKeeps(bs[1..], b);
    }
  }

  /** The filter keeps exactly the bullets inside the field. */
  lemma KeepInBoundsKeepsAll(bs: seq<Bullet>)
    ensures forall b :: b in KeepInBounds(bs) <==> b in bs && InBounds(b)
  {
    forall b | b in bs && InBounds(b)
      ensures b in KeepInBounds(bs)
    {
      KeepInBoundsKeeps(bs, b);
    }
  }

  /** The filter keeps relative order: filtering a concatenation concatenates the filtered parts. */
  lemma {:induction false} KeepInBoundsAppend(a: seq<Bullet>, b: seq<Bullet>)
    ensures KeepInBounds(a + b) == KeepInBounds(a) + KeepInBounds(b)
  {
    if a != [] {
      assert (a + b)[1..] == a[1..] + b;
      KeepInBoundsAppend(a[1..], b);
    } else {
      assert a + b == b;
    }
  }

  /** Filtering twice is filtering once. */
  lemma {:induction false} KeepInBoundsIdempotent(bs: seq<Bullet>)
    ensures KeepInBounds(KeepInBounds(bs)) == KeepInBounds(bs)
  {
    if bs != [] {
      KeepInBoundsIdempotent(bs[1..]);
      var rest := KeepInBounds(bs[1..]);
      if InBounds(bs[0]) {
        assert KeepInBounds(bs) == [bs[0]] + rest;
        KeepInBoundsAppend([bs[0]], rest);
      } else {
        assert KeepInBounds(bs) == rest;
      }
    }
  }

  /** `moveBullets`: each bullet keeps its id and velocity and gets the
      coordinates `advance` computes for it, then the filter drops those that
      left the field. */
  function Tick(bs: seq<Bullet>, advance: Bullet -> (real, real)): (r: seq<Bullet>)
    ensures r == KeepInBounds(seq(|bs|, i requires 0 <= i < |bs| => Moved(bs[i], advance)))
    ensures forall b :: b in r ==> InBounds(b)
    ensures forall b :: b in r ==> exists i :: 0 <= i < |bs| && b == Moved(bs[i], advance)
    ensures forall i :: 0 <= i < |bs| && InBounds(Moved(bs[i], advance)) ==> Moved(bs[i], advance) in r
    ensures forall i :: 0 <= i < |bs| && !InBounds(Moved(bs[i], advance)) ==> Moved(bs[i], advance) !in r
  {
    var moved := seq(|bs|, i requires 0 <= i < |bs| => Moved(bs[i], advance));
    KeepInBoundsKeepsAll(moved);
    assert forall i :: 0 <= i < |bs| ==> moved[i] == Moved(bs[i], advance) && moved[i] in moved;
    KeepInBounds(moved)
  }

  /** One bullet after one tick of motion: `{...bullet, x, y}` replaces only the coordinates. */
  function Moved(b: Bullet, advance: Bullet -> (real, real)): (r: Bullet)
    ensures r.id == b.id && r.vx == b.vx && r.vy == b.vy
    ensures (r.x, r.y) == advance(b)
  {
    b.(x := advance(b).0, y := advance(b).1)
  }
}
