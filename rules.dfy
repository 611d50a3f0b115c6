/**
  The rules of one round, on values: what a tick of `Level.update` does to the
  players and the particle count, and what a keyboard or joystick turn does to
  one player. The classes in module Tron are proved to follow these functions;
  the lemmas here state what the rules guarantee.
 */
module Rules {
  import opened Geometry

  const Zero := Point(0.0, 0.0)

  /** Joystick readings within this distance of the centre are ignored. */
  const Deadzone: real := 0.1

  /** The keys the two players are bound to; every other key is OtherKey. */
  datatype Key = KeyA | KeyD | KeyW | KeyS | KeyLeft | KeyRight | KeyUp | KeyDown | OtherKey(code: int)

  /** A player's bindings, in the order of the Keys enumeration: left, right, up, down. */
  datatype Controls = Controls(left: Key, right: Key, up: Key, down: Key)

  predicate DistinctControls(c: Controls) {
    c.left != c.right && c.left != c.up && c.left != c.down &&
    c.right != c.up && c.right != c.down && c.up != c.down
  }

  datatype Option<T> = None | Some(value: T)

  /** A trail starts as two copies of the start position and only ever grows. */
  type Trail = t: seq<Point> | |t| >= 2 witness [Zero, Zero]

  /** The mutable part of a player: head position, velocity, trail and the dead flag. */
  datatype PlayerState = PlayerState(pos: Point, vel: Point, path: Trail, dead: bool)

  /** Everything a tick changes: the players in list order and the number of particles. */
  datatype World = World(players: seq<PlayerState>, particles: nat)

  function Last(path: seq<Point>): Point
    requires |path| > 0
  {
    path[|path| - 1]
  }

  /** path[-1] = p */
  function SetLast(path: seq<Point>, p: Point): (r: seq<Point>)
    requires |path| > 0
    ensures |r| == |path| && Last(r) == p && r[..|path| - 1] == path[..|path| - 1]
  {
    path[..|path| - 1] + [p]
  }

  /** path[:-2]: everything but the last two points (nothing, for two points or fewer). */
  function DropLast2(path: seq<Point>): (r: seq<Point>)
    ensures |r| == if |path| < 2 then 0 else |path| - 2
    ensures forall k :: 0 <= k < |r| ==> r[k] == path[k]
  {
    if |path| < 2 then [] else path[..|path| - 2]
  }

  /** The number of pairs zip(path, path[1:]) yields. */
  function EdgeCount(path: seq<Point>): nat {
    if |path| == 0 then 0 else |path| - 1
  }

  /** p + v * dt / 1000, with dt in milliseconds and v in units per second. */
  function Advance(p: Point, v: Point, dt: int): Point {
    Point(p.x + v.x * (dt as real) / 1000.0, p.y + v.y * (dt as real) / 1000.0)
  }

  /** One of the four axis directions at the given speed. */
  predicate IsDirection(v: Point, speed: real) {
    v == Point(0.0, speed) || v == Point(0.0, -speed) ||
    v == Point(speed, 0.0) || v == Point(-speed, 0.0)
  }

  /** The live edge (the last one) runs along the axis of travel. */
  predicate LiveEdgeAlong(path: Trail, vel: Point) {
    (vel.x == 0.0 ==> path[|path| - 2].x == Last(path).x) &&
    (vel.y == 0.0 ==> path[|path| - 2].y == Last(path).y)
  }

  /** What holds of every player between events. */
  predicate PlayerInv(s: PlayerState, speed: real) {
    Last(s.path) == s.pos && AxisAlignedPath(s.path) &&
    (s.dead ==> s.vel == Zero) &&
    (!s.dead ==> IsDirection(s.vel, speed) && LiveEdgeAlong(s.path, s.vel))
  }

  predicate WorldInv(w: World, speed: real) {
    forall k :: 0 <= k < |w.players| ==> PlayerInv(w.players[k], speed)
  }

  // ---------------------------------------------------------------------------
  // A tick

  /** The leading edge of a moving player: from its new position back to its trail's last point. */
  function Lead(s: PlayerState, dt: int): Segment {
    Segment(Advance(s.pos, s.vel, dt), Last(s.path))
  }

  /** The condition tested on every edge of opponent j's trail when player i moves. */
  predicate HitsTrail(lead: Segment, i: nat, j: nat, ps: seq<PlayerState>)
    requires j < |ps|
  {
    (j != i && Collision(lead, ps[j].path)) || Collision(lead, DropLast2(ps[j].path))
  }

  /** How often crash runs while player i's edge loops visit opponents 0 .. n-1. */
  function CrashCalls(lead: Segment, i: nat, ps: seq<PlayerState>, n: nat): nat
    requires n <= |ps|
  {
    if n == 0 then 0
    else CrashCalls(lead, i, ps, n - 1) + (if HitsTrail(lead, i, n - 1, ps) then EdgeCount(ps[n - 1].path) else 0)
  }

  /** How often crash runs in update's iteration for player i (never, for a dead player). */
  function StepCrashCalls(w: World, i: nat, dt: int): nat
    requires i < |w.players|
  {
    if w.players[i].dead then 0 else CrashCalls(Lead(w.players[i], dt), i, w.players, |w.players|)
  }

  /** The body of update's player loop for player i. */
  function StepPlayer(w: World, i: nat, dt: int): (r: World)
    requires i < |w.players|
    ensures |r.players| == |w.players|
  {
    var s := w.players[i];
    if s.dead then w
    else
      var lead := Lead(s, dt);
      var calls := StepCrashCalls(w, i, dt);
      var s' := PlayerState(lead.a, if calls > 0 then Zero else s.vel, SetLast(s.path, lead.a), calls > 0);
      World(w.players[i := s'], w.particles + 10 * calls)
  }

  /** The first n iterations of update's player loop. */
  function Steps(w: World, n: nat, dt: int): (r: World)
    requires n <= |w.players|
    ensures |r.players| == |w.players|
  {
    if n == 0 then w else StepPlayer(Steps(w, n - 1, dt), n - 1, dt)
  }

  /** How often crash runs in the first n iterations of update's player loop. */
  function StepsCrashCalls(w: World, n: nat, dt: int): nat
    requires n <= |w.players|
  {
    if n == 0 then 0 else StepsCrashCalls(w, n - 1, dt) + StepCrashCalls(Steps(w, n - 1, dt), n - 1, dt)
  }

  /** One call of update(dt), players taken in list order. */
  function Tick(w: World, dt: int): World {
    Steps(w, |w.players|, dt)
  }

  // ---------------------------------------------------------------------------
  // Turns

  /** The velocity a key press requests; later bindings win, as in handle's if chain. */
  function KeyVelocity(vel: Point, c: Controls, key: Key, speed: real): (r: Option<Point>)
    ensures r.Some? ==> IsDirection(r.value, speed)
    ensures r.Some? ==> (vel.x != 0.0 && r.value.x == 0.0) || (vel.y != 0.0 && r.value.y == 0.0)
    ensures DistinctControls(c) ==>
      (r.Some? <==> ((key == c.up || key == c.down) && vel.x != 0.0) ||
                    ((key == c.left || key == c.right) && vel.y != 0.0))
    // which direction each binding selects
    ensures DistinctControls(c) && key == c.up && vel.x != 0.0 ==> r == Some(Point(0.0, -speed))
    ensures DistinctControls(c) && key == c.down && vel.x != 0.0 ==> r == Some(Point(0.0, speed))
    ensures DistinctControls(c) && key == c.right && vel.y != 0.0 ==> r == Some(Point(speed, 0.0))
    ensures key == c.left && vel.y != 0.0 ==> r == Some(Point(-speed, 0.0))
  {
    var up := if key == c.up && vel.x != 0.0 then Some(Point(0.0, -speed)) else None;
    var down := if key == c.down && vel.x != 0.0 then Some(Point(0.0, speed)) else up;
    var right := if key == c.right && vel.y != 0.0 then Some(Point(speed, 0.0)) else down;
    if key == c.left && vel.y != 0.0 then Some(Point(-speed, 0.0)) else right
  }

  /** The velocity a joystick axis motion requests (axis 0 steers vertically, axis 1 horizontally). */
  function JoyVelocity(vel: Point, axis0: real, axis1: real, speed: real): (r: Option<Point>)
    ensures r.Some? ==> IsDirection(r.value, speed)
    ensures r.Some? ==> (vel.x != 0.0 && r.value.x == 0.0) || (vel.y != 0.0 && r.value.y == 0.0)
    ensures r.Some? <==> ((axis0 < -Deadzone || axis0 > Deadzone) && vel.x != 0.0) ||
                         ((axis1 < -Deadzone || axis1 > Deadzone) && vel.y != 0.0)
    // which direction each deflection selects; axis 1 is tested last and wins
    ensures vel.y == 0.0 && vel.x != 0.0 && axis0 < -Deadzone ==> r == Some(Point(0.0, speed))
    ensures vel.y == 0.0 && vel.x != 0.0 && axis0 > Deadzone ==> r == Some(Point(0.0, -speed))
    ensures vel.y != 0.0 && axis1 < -Deadzone ==> r == Some(Point(-speed, 0.0))
    ensures vel.y != 0.0 && axis1 > Deadzone ==> r == Some(Point(speed, 0.0))
  {
    var a := if axis0 < -Deadzone && vel.x != 0.0 then Some(Point(0.0, speed)) else None;
    var b := if axis0 > Deadzone && vel.x != 0.0 then Some(Point(0.0, -speed)) else a;
    var c := if axis1 < -Deadzone && vel.y != 0.0 then Some(Point(-speed, 0.0)) else b;
    if axis1 > Deadzone && vel.y != 0.0 then Some(Point(speed, 0.0)) else c
  }

  /** Apply a requested velocity: set it and fix the current position as a trail vertex. */
  function Turn(s: PlayerState, v: Option<Point>): PlayerState {
    if v.Some? then s.(vel := v.value, path := s.path + [s.pos]) else s
  }

  function KeyTurn(s: PlayerState, c: Controls, key: Key, speed: real): PlayerState {
    if s.dead then s else Turn(s, KeyVelocity(s.vel, c, key, speed))
  }

  function JoyTurn(s: PlayerState, axis0: real, axis1: real, speed: real): PlayerState {
    if s.dead then s else Turn(s, JoyVelocity(s.vel, axis0, axis1, speed))
  }

  // ---------------------------------------------------------------------------
  // What a tick guarantees

  /** For an opponent the prefix test (the elif) adds nothing: a hit on path[:-2] is a hit on path. */
  lemma HitsTrailMeaning(lead: Segment, i: nat, j: nat, ps: seq<PlayerState>)
    requires j < |ps|
    ensures HitsTrail(lead, i, j, ps) <==>
      if j != i then Collision(lead, ps[j].path) else Collision(lead, DropLast2(ps[j].path))
  {
    var path := ps[j].path;
    if j != i && Collision(lead, DropLast2(path)) {
      var k := |DropLast2(path)|;
      assert DropLast2(path) == path[..k];
      CollisionPrefix(lead, path, k);
    }
  }

  /** Crash runs at all exactly when some trail's condition holds (every trail has an edge). */
  lemma {:induction false} CrashCallsPositive(lead: Segment, i: nat, ps: seq<PlayerState>, n: nat)
    requires n <= |ps|
    ensures CrashCalls(lead, i, ps, n) > 0 <==> exists j :: 0 <= j < n && HitsTrail(lead, i, j, ps)
  {
    if n > 0 {
      CrashCallsPositive(lead, i, ps, n - 1);
    }
  }

  /**
    A living player moves to pos + vel * dt / 1000, its trail's last point follows it, and it
    ends the step dead exactly when its leading edge hits another player's whole trail or its
    own trail without the last two points; a dead player's velocity is zero.
   */
  lemma StepPlayerAlive(w: World, i: nat, dt: int)
    requires i < |w.players| && !w.players[i].dead
    ensures var s, r, lead := w.players[i], StepPlayer(w, i, dt).players[i], Lead(w.players[i], dt);
      && r.pos == Advance(s.pos, s.vel, dt)
      && r.path == SetLast(s.path, r.pos)
      && (r.dead <==> (exists j :: 0 <= j < |w.players| && j != i && Collision(lead, w.players[j].path))
                      || Collision(lead, DropLast2(s.path)))
      && r.vel == (if r.dead then Zero else s.vel)
  {
    var lead := Lead(w.players[i], dt);
    CrashCallsPositive(lead, i, w.players, |w.players|);
    forall j | 0 <= j < |w.players| {
      HitsTrailMeaning(lead, i, j, w.players);
    }
  }

  /** Each crash call adds ten particles; crash runs in player i's iteration exactly when it dies there. */
  lemma StepPlayerParticles(w: World, i: nat, dt: int)
    requires i < |w.players|
    ensures var r := StepPlayer(w, i, dt);
      && r.particles == w.particles + 10 * StepCrashCalls(w, i, dt)
      && (StepCrashCalls(w, i, dt) > 0 <==> !w.players[i].dead && r.players[i].dead)
  {
  }

  /** Player i's iteration leaves every other player as it was. */
  lemma StepPlayerOthers(w: World, i: nat, dt: int)
    requires i < |w.players|
    ensures forall j :: 0 <= j < |w.players| && j != i ==> StepPlayer(w, i, dt).players[j] == w.players[j]
  {
  }

  lemma AppendPreservesAligned(path: seq<Point>, p: Point)
    requires |path| > 0 && AxisAlignedPath(path) && AxisAligned(Segment(Last(path), p))
    ensures AxisAlignedPath(path + [p])
  {
    var path' := path + [p];
    forall k | 0 <= k < |path'| - 1 ensures AxisAligned(Edge(path', k)) {
      if k < |path| - 1 {
        assert Edge(path', k) == Edge(path, k);
      } else {
        assert Edge(path', k) == Segment(Last(path), p);
      }
    }
  }

  lemma StepPlayerPreservesInv(w: World, i: nat, dt: int, speed: real)
    requires i < |w.players| && WorldInv(w, speed)
    ensures WorldInv(StepPlayer(w, i, dt), speed)
  {
    var s := w.players[i];
    if !s.dead {
      var r := StepPlayer(w, i, dt).players[i];
      var p := Advance(s.pos, s.vel, dt);
      var front := s.path[..|s.path| - 1];
      assert s.path == front + [s.pos];
      assert AxisAlignedPath(front) by {
        forall k | 0 <= k < |front| - 1 ensures AxisAligned(Edge(front, k)) {
          assert Edge(front, k) == Edge(s.path, k);
        }
      }
      assert s.vel.x == 0.0 ==> p.x == s.pos.x;
      assert s.vel.y == 0.0 ==> p.y == s.pos.y;
      AppendPreservesAligned(front, p);
      assert r.path == front + [p];
    }
  }

  /** Players the loop has not reached yet are untouched. */
  lemma {:induction false} StepsUntouched(w: World, n: nat, dt: int, j: nat)
    requires n <= j < |w.players|
    ensures Steps(w, n, dt).players[j] == w.players[j]
  {
    if n > 0 {
      StepsUntouched(w, n - 1, dt, j);
      StepsUnfold(w, n, dt);
      StepPlayerOthers(Steps(w, n - 1, dt), n - 1, dt);
    }
  }

  lemma {:induction false} StepsPreserveInv(w: World, n: nat, dt: int, speed: real)
    requires n <= |w.players| && WorldInv(w, speed)
    ensures WorldInv(Steps(w, n, dt), speed)
  {
    if n > 0 {
      StepsPreserveInv(w, n - 1, dt, speed);
      StepsUnfold(w, n, dt);
      StepPlayerPreservesInv(Steps(w, n - 1, dt), n - 1, dt, speed);
    }
  }

  lemma StepsUnfold(w: World, n: nat, dt: int)
    requires 0 < n <= |w.players|
    ensures Steps(w, n, dt) == StepPlayer(Steps(w, n - 1, dt), n - 1, dt)
  {
  }

  /** update keeps every player's trail invariant. */
  lemma TickPreservesInv(w: World, dt: int, speed: real)
    requires WorldInv(w, speed)
    ensures WorldInv(Tick(w, dt), speed)
  {
    StepsPreserveInv(w, |w.players|, dt, speed);
  }

  lemma {:induction false} StepsFreezeDead(w: World, n: nat, dt: int, j: nat)
    requires n <= |w.players| && j < |w.players| && w.players[j].dead
    ensures Steps(w, n, dt).players[j] == w.players[j]
  {
    if n > 0 {
      StepsFreezeDead(w, n - 1, dt, j);
      StepsUnfold(w, n, dt);
      StepPlayerOthers(Steps(w, n - 1, dt), n - 1, dt);
    }
  }

  /** A dead player is skipped: it stays dead and its position, velocity and trail never change. */
  lemma TickFreezesDead(w: World, dt: int, j: nat)
    requires j < |w.players| && w.players[j].dead
    ensures Tick(w, dt).players[j] == w.players[j]
  {
    StepsFreezeDead(w, |w.players|, dt, j);
  }

  /** Player j's state after the loop is what its own iteration made of it. */
  lemma {:induction false} StepsSettled(w: World, n: nat, dt: int, j: nat)
    requires j < n <= |w.players|
    ensures Steps(w, n, dt).players[j] == Steps(w, j + 1, dt).players[j]
  {
    if n > j + 1 {
      StepsSettled(w, n - 1, dt, j);
      StepsUnfold(w, n, dt);
      StepPlayerOthers(Steps(w, n - 1, dt), n - 1, dt);
    }
  }

  lemma {:induction false} StepsParticlesCount(w: World, n: nat, dt: int)
    requires n <= |w.players|
    ensures Steps(w, n, dt).particles == w.particles + 10 * StepsCrashCalls(w, n, dt)
  {
    if n > 0 {
      StepsParticlesCount(w, n - 1, dt);
      StepsUnfold(w, n, dt);
      StepPlayerParticles(Steps(w, n - 1, dt), n - 1, dt);
    }
  }

  lemma {:induction false} StepsCrashCallsDeaths(w: World, n: nat, dt: int)
    requires n <= |w.players|
    ensures var r := Steps(w, n, dt);
      StepsCrashCalls(w, n, dt) > 0 <==> exists j :: 0 <= j < n && !w.players[j].dead && r.players[j].dead
  {
    if n > 0 {
      StepsCrashCallsDeaths(w, n - 1, dt);
      StepsUntouched(w, n - 1, dt, n - 1);
      StepsUnfold(w, n, dt);
      DeathsStep(w.players, Steps(w, n - 1, dt), n - 1, dt, StepsCrashCalls(w, n - 1, dt) > 0);
    }
  }

  /** One more iteration: crash ran so far exactly when someone died so far. */
  lemma DeathsStep(start: seq<PlayerState>, prev: World, i: nat, dt: int, earlier: bool)
    requires i < |prev.players| == |start| && prev.players[i] == start[i]
    requires earlier <==> exists j :: 0 <= j < i && !start[j].dead && prev.players[j].dead
    ensures var r := StepPlayer(prev, i, dt);
      (earlier || StepCrashCalls(prev, i, dt) > 0) <==>
        exists j :: 0 <= j < i + 1 && !start[j].dead && r.players[j].dead
  {
    var r := StepPlayer(prev, i, dt);
    StepPlayerParticles(prev, i, dt);
    StepPlayerOthers(prev, i, dt);
    if earlier {
      var j :| 0 <= j < i && !start[j].dead && prev.players[j].dead;
      assert r.players[j] == prev.players[j];
    } else if StepCrashCalls(prev, i, dt) == 0 {
      forall j | 0 <= j < i + 1 && !start[j].dead ensures !r.players[j].dead {
        if j < i {
          assert r.players[j] == prev.players[j];
        }
      }
    }
  }

  /**
    Over a tick the particle count grows by ten per crash call, never shrinks, and grows
    exactly when some player that was alive dies.
   */
  lemma TickParticles(w: World, dt: int)
    ensures var r, calls := Tick(w, dt), StepsCrashCalls(w, |w.players|, dt);
      && r.particles == w.particles + 10 * calls
      && (calls > 0 <==> exists j :: 0 <= j < |w.players| && !w.players[j].dead && r.players[j].dead)
  {
    StepsParticlesCount(w, |w.players|, dt);
    StepsCrashCallsDeaths(w, |w.players|, dt);
  }

  /**
    Player i's fate over a tick: it is tested against the trails as the loop has left them when
    its turn comes (players before it already moved) and against its own trail without the last
    two points.
   */
  lemma TickFate(w: World, dt: int, i: nat)
    requires i < |w.players| && !w.players[i].dead
    ensures var before, lead := Steps(w, i, dt), Lead(w.players[i], dt);
      Tick(w, dt).players[i].dead <==>
        (exists j :: 0 <= j < |w.players| && j != i && Collision(lead, before.players[j].path)) ||
        Collision(lead, DropLast2(w.players[i].path))
  {
    StepsUntouched(w, i, dt, i);
    StepsSettled(w, |w.players|, dt, i);
    StepsUnfold(w, i + 1, dt);
    StepPlayerAlive(Steps(w, i, dt), i, dt);
  }

  /** Over a tick a living player moves by vel * dt / 1000, its trail's last point follows, and it stops if it dies. */
  lemma TickMoves(w: World, dt: int, i: nat)
    requires i < |w.players| && !w.players[i].dead
    ensures var s, r := w.players[i], Tick(w, dt).players[i];
      && r.pos == Advance(s.pos, s.vel, dt)
      && r.path == SetLast(s.path, r.pos)
      && r.vel == (if r.dead then Zero else s.vel)
  {
    StepsUntouched(w, i, dt, i);
    StepsSettled(w, |w.players|, dt, i);
    StepsUnfold(w, i + 1, dt);
    StepPlayerAlive(Steps(w, i, dt), i, dt);
  }

  /** A living player's leading edge runs along its axis of travel. */
  lemma LeadAxisAligned(s: PlayerState, dt: int, speed: real)
    requires PlayerInv(s, speed) && !s.dead
    ensures AxisAligned(Lead(s, dt))
  {
  }

  /**
    The death condition of TickFate as geometry: a living player dies in a tick exactly when its
    leading edge shares a point with an edge of another player's trail (as the loop has left it)
    or with an edge of its own trail other than the last two points.
   */
  lemma TickContact(w: World, dt: int, i: nat, speed: real)
    requires i < |w.players| && !w.players[i].dead && WorldInv(w, speed)
    ensures var before, lead, own := Steps(w, i, dt), Lead(w.players[i], dt), DropLast2(w.players[i].path);
      Tick(w, dt).players[i].dead <==>
        (exists j, k :: 0 <= j < |w.players| && j != i && 0 <= k < |before.players[j].path| - 1 &&
                        Touches(lead, Edge(before.players[j].path, k))) ||
        (exists k :: 0 <= k < |own| - 1 && Touches(lead, Edge(own, k)))
  {
    var before, lead, own := Steps(w, i, dt), Lead(w.players[i], dt), DropLast2(w.players[i].path);
    TickFate(w, dt, i);
    LeadAxisAligned(w.players[i], dt, speed);
    StepsPreserveInv(w, i, dt, speed);
    forall j | 0 <= j < |w.players| && j != i
      ensures Collision(lead, before.players[j].path) <==>
        exists k :: 0 <= k < |before.players[j].path| - 1 && Touches(lead, Edge(before.players[j].path, k))
    {
      assert PlayerInv(before.players[j], speed);
      CollisionAxisAligned(lead, before.players[j].path);
    }
    var path := w.players[i].path;
    assert AxisAlignedPath(own) by {
      forall k | 0 <= k < |own| - 1 ensures AxisAligned(Edge(own, k)) {
        assert Edge(own, k) == Edge(path, k);
      }
    }
    CollisionAxisAligned(lead, own);
  }

  /**
    With two players, player 0 is tested against player 1's trail as it was, and player 1
    against player 0's trail as player 0's own iteration has just left it.
   */
  lemma TickTwoPlayers(w: World, dt: int)
    requires |w.players| == 2
    ensures var r := Tick(w, dt);
      && (!w.players[0].dead ==>
            (r.players[0].dead <==>
               (Collision(Lead(w.players[0], dt), w.players[1].path) ||
                Collision(Lead(w.players[0], dt), DropLast2(w.players[0].path)))))
      && (!w.players[1].dead ==>
            (r.players[1].dead <==>
               (Collision(Lead(w.players[1], dt), r.players[0].path) ||
                Collision(Lead(w.players[1], dt), DropLast2(w.players[1].path)))))
  {
    if !w.players[0].dead {
      TickFate(w, dt, 0);
      assert Steps(w, 0, dt) == w;
    }
    if !w.players[1].dead {
      TickFate(w, dt, 1);
      StepsSettled(w, 2, dt, 0);
    }
  }

  // ---------------------------------------------------------------------------
  // What a turn guarantees

  /** An accepted turn appends exactly the current position; anything else changes nothing. */
  lemma KeyTurnRule(s: PlayerState, c: Controls, key: Key, speed: real)
    requires DistinctControls(c)
    ensures var r := KeyTurn(s, c, key, speed);
      && (r != s <==> !s.dead && (((key == c.up || key == c.down) && s.vel.x != 0.0) ||
                                  ((key == c.left || key == c.right) && s.vel.y != 0.0)))
      && (r != s ==> r.path == s.path + [s.pos] && r.pos == s.pos && r.dead == s.dead &&
                     IsDirection(r.vel, speed) &&
                     ((s.vel.x != 0.0 && r.vel.x == 0.0) || (s.vel.y != 0.0 && r.vel.y == 0.0)) &&
                     Some(r.vel) == KeyVelocity(s.vel, c, key, speed))
  {
    if !s.dead && KeyVelocity(s.vel, c, key, speed).Some? {
      assert |KeyTurn(s, c, key, speed).path| == |s.path| + 1;
    }
  }

  lemma JoyTurnRule(s: PlayerState, axis0: real, axis1: real, speed: real)
    ensures var r := JoyTurn(s, axis0, axis1, speed);
      && (r != s <==> !s.dead && (((axis0 < -Deadzone || axis0 > Deadzone) && s.vel.x != 0.0) ||
                                  ((axis1 < -Deadzone || axis1 > Deadzone) && s.vel.y != 0.0)))
      && (r != s ==> r.path == s.path + [s.pos] && r.pos == s.pos && r.dead == s.dead &&
                     IsDirection(r.vel, speed) &&
                     ((s.vel.x != 0.0 && r.vel.x == 0.0) || (s.vel.y != 0.0 && r.vel.y == 0.0)) &&
                     Some(r.vel) == JoyVelocity(s.vel, axis0, axis1, speed))
  {
    if !s.dead && JoyVelocity(s.vel, axis0, axis1, speed).Some? {
      assert |JoyTurn(s, axis0, axis1, speed).path| == |s.path| + 1;
    }
  }

  lemma TurnPreservesInv(s: PlayerState, v: Option<Point>, speed: real)
    requires PlayerInv(s, speed) && !s.dead
    requires v.Some? ==> IsDirection(v.value, speed)
    ensures PlayerInv(Turn(s, v), speed)
  {
    if v.Some? {
      AppendPreservesAligned(s.path, s.pos);
    }
  }

  lemma KeyTurnPreservesInv(s: PlayerState, c: Controls, key: Key, speed: real)
    requires PlayerInv(s, speed)
    ensures PlayerInv(KeyTurn(s, c, key, speed), speed)
  {
    if !s.dead {
      TurnPreservesInv(s, KeyVelocity(s.vel, c, key, speed), speed);
    }
  }

  lemma JoyTurnPreservesInv(s: PlayerState, axis0: real, axis1: real, speed: real)
    requires PlayerInv(s, speed)
    ensures PlayerInv(JoyTurn(s, axis0, axis1, speed), speed)
  {
    if !s.dead {
      TurnPreservesInv(s, JoyVelocity(s.vel, axis0, axis1, speed), speed);
    }
  }

  /** While alive, exactly one velocity component is non-zero, and it is plus or minus the speed. */
  lemma AliveVelocity(s: PlayerState, speed: real)
    requires PlayerInv(s, speed) && !s.dead && speed != 0.0
    ensures (s.vel.x != 0.0) != (s.vel.y != 0.0)
    ensures s.vel.x + s.vel.y == speed || s.vel.x + s.vel.y == -speed
  {
  }

  /**
    Two turns accepted between two ticks append the head position twice; the next tick's own-trail
    test (path[:-2]) then still holds the edge ending at the head, which the leading edge touches,
    so the player dies wherever it moves.
   */
  lemma DoubleTurnThenTickCrashes(w: World, i: nat, v1: Point, v2: Point, dt: int, speed: real)
    requires i < |w.players| && WorldInv(w, speed) && !w.players[i].dead
    ensures var s2 := Turn(Turn(w.players[i], Some(v1)), Some(v2));
      StepPlayer(w.(players := w.players[i := s2]), i, dt).players[i].dead
  {
    var s := w.players[i];
    var s2 := Turn(Turn(s, Some(v1)), Some(v2));
    var w2 := w.(players := w.players[i := s2]);
    assert s2.path == s.path + [s.pos, s.pos];
    assert DropLast2(s2.path) == s.path;
    var lead := Lead(s2, dt);
    var k := |s.path| - 2;
    assert Edge(s.path, k).b == s.pos == lead.b;
    IntersectSharedEndpoint(lead, Edge(s.path, k));
    assert Collision(lead, DropLast2(s2.path));
    StepPlayerAlive(w2, i, dt);
  }
}
