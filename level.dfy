/**
  The game state as objects: a Player whose position, velocity, trail and dead flag are
  updated in place, and a Level that owns two players and the particles, with update,
  crash and the two turn handlers. Update, UpdatePlayer, Steer, HandleKey and HandleJoyAxis
  are proved equal to Tick, StepPlayer, Turn, KeyTurn and JoyTurn of module Rules; Crash and
  CheckTrail state their effect directly.
 */
module Tron {
  import opened Geometry
  import opened Rules

  class Player {
    /** The four bound keys, in the order left, right, up, down. */
    const controls: Controls
    var pos: Point
    var vel: Point
    var path: Trail
    var dead: bool

    function State(): PlayerState
      reads this
    {
      PlayerState(pos, vel, path, dead)
    }

    /** A new player sits at its start with a trail of two copies of that point. */
    constructor (controls: Controls, start: Point, vel: Point)
      ensures this.controls == controls
      ensures State() == PlayerState(start, vel, [start, start], false)
    {
      this.controls := controls;
      pos := start;
      this.vel := vel;
      path := [start, start];
      dead := false;
    }
  }

  class Level {
    const speed: real
    const players: seq<Player>
    /** How many particles have been spawned; their motion is not modelled. */
    var particles: nat

    /** The players' states in list order, with the particle count. */
    function Snapshot(): (w: World)
      reads this, players
      ensures |w.players| == |players| && w.particles == particles
      ensures forall k :: 0 <= k < |players| ==> w.players[k] == players[k].State()
    {
      World(seq(|players|, k requires 0 <= k < |players| reads players => players[k].State()), particles)
    }

    ghost predicate Valid()
      reads this, players
    {
      |players| == 2 && players[0] != players[1] && WorldInv(Snapshot(), speed)
    }

    /**
      Player 0 starts at the middle of the upper part heading down, player 1 at the middle
      of the lower part heading up, both at a tenth of the height per second.
     */
    constructor (width: int, height: int)
      ensures Valid() && fresh(players[0]) && fresh(players[1])
      ensures speed == height as real * 0.1
      ensures var w, h := width as real, height as real;
        Snapshot() == World([PlayerState(Point(w * 0.5, h * 0.2), Point(0.0, speed), [Point(w * 0.5, h * 0.2), Point(w * 0.5, h * 0.2)], false),
                             PlayerState(Point(w * 0.5, h * 0.8), Point(0.0, -speed), [Point(w * 0.5, h * 0.8), Point(w * 0.5, h * 0.8)], false)], 0)
      ensures players[0].controls == Controls(KeyA, KeyD, KeyW, KeyS)
      ensures players[1].controls == Controls(KeyLeft, KeyRight, KeyUp, KeyDown)
    {
      var s := height as real * 0.1;
      var w, h := width as real, height as real;
      var p0 := new Player(Controls(KeyA, KeyD, KeyW, KeyS), Point(w * 0.5, h * 0.2), Point(0.0, s));
      var p1 := new Player(Controls(KeyLeft, KeyRight, KeyUp, KeyDown), Point(w * 0.5, h * 0.8), Point(0.0, -s));
      speed := s;
      players := [p0, p1];
      particles := 0;
      new;
      assert PlayerInv(players[0].State(), speed);
      assert PlayerInv(players[1].State(), speed);
    }

    /** Spawn ten particles at the player and stop it for good. */
    method Crash(p: Player)
      modifies this`particles, p`vel, p`dead
      ensures particles == old(particles) + 10
      ensures p.dead && p.vel == Zero
    {
      var i := 0;
      while i < 10
        invariant 0 <= i <= 10 && particles == old(particles) + i
      {
        particles := particles + 1;
        i := i + 1;
      }
      p.vel := Zero;
      p.dead := true;
    }

    /**
      The body of update's edge loop for one opponent: for every edge of the opponent's trail,
      crash if the leading edge hits the opponent's whole trail (another player) or the trail
      without its last two points.
     */
    method CheckTrail(player: Player, opponent: Player)
      modifies this`particles, player`vel, player`dead
      ensures var lead, n := Segment(player.pos, Last(player.path)), EdgeCount(opponent.path);
        var hit := (opponent != player && Collision(lead, opponent.path)) || Collision(lead, DropLast2(opponent.path));
        && particles == old(particles) + (if hit then 10 * n else 0)
        && player.dead == (old(player.dead) || hit)
        && player.vel == (if hit then Zero else old(player.vel))
    {
      var n := EdgeCount(opponent.path);
      var e := 0;
      ghost var lead := Segment(player.pos, Last(player.path));
      ghost var hit := (opponent != player && Collision(lead, opponent.path)) || Collision(lead, DropLast2(opponent.path));
      while e < n
        invariant 0 <= e <= n
        invariant particles == old(particles) + (if hit then 10 * e else 0)
        invariant player.dead == (old(player.dead) || (hit && e > 0))
        invariant player.vel == (if hit && e > 0 then Zero else old(player.vel))
      {
        if opponent != player && Collision(Segment(player.pos, Last(player.path)), opponent.path) {
          Crash(player);
        } else if Collision(Segment(player.pos, Last(player.path)), DropLast2(opponent.path)) {
          Crash(player);
        }
        e := e + 1;
      }
    }

    /**
      One call of update(delta_time): every living player, in list order, moves, is tested
      against all trails, and has its trail's last point moved to its new position.
     */
    method Update(dt: int)
      requires Valid()
      modifies this, players
      ensures Valid()
      ensures Snapshot() == Tick(old(Snapshot()), dt)
    {
      ghost var w0 := Snapshot();
      var i := 0;
      while i < |players|
        invariant 0 <= i <= |players|
        invariant Snapshot() == Steps(w0, i, dt)
      {
        StepsUnfold(w0, i + 1, dt);
        UpdatePlayer(i, dt);
        i := i + 1;
      }
      TickPreservesInv(w0, dt, speed);
    }

    /** The body of update's player loop for player i. */
    method UpdatePlayer(i: nat, dt: int)
      requires i < |players| == 2 && players[0] != players[1]
      modifies this`particles, players[i]
      ensures Snapshot() == StepPlayer(old(Snapshot()), i, dt)
    {
      var player := players[i];
      if player.dead {
        return;
      }
      ghost var prev := Snapshot();
      player.pos := Advance(player.pos, player.vel, dt);
      ghost var lead := Segment(player.pos, Last(player.path));
      assert lead == Lead(prev.players[i], dt);
      var j := 0;
      while j < |players|
        invariant 0 <= j <= |players|
        invariant particles == prev.particles + 10 * CrashCalls(lead, i, prev.players, j)
        invariant player.dead == (CrashCalls(lead, i, prev.players, j) > 0)
        invariant player.vel == (if player.dead then Zero else prev.players[i].vel)
        invariant player.pos == lead.a && player.path == prev.players[i].path
      {
        var opponent := players[j];
        assert opponent.path == prev.players[j].path && (opponent != player <==> j != i);
        CrashCallsPositive(lead, i, prev.players, j + 1);
        CheckTrail(player, opponent);
        j := j + 1;
      }
      player.path := SetLast(player.path, player.pos);
      StepPlayerOthers(prev, i, dt);
    }

    /** The shared tail of both turn branches of handle: if vel: set it and append the position. */
    method Steer(p: Player, v: Option<Point>)
      modifies p`vel, p`path
      ensures p.State() == Turn(old(p.State()), v)
    {
      if v.Some? {
        var here := p.pos;
        p.vel := v.value;
        p.path := p.path + [here];
      }
    }

    /**
      A key press: every living player whose bindings request a direction on the other axis
      turns to it and fixes its current position as a trail vertex.
     */
    method HandleKey(key: Key)
      requires Valid()
      modifies players
      ensures Valid() && particles == old(particles)
      ensures forall k :: 0 <= k < |players| ==>
        players[k].State() == KeyTurn(old(players[k].State()), players[k].controls, key, speed)
    {
      var i := 0;
      while i < |players|
        invariant 0 <= i <= |players|
        invariant forall k :: 0 <= k < i ==>
          players[k].State() == KeyTurn(old(players[k].State()), players[k].controls, key, speed)
        invariant forall k :: i <= k < |players| ==> players[k].State() == old(players[k].State())
      {
        var player := players[i];
        if !player.dead {
          Steer(player, KeyVelocity(player.vel, player.controls, key, speed));
        }
        i := i + 1;
      }
      forall k | 0 <= k < |players| ensures PlayerInv(players[k].State(), speed) {
        KeyTurnPreservesInv(old(players[k].State()), players[k].controls, key, speed);
      }
    }

    /**
      A joystick motion for player i with the stick's current readings: axis 0 beyond the dead
      zone turns a horizontally moving player vertically, axis 1 a vertically moving one
      horizontally; the trail gains the current position.
     */
    method HandleJoyAxis(i: nat, axis0: real, axis1: real)
      requires Valid() && i < |players|
      modifies players[i]
      ensures Valid() && particles == old(particles)
      ensures players[i].State() == JoyTurn(old(players[i].State()), axis0, axis1, speed)
    {
      var player := players[i];
      JoyTurnPreservesInv(player.State(), axis0, axis1, speed);
      if !player.dead {
        Steer(player, JoyVelocity(player.vel, axis0, axis1, speed));
      }
    }
  }
}
