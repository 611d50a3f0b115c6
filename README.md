# Tron light-cycle round engine, in Dafny

This project models the game-state engine of `oscar-tron.py`, a two-player light-cycle
game. Each player drives a cycle that moves along one axis at a fixed speed. The cycle
leaves a trail, which is a polyline of the points where it turned plus its moving head.
Every frame, `Level.update` moves each living player. It then tests the *leading edge*
against every trail. The leading edge runs from the new position back to the trail's last
point. A hit calls `Level.crash`. That call spawns ten particles, stops the player and
marks it dead for good. `Level.handle` turns a living player when the key press or
joystick motion asks for the other axis. The turn fixes the current position as a new
trail vertex.

The project has three modules.

- `Geometry` (geometry.dfy) covers `on_segment`, `orientation`, `intersect` and
  `collision` as pure functions on exact `real` coordinates. The lemmas give the
  orientation test its geometric meaning. They also show that `intersect` is symmetric,
  ignores the direction of either segment, and has closed-segment semantics. On the
  axis-aligned segments the game produces, `intersect` decides exactly whether the two
  segments share a point.
- `Rules` (rules.dfy) states the game on values. `StepPlayer` is one iteration of
  update's player loop and `Tick` is one whole call of `update`. `KeyTurn` and `JoyTurn`
  are the two turn handlers. The lemmas state what a tick and a turn guarantee:
  - the per-player invariant is preserved;
  - dead players stay frozen;
  - the exact condition under which a player dies;
  - the exact particle count;
  - the turn rules.
- `Tron` (level.dfy) has the source's objects as classes.
  - `Player` has fields updated in place.
  - `Level` owns the two players and the particle count. `Update`, `UpdatePlayer`,
    `CheckTrail`, `Crash` and `HandleKey` carry the source's loops.
  - `Update`, `UpdatePlayer`, `Steer`, `HandleKey` and `HandleJoyAxis` are proved equal to
    `Tick`, `StepPlayer`, `Turn`, `KeyTurn` and `JoyTurn` on the state they change.
    `Crash` and `CheckTrail` state their effect directly.

The per-player invariant (`Rules.PlayerInv`) has four parts:
- the trail ends at the head;
- every trail edge is horizontal or vertical;
- a dead player has zero velocity;
- a living player moves in one of the four axis directions at the level's speed, and its
  live edge runs along that axis.

The trail always has at least two points (the `Trail` subset type).

Later revisions of the game add an arena boundary, scoring and bonuses, power-ups and a
round end in which `update` hands over to a score screen. This revision has none of them,
and the model follows it.

## Model

| member | source | states |
|---|---|---|
| Geometry.OnSegment | oscar-tron.py:40-42 | q is on (p, r) exactly when each coordinate of q lies between those of p and r, whichever endpoint comes first |
| Geometry.OnSegmentSymmetric | oscar-tron.py:40-42 | swapping the two ends of the box does not change the test |
| Geometry.OnSegmentEndpoints | oscar-tron.py:40-42 | both endpoints lie on their own segment |
| Geometry.Orientation | oscar-tron.py:48-58 | the result is one of the three codes 0, 1, 2 |
| Geometry.Cross | oscar-tron.py:49-50 | the cross product of q - p and r - q whose sign orientation reports; its meaning is given by OrientationCollinear, OrientationReversed and OrientationRotated |
| Geometry.OrientationReversed | oscar-tron.py:48-58 | reading a triple backwards swaps clockwise and counterclockwise and keeps collinear |
| Geometry.OrientationRotated | oscar-tron.py:48-58 | rotating a triple keeps its orientation |
| Geometry.OrientationFlipped | oscar-tron.py:48-58 | exchanging x and y in all three points swaps clockwise and counterclockwise |
| Geometry.OrientationCollinear | oscar-tron.py:48-58 | for p != q, orientation 0 holds exactly when r lies on the line through p and q |
| Geometry.Intersect | oscar-tron.py:62-91 | the general case plus the four collinear cases, in the source's order. Its meaning is given by IntersectAxisAligned: on axis-aligned segments, the only kind the game produces, it holds exactly when the closed segments share a point. For general segments only the one-way lemmas IntersectSharedEndpoint and IntersectProperCrossing are proved |
| Geometry.IntersectSymmetric | oscar-tron.py:62-91 | intersect(s1, s2) equals intersect(s2, s1) |
| Geometry.IntersectReversed | oscar-tron.py:62-91 | reversing either segment does not change the result |
| Geometry.IntersectTransposed | oscar-tron.py:62-91 | exchanging x and y in both segments does not change the result |
| Geometry.IntersectSharedEndpoint | oscar-tron.py:62-91 | segments sharing an endpoint intersect (closed-segment semantics) |
| Geometry.IntersectProperCrossing | oscar-tron.py:62-70 | when each segment's endpoints lie strictly on opposite sides of the other's line, the general case reports an intersection |
| Geometry.AxisAlignedCovers | oscar-tron.py:40-42 | for an axis-aligned segment, the bounding-box test holds exactly for the points p + t(q - p) with 0 <= t <= 1 |
| Geometry.CoveredParameter | oscar-tron.py:40-42 | a covered point of an axis-aligned segment has a parameter t in [0, 1] |
| Geometry.BoxesOverlapCommonPoint | oscar-tron.py:40-42 | two bounding boxes overlap exactly when some point lies in both boxes |
| Geometry.IntersectBothHorizontal | oscar-tron.py:62-91 | for two horizontal segments, intersect holds exactly when their boxes overlap |
| Geometry.IntersectCrossed | oscar-tron.py:62-91 | for a horizontal and a vertical segment, intersect holds exactly when their boxes overlap |
| Geometry.IntersectAxisAligned | oscar-tron.py:62-91 | for axis-aligned segments, intersect holds exactly when the two segments share a point |
| Geometry.Collision | oscar-tron.py:94-98 | the result is true exactly when seg intersects some edge (path[i], path[i+1]); a path of fewer than two points never collides |
| Geometry.CollisionPrefix | oscar-tron.py:94-98 | a hit on a prefix of a path is a hit on the whole path |
| Geometry.CollisionAxisAligned | oscar-tron.py:94-98 | for an axis-aligned segment and trail, a collision is exactly a geometric contact with one trail edge |
| Rules.SetLast | oscar-tron.py:173 | path[-1] = p keeps the length and every earlier point, and makes p the last point |
| Rules.DropLast2 | oscar-tron.py:170 | path[:-2] keeps the first len - 2 points (none for shorter paths) |
| Rules.KeyVelocity | oscar-tron.py:198-211 | a requested velocity is an axis direction at full speed, on the other axis than the current one; with distinct bindings, one is requested exactly when an up/down key meets horizontal motion or a left/right key meets vertical motion, and up selects (0, -speed), down (0, +speed), right (+speed, 0), left (-speed, 0) |
| Rules.JoyVelocity | oscar-tron.py:216-228 | a requested velocity is an axis direction on the other axis; one is requested exactly when axis 0 is beyond the dead zone during horizontal motion or axis 1 during vertical motion. Axis 0 below -0.1 selects (0, +speed) and above 0.1 (0, -speed); axis 1 below -0.1 selects (-speed, 0) and above 0.1 (+speed, 0) |
| Rules.Advance | oscar-tron.py:162-164 | pos + vel * dt / 1000; StepPlayerAlive states that a living player's new head is this point |
| Rules.Lead | oscar-tron.py:168-170 | the segment (new position, path[-1]) tested against every trail; TickFate and StepPlayerAlive state the death condition in its terms |
| Rules.HitsTrail | oscar-tron.py:168-171 | the if/elif test for opponent j; HitsTrailMeaning reduces it to one collision test |
| Rules.CrashCalls | oscar-tron.py:166-171 | how often crash runs while the edge loops visit the first n opponents, once per edge of each hit trail; CrashCallsPositive states when it is non-zero |
| Rules.StepCrashCalls | oscar-tron.py:159-171 | crash calls of one player's iteration, none for a dead player; StepPlayerParticles and DeathsStep give its meaning |
| Rules.StepPlayer | oscar-tron.py:159-173 | one iteration of update's player loop; it keeps the number of players. StepPlayerAlive, StepPlayerParticles, StepPlayerOthers and StepPlayerPreservesInv state what it does |
| Rules.Steps | oscar-tron.py:158-173 | the first n iterations of the player loop; it keeps the number of players. StepsUntouched, StepsSettled, StepsFreezeDead, StepsParticlesCount, StepsCrashCallsDeaths and StepsPreserveInv state what it does |
| Rules.Tick | oscar-tron.py:156-173 | one whole call of update; TickFate, TickParticles, TickFreezesDead, TickTwoPlayers and TickPreservesInv state what it does |
| Rules.Turn | oscar-tron.py:211-230 | set a requested velocity and append the head; TurnPreservesInv, KeyTurnRule and JoyTurnRule state what it does |
| Rules.KeyTurn | oscar-tron.py:198-213 | a key press for one player, nothing for a dead one; KeyTurnRule and KeyTurnPreservesInv state what it does |
| Rules.JoyTurn | oscar-tron.py:216-230 | a joystick axis motion for one player, nothing for a dead one; JoyTurnRule and JoyTurnPreservesInv state what it does |
| Rules.HitsTrailMeaning | oscar-tron.py:168-171 | for an opponent the elif adds nothing, so the test is a hit on the whole trail; for the player itself it is a hit on path[:-2] |
| Rules.CrashCallsPositive | oscar-tron.py:166-171 | crash runs at least once exactly when some visited trail is hit |
| Rules.StepPlayerAlive | oscar-tron.py:162-173 | a living player moves by vel * dt / 1000 and its trail's last point follows. It dies, with zero velocity, exactly when the leading edge hits another player's trail or its own trail without the last two points; otherwise its velocity is kept |
| Rules.StepPlayerParticles | oscar-tron.py:166-171 | one iteration adds 10 particles per crash call; crash runs exactly when a living player dies |
| Rules.StepPlayerOthers | oscar-tron.py:158-173 | an iteration changes no other player |
| Rules.AppendPreservesAligned | oscar-tron.py:211-213 | appending a point along an axis keeps the trail axis-aligned |
| Rules.StepPlayerPreservesInv | oscar-tron.py:158-173 | one iteration preserves the invariant of every player |
| Rules.StepsUntouched | oscar-tron.py:158 | players the loop has not reached yet are unchanged |
| Rules.StepsPreserveInv | oscar-tron.py:158-173 | any prefix of the player loop preserves the invariant |
| Rules.TickPreservesInv | oscar-tron.py:156-173 | update preserves the invariant of every player |
| Rules.StepsFreezeDead | oscar-tron.py:159-161 | a dead player is untouched by any prefix of the loop |
| Rules.TickFreezesDead | oscar-tron.py:159-161 | a dead player stays exactly as it is, dead with zero velocity, through update |
| Rules.StepsSettled | oscar-tron.py:158 | once its iteration is past, a player's state no longer changes during the same update |
| Rules.StepsParticlesCount | oscar-tron.py:166-171 | the particle count grows by 10 per crash call of the loop |
| Rules.StepsCrashCallsDeaths | oscar-tron.py:158-171 | some crash runs in the loop exactly when some player alive at the start is dead afterwards |
| Rules.DeathsStep | oscar-tron.py:158-171 | one iteration extends the "someone died so far" condition by exactly its own crash calls |
| Rules.TickParticles | oscar-tron.py:156-173 | update adds exactly 10 per crash call; it adds particles exactly when a player alive before it is dead after it |
| Rules.TickFate | oscar-tron.py:156-173 | a living player i is dead after update exactly when its leading edge hits an opponent's trail as left by the earlier iterations, or its own trail without the last two points |
| Rules.TickMoves | oscar-tron.py:156-173 | over a whole update a living player's head moves to pos + vel * dt / 1000, its trail's last point follows, and its velocity is kept unless it dies, when it becomes zero |
| Rules.LeadAxisAligned | oscar-tron.py:162-170 | a living player's leading edge is horizontal or vertical, so every segment the collision test sees is axis-aligned |
| Rules.TickContact | oscar-tron.py:156-173 | a living player dies in an update exactly when its leading edge shares a point with an edge of another player's trail, as the earlier iterations left it, or with an edge of its own trail without the last two points |
| Rules.TickTwoPlayers | oscar-tron.py:156-173 | with two players: player 0 dies exactly when it hits player 1's trail as it was before the update, or its own trail minus two points. Player 1 dies exactly when it hits player 0's trail as already updated, or its own trail minus two points |
| Rules.KeyTurnRule | oscar-tron.py:198-213 | with distinct bindings, a key press changes a player exactly when it is alive and the key asks for the other axis. Then the head is kept, the velocity becomes exactly the one KeyVelocity selects for the key, and the current position is appended to the trail |
| Rules.JoyTurnRule | oscar-tron.py:216-230 | an axis motion changes a player exactly when it is alive and an axis beyond the dead zone asks for the other axis. Then the head is kept, the velocity becomes exactly the one JoyVelocity selects for the readings, and the current position is appended |
| Rules.TurnPreservesInv | oscar-tron.py:211-213 | setting an axis velocity and appending the head keeps the invariant |
| Rules.KeyTurnPreservesInv | oscar-tron.py:198-213 | a key press keeps every player's invariant |
| Rules.JoyTurnPreservesInv | oscar-tron.py:216-230 | a joystick motion keeps the player's invariant |
| Rules.AliveVelocity | oscar-tron.py:198-213 | a living player moves along exactly one axis, at plus or minus the speed |
| Rules.DoubleTurnThenTickCrashes | oscar-tron.py:166-173 | two accepted turns before a tick put the head into the trail twice, and the player dies in its next iteration whatever the velocities |
| Tron.Player.constructor | oscar-tron.py:113-122 | a new player sits at its start, with the given velocity and bindings, alive, and a trail of two copies of the start |
| Tron.Level.constructor | oscar-tron.py:126-135 | speed is height * 0.1. Player 0 (A, D, W, S) starts at (w/2, h/5) moving down; player 1 (arrows) starts at (w/2, 4h/5) moving up. Both are alive with two-point trails, there are no particles, and the invariant holds |
| Tron.Level.Crash | oscar-tron.py:185-193 | ten particles more; the player is dead with zero velocity |
| Tron.Level.CheckTrail | oscar-tron.py:167-171 | for each edge of the opponent's trail the test runs once. A hit adds 10 particles per edge, kills the player and zeroes its velocity; otherwise nothing changes |
| Tron.Level.UpdatePlayer | oscar-tron.py:158-173 | the new players and particle count are exactly StepPlayer of the old ones |
| Tron.Level.Update | oscar-tron.py:156-173 | the new players and particle count are exactly Tick of the old ones, and the invariant is kept |
| Tron.Level.Steer | oscar-tron.py:211-213 | if a velocity is requested, it is set and the current position is appended to the trail |
| Tron.Level.HandleKey | oscar-tron.py:198-213 | every player becomes exactly KeyTurn of its old state under its own bindings; particles and the invariant are kept |
| Tron.Level.HandleJoyAxis | oscar-tron.py:216-230 | the player becomes exactly JoyTurn of its old state for the two axis readings; particles and the invariant are kept |

## Left out

- Rendering is not modelled. This covers `write`, `draw`, the bitmap font, colours, and the alpha fade of a dead player's colour (oscar-tron.py:160), which has no effect on the game state.
- Particles are modelled only by their count. Their start position, jittered velocity (`jitter` uses `random`), motion, decay and heat (oscar-tron.py:101-110, 175-182) have no effect on the players.
- `Level.__init__`'s joystick table (oscar-tron.py:137-140) reads hardware and is left out. `HandleJoyAxis` takes the index of the player the table would select, plus that joystick's two axis readings, as parameters.
- The `JOYBUTTONDOWN` branch of handle (oscar-tron.py:214-215) only performs a lookup. An unknown joystick id makes the lookup raise `KeyError` there and in the axis branch; `HandleJoyAxis` requires a valid player index instead.
- Key codes are the `Key` datatype. Only the eight bound keys are told apart, instead of pygame's numeric codes. Other event types leave the level unchanged and are not modelled.
- Geometry.Intersect: "holds exactly when the closed segments share a point" is proved only for axis-aligned segments, the only kind the game produces. For general segments the model proves only that a shared endpoint or a proper crossing implies an intersection.
- Coordinates, speed and axis readings are exact reals. Floating-point rounding, including in the exact-zero collinearity test, is not modelled.
- `delta_time` is an integer number of milliseconds, as the clock supplies it.
- `Player.score`, `Player.col` and `Player.joystick` are not modelled. The score is never changed in this revision.
- `TronGame` and `main` are not modelled: the window, the event loop, the clock and the phase replacement. Neither are test.py and font-gen.py.
