# WeHaul: a Dafny model of the movement, collision and bookkeeping core

WeHaul is a small pygame game. The player drags boxes of cargo into a truck
before a timer runs out. The score depends on each box's value and on how full
the trailer is. This project models the part of the game that is logic rather
than drawing, and proves properties of that model:

- **Pixel-perfect collision resolver.** `check_collisions` moves a sprite by an
  integer offset. It collects the other sprites whose rects overlap the new
  rect. Then, while any of them overlaps the sprite at pixel level, it steps
  the sprite back by one pixel along the axis of the move. `move` drives it one axis
  at a time: x first, then y, skipping zero components.
- **Falling state machine.** `PhysicsMixin` probes one pixel down, enters the
  falling state when nothing holds the body, and computes the velocity from the
  clock. `Box.update` lands a falling box when its downward move is retreated.
- **Smaller state machines.** The hurt timer and kill rule of living sprites,
  particle lifetimes, the screen-shake sequence, `clamp`, `linear_conversion`
  and `off_surface`.
- **Game bookkeeping.** The countdown timer, picking boxes up and putting them
  down, the boxes inside the truck, the trailer's pixel count and its cache,
  scoring by list differences, and the final grade.

## Files and modules

| file | module | what it holds |
|---|---|---|
| `geometry.dfy` | `Geometry` | Rects with pygame's half-open overlap rule, masks as sets of opaque pixel offsets, pixel-level collision |
| `collision.dfy` | `Collision` | The resolver as functions on values: candidates, the retreat count and its termination measure, `Resolve`, `MoveResolved`, the probe, and worked examples |
| `entities.dfy` | `Entities` | `backend/systems/entities.py`: the `Sprite` class and its methods proved against `Collision`, the list helpers of `pygame.sprite`, `clamp`, `linear_conversion`, `off_surface`, `Living`, `Particle`, `shake_screen` |
| `physics.dfy` | `Physics` | `backend/systems/physics.py`: the falling state as the class `Falling`, its velocity law and the probe |
| `game.dfy` | `Game` | `extend/entities.py`: `Timer`, `Box`, `BoxController`, `Truck`, `Score` and the grade lookup |

Each class whose fields the game updates in place is a Dafny `class`. Each of
its methods is proved against a function of the old state, and the lemmas about
those functions carry the properties.

A sprite's group of obstacles is a `seq<Sprite>` with no repeated element, as a
pygame `Group` holds each sprite at most once. The code needs this. Suppose a
plain list held a sprite with an opaque pixel twice. Then `check_collisions`
would remove only one copy (`backend/systems/entities.py:80-81`), and the
sprite overlaps its own remaining copy wherever it moves (`SelfCollides`), so
the retreat loop would never end. `CheckCollisions` reads the
candidates' bodies once, before the retreat loop starts. This is exact,
because only the moving sprite changes during the loop.

### Tunnelling and retreating past the start

The resolver examines only obstacles whose rect overlaps the *destination* rect (`backend/systems/entities.py:79`). Two
consequences follow:

- A fast body passes through an obstacle that lies between its start and its
  destination. Take an 8×8 opaque body at y = 0 and an 8×8 opaque obstacle at
  y = 10:
  - moving 20 pixels down ends at y = 20 and reports "unaltered"
    (`LongDropTunnels`);
  - moving 5 pixels down ends at y = 2 and reports a retreat
    (`ShortDropStopsOnTop`).
- A body that already overlaps an obstacle at its destination can retreat past
  its own start (`RetreatPassesStart`).

## Model

| member | source | states |
|---|---|---|
| `Geometry.Rect.Shift` | backend/systems/entities.py:85 | `rect[index] += d` changes that coordinate by `d` and keeps the other coordinate and the size |
| `Geometry.Rect.Collides` | backend/systems/entities.py:79 | `colliderect`: two rects of positive size that satisfy the half-open overlap rule share a pixel, the one at the larger left edge and the larger top edge |
| `Geometry.Rect.ContainsPoint` | extend/entities.py:260 | `collidepoint`: a rect of size zero contains no point |
| `Geometry.SharedPixelCollides` | backend/systems/entities.py:79 | conversely, two rects sharing a pixel collide, in both orders |
| `Geometry.MaskCollide` | backend/systems/entities.py:83 | `collide_mask`: a pixel-level overlap needs an opaque pixel on both sides, so a sprite with an empty mask never collides |
| `Geometry.SelfCollides` | backend/systems/entities.py:80-88 | a sprite with an opaque pixel overlaps itself wherever it stands, which is why the sprite must be removed from its own collision list |
| `Geometry.Recenter` | backend/systems/entities.py:111-116 | the new rect has the new image's size and the old centre |
| `Geometry.MaskCollideNeedsRectCollide` | backend/systems/entities.py:79-83 | masks lie inside their rects, so a pixel-level overlap implies a rect overlap (both directions of `colliderect`) |
| `Geometry.MaskCollideSymmetric` | backend/systems/entities.py:83 | `collide_mask` gives the same answer whichever of the two sprites asks |
| `Collision.Candidates` | backend/systems/entities.py:79 | `spritecollide`: a body is a candidate exactly when it is an obstacle whose rect overlaps the destination rect, and there are no more candidates than obstacles |
| `Collision.CandidatesAppend` | backend/systems/entities.py:79 | filtering a concatenation gives the concatenation of the two results, so the candidates keep the group order |
| `Collision.CandidatesCounts` | backend/systems/entities.py:79 | each body occurs among the candidates exactly as often as among the obstacles when its rect overlaps the destination, and not at all otherwise |
| `Collision.Blocked` | backend/systems/entities.py:83 | only a body with an opaque pixel can be blocked |
| `Collision.RetreatStep` | backend/systems/entities.py:85 | each retreat step is one pixel, of the sign opposite to a non-zero offset |
| `Collision.Retreats` | backend/systems/entities.py:84-88 | the number of loop iterations is 0 iff the destination is not blocked, and never exceeds the largest gap between the body and a candidate along the axis (which makes the loop terminate) |
| `Collision.FirstHit` | backend/systems/entities.py:83 | `spritecollideany` with `collide_mask`: finds something exactly when some candidate overlaps at pixel level, and what it finds is the first such candidate |
| `Collision.RetreatsClear` | backend/systems/entities.py:84-88 | after the counted number of one-pixel retreats, no candidate overlaps the body |
| `Collision.RetreatsMinimal` | backend/systems/entities.py:84-88 | every position before the last one still overlaps a candidate, so the loop stops at the first free position |
| `Collision.Resolve` | backend/systems/entities.py:70-89 | the final rect keeps its size, and its coordinate on the other axis ends at start + offset |
| `Collision.ResolveFree` | backend/systems/entities.py:77-89 | when no candidate at the destination overlaps at pixel level, the rect ends at start + offset and the result is unaltered |
| `Collision.ResolveSpec` | backend/systems/entities.py:77-89 | unaltered iff the destination is not blocked iff the rect ends at the destination; the final coordinate never passes the destination in the offset's direction (a zero offset retreats toward smaller coordinates); the final position overlaps no candidate |
| `Collision.CandidatesBlock` | backend/systems/entities.py:79-83 | filtering by rect loses nothing: the candidates block the body iff some other body overlaps it at pixel level |
| `Collision.ResolveUnalteredIff` | backend/systems/entities.py:77-89 | `check_collisions` returns true iff no other body overlaps the destination at pixel level |
| `Collision.ResolveStopsAtFirstFree` | backend/systems/entities.py:84-88 | every position between the destination and the final one overlaps a candidate |
| `Collision.ResolveIgnoresObstacleAwayFromDestination` | backend/systems/entities.py:79 | adding an obstacle whose rect misses the destination rect, anywhere in the list, changes neither the final rect nor the flag |
| `Collision.MoveResolved` | backend/systems/entities.py:121-125 | `move` keeps the rect's size |
| `Collision.MoveInFreeField` | backend/systems/entities.py:121-125 | with no obstacles, `move(dx, dy)` translates the rect by `(dx, dy)` |
| `Collision.MoveZero` | backend/systems/entities.py:121-125 | `move(0, 0)` leaves the rect unchanged |
| `Collision.SupportedIff` | backend/systems/physics.py:33-37 | the probe finds support iff some other body overlaps, at pixel level, the body shifted one pixel down |
| `Collision.Supported` | backend/systems/physics.py:33-37 | a body without an opaque pixel is never supported; its meaning is stated by `SupportedIff` |
| `Collision.ShortDropStopsOnTop` | backend/systems/entities.py:70-89 | an 8×8 body at y = 0 moved 5 down onto an 8×8 obstacle at y = 10 ends at y = 2 and reports a retreat |
| `Collision.LongDropTunnels` | backend/systems/entities.py:79 | the same body moved 20 down ends at y = 20 and reports unaltered |
| `Collision.RetreatPassesStart` | backend/systems/entities.py:84-85 | a body moved 1 down into an obstacle at y = 4 ends at y = -4, above its start |
| `Entities.Sprite.constructor` | backend/systems/entities.py:58-66 | a sprite with an image has the image's rect at `(x, y)` and a mask that fits the rect |
| `Entities.Sprite.Plain` | backend/systems/entities.py:67-68 | a sprite without images has an 8×8 rect at `(x, y)` |
| `Entities.Sprite.CheckCollisions` | backend/systems/entities.py:70-89 | the new rect and the returned flag are exactly `Resolve` of the old body against the other obstacles' bodies |
| `Entities.Sprite.Retreat` | backend/systems/entities.py:83-88 | the loop takes exactly the counted number of steps, returns true iff it took none, and ends overlapping no candidate |
| `Entities.Sprite.ProbeBelow` | backend/systems/physics.py:33-39 | the rect ends where it started, and the answer is `Supported` of the body against the other obstacles |
| `Entities.Sprite.Move` | backend/systems/entities.py:121-125 | the new rect is `MoveResolved` of the old body |
| `Entities.Sprite.Rotate` | backend/systems/entities.py:110-119 | the rect takes the rotated image's size and keeps its centre; the angle is stored modulo 360, in [0, 360); the mask is replaced |
| `Entities.Overlapping` | backend/systems/entities.py:79 | `spritecollide` on sprites: the result holds exactly the group members whose rect overlaps |
| `Entities.OverlappingAppend` | backend/systems/entities.py:79 | `spritecollide` on a concatenation is the concatenation of the two results, so the group order is kept |
| `Entities.OverlappingCounts` | backend/systems/entities.py:79 | each sprite occurs in the result as often as in the group when its rect overlaps, and not at all otherwise |
| `Entities.RemoveFirst` | backend/systems/entities.py:80-81 | `list.remove` takes away one occurrence and nothing else |
| `Entities.RemoveFirstKeepsOrder` | backend/systems/entities.py:80-81 | the occurrence `list.remove` takes away is the first one, and the elements before and after it keep their order |
| `Entities.Excluding` | backend/systems/entities.py:80-81 | `if self in collisions: collisions.remove(self)`: when the sprite is among the hits exactly one copy of it goes and every other hit is kept; otherwise the hits are unchanged |
| `Entities.CollisionsAreCandidates` | backend/systems/entities.py:79-81 | after `remove(self)`, the sprite is not among the collisions, and their bodies are the candidates among the other sprites |
| `Entities.Clamp` | backend/systems/entities.py:32-34 | when `minimum <= maximum`, the result lies in the range and equals `n` when `n` is already in it; outside the range it is the nearer bound; with the bounds reversed it is `minimum` |
| `Entities.Mod360` | backend/systems/entities.py:118 | the stored angle lies in [0, 360) and is unchanged when already there |
| `Entities.Mod360Turn` | backend/systems/entities.py:118 | a full turn more gives the same stored angle |
| `Entities.Mod360Idempotent` | backend/systems/entities.py:118 | reducing twice is reducing once |
| `Entities.LinearConversion` | backend/systems/entities.py:37-39 | defined iff the old range is not empty; the value keeps its relative position, stated without division |
| `Entities.LinearConversionEnds` | backend/systems/entities.py:37-39 | the ends of the old range go to the ends of the new one |
| `Entities.LinearConversionInverse` | backend/systems/entities.py:37-39 | converting back with the ranges swapped gives the value we started from |
| `Entities.OffSurfaceHidden` | backend/systems/entities.py:127-133 | a rect reported off the surface contains no pixel of the surface |
| `Entities.OffSurface` | backend/systems/entities.py:127-133 | `off_surface` reports a rect only when none of its pixels lies on the surface |
| `Entities.OffSurfaceBoundary` | backend/systems/entities.py:127-133 | the test is not tight: a rect whose right edge is exactly 0 is not reported, although none of its pixels is on the surface |
| `Entities.HurtRecovery` | backend/systems/entities.py:186-193 | after a hit with `t` ticks left, the sprite stays hurt for `t` updates and on the next one recovers, with the count reset to the base |
| `Entities.HurtTick` | backend/systems/entities.py:187-193 | a sprite that is not hurt is left alone; while hurt, the count falls by one and stays non-negative, or, once it is 0, the hurt ends and the count is reset to the base |
| `Entities.Living.constructor` | backend/systems/entities.py:143-154 | health 1, not hurt, base hurt time 20 and the count at 20 |
| `Entities.Living.Damage` | backend/systems/entities.py:163-175 | health drops by the value, the sprite is hurt, the running count is kept, and it is removed from its groups iff health is at most 0 |
| `Entities.Living.Update` | backend/systems/entities.py:186-200 | one hurt-timer tick; killed iff already killed or health is exhausted and, when it sheds particles, no particle is left |
| `Entities.ParticleLifetime` | backend/systems/entities.py:224-234 | a particle of duration `d` lives through `d` updates and is killed by the next |
| `Entities.ParticleTick` | backend/systems/entities.py:225-234 | the particle is killed exactly when its duration is used up (or it already was); a live duration falls by one and never goes below 0 |
| `Entities.ParticleMovesFreely` | backend/systems/entities.py:224-227 | a particle has no opaque pixel, so each of its moves is applied in full |
| `Entities.Particle.constructor` | backend/systems/entities.py:208-215 | an 8×8 image-less sprite at `(x, y)` with its duration and its drawn moves |
| `Entities.Particle.Update` | backend/systems/entities.py:224-234 | the lifetime tick; while it lasts, the next move is consumed and resolved against the colliders; otherwise the particle is killed and stays put |
| `Entities.Diagonal` | backend/systems/entities.py:251-254 | `for x in range(lo, hi): yield (x*s, x*s)` produces `hi - lo` pairs (none when `hi <= lo`), pair `i` being `((lo+i)*s, (lo+i)*s)` |
| `Entities.DiagonalRun` | backend/systems/entities.py:251-252 | the loop produces exactly `Diagonal` |
| `Entities.ShakeScreen` | backend/systems/entities.py:247-255 | the generator yields exactly `(0,0), (-1,-1), (0,0), (1,1), (0,0), (-1,-1)`; `range(2, 0)` is empty |
| `Physics.StepGrounded` | backend/systems/physics.py:27-29 | not falling: the clock is forgotten and both velocities are 0 |
| `Physics.Velocity` | backend/systems/physics.py:26 | with a gravity of 10 the body gains one unit of velocity every 100 milliseconds past the start of the fall |
| `Physics.Step` | backend/systems/physics.py:20-29 | `physics_update` never changes `fall`; a falling body keeps its initial velocity and has its clock set afterwards; a body at rest has its clock and both velocities cleared |
| `Physics.StepSameClock` | backend/systems/physics.py:20-29 | a second update at the same clock changes nothing, also when the clock reads 0 and is captured again |
| `Physics.StepFalling` | backend/systems/physics.py:22-26 | falling: the first tick (clock unset or 0) captures the clock and later ticks keep it; the initial velocity is unchanged; the velocity follows the gravity law |
| `Physics.VelocityGrows` | backend/systems/physics.py:26 | with the clock at or after the start and a non-negative initial velocity, the velocity is non-negative and does not decrease as the clock advances |
| `Physics.FallingTicksAccelerate` | backend/systems/physics.py:20-26 | over two falling ticks with the clock moving forward, the velocity does not decrease |
| `Physics.Falling.constructor` | backend/systems/physics.py:12-18 | a fresh body is not falling, its clock is unset and all velocities are 0 |
| `Physics.Falling.PhysicsUpdate` | backend/systems/physics.py:20-29 | the new state is `Step` of the old state at clock `now` |
| `Physics.Falling.CheckFalling` | backend/systems/physics.py:31-39 | the rect ends where it started; `fall` becomes true iff it was true or the probe finds no support; it is never set to false |
| `Game.TimerTick` | extend/entities.py:41-51 | the time left is never negative; it is 0 exactly when the frame used up the rest; otherwise it drops by the frame's seconds |
| `Game.DivMod60` | extend/entities.py:53 | minutes × 60 + seconds is the time, with seconds in [0, 60) and minutes non-negative for non-negative time |
| `Game.CountdownTotal` | extend/entities.py:40-51 | clamping after each frame equals clamping once: the time left after a run of frames is the start less all the elapsed time, or 0 |
| `Game.Timer.constructor` | extend/entities.py:32-38 | the time starts at the maximum and the low-time warning is off |
| `Game.Timer.Update` | extend/entities.py:40-54 | the time follows `TimerTick`; the warning, once on, stays on, and it turns on when the unclamped time drops below a tenth of the maximum; the result is `None` exactly when the time is 0, and otherwise `divmod(time, 60)` |
| `Game.Trunc` | extend/entities.py:296 | a float velocity used as a pixel offset is truncated toward zero |
| `Game.FallPhaseAtRest` | extend/entities.py:293-294 | a box at rest does not move, and starts to fall iff no other body overlaps it, at pixel level, one pixel lower |
| `Game.FallPhase` | extend/entities.py:293-296 | the fall phase never moves the box sideways and keeps its size |
| `Game.FallPhaseFalling` | extend/entities.py:295-296 | a falling box lands iff some other body overlaps its destination at pixel level; while it keeps falling it moves by exactly the truncated velocity; it never moves sideways |
| `Game.ChaseReachesTarget` | extend/entities.py:311-315 | with nothing in the way, a held box ends centred on the mouse |
| `Game.Chase` | extend/entities.py:311-315 | the move toward the mouse keeps the box's size; where it ends is stated by `ChaseReachesTarget` and the resolver lemmas |
| `Game.Box.constructor` | extend/entities.py:286-290 | a new box is at rest, with the physics fields of a fresh body, not held, angle 0 |
| `Game.Box.Toggle` | extend/entities.py:308-309 | `held` flips, so toggling twice restores it |
| `Game.Box.MoveToTarget` | extend/entities.py:311-315 | the rect is moved by the difference between the target and its centre, resolved against the colliders |
| `Game.Box.Fall` | extend/entities.py:293-296 | a box at rest runs only the probe; a falling box moves down by the truncated velocity, and `fall` becomes the returned flag |
| `Game.Box.Update` | extend/entities.py:292-302 | the fall phase, then the velocity update with the new `fall`, then, only when held, the move to the mouse from where the fall phase left the box |
| `Game.FirstUnder` | extend/entities.py:259-263 | the index found is of a box whose rect contains the mouse, and no earlier box contains it; `None` only when no box does |
| `Game.InTruck` | extend/entities.py:273-276 | the list holds exactly the boxes whose rect overlaps the truck's rect |
| `Game.InTruckAppend` | extend/entities.py:273-276 | collecting the boxes of a concatenation collects each part in turn, so the boxes keep the group order |
| `Game.InTruckCounts` | extend/entities.py:273-276 | each box occurs in the result as often as in the group when its rect overlaps the truck's, and not at all otherwise |
| `Game.TotalArea` | extend/entities.py:278 | the summed `get_area()` is at least the area of each box in the list |
| `Game.BoxController.constructor` | extend/entities.py:234-236 | the group holds the boxes given, and nothing is selected |
| `Game.BoxController.Toggle` | extend/entities.py:257-266 | with nothing selected: the first box under the mouse is toggled and selected, or nothing happens; otherwise the selected box is toggled and the selection cleared; no other box changes; the invariant "held iff selected" is preserved |
| `Game.BoxController.RotateSelected` | extend/entities.py:268-270 | the selected box turns by the angle, modulo 360, about its centre; with nothing selected nothing may change |
| `Game.BoxController.AreaInTruck` | extend/entities.py:272-278 | returns the boxes overlapping the truck, in group order, and the sum of their mask areas |
| `Game.AlphaCountCounts` | extend/entities.py:224-230 | the count is the size of the set of pixels whose alpha is exactly 50 |
| `Game.AlphaCount` | extend/entities.py:224-230 | the count of alpha-50 pixels never exceeds the number of pixels in the image |
| `Game.Truck.constructor` | extend/entities.py:207-211 | a new truck has its trailer area counted |
| `Game.Truck.CountAlpha` | extend/entities.py:224-230 | the nested loop counts exactly the pixels with alpha 50 |
| `Game.Truck.SetTrailerArea` | extend/entities.py:219-230 | a truthy value is stored; `None` or 0 stores a fresh count |
| `Game.Truck.TrailerArea` | extend/entities.py:213-217 | the cache is returned when truthy; when it is `None` or 0 the area is recounted and cached |
| `Game.Difference` | extend/entities.py:77 | the comprehension keeps exactly the boxes of the first list that are not in the second |
| `Game.DifferenceAppend` | extend/entities.py:77 | the comprehension over a concatenation is the concatenation of the two results, so the boxes keep their order |
| `Game.DifferenceCounts` | extend/entities.py:77 | each box occurs in the result as often as in the first list when it is not in the second, and not at all otherwise |
| `Game.DifferenceEmpty` | extend/entities.py:77 | nothing is left when every box of the first list is in the second |
| `Game.ItemValue` | extend/entities.py:64-72 | every kind of cargo is worth between 250 and 50000, and only the dog is worth 50000 |
| `Game.Worth` | extend/entities.py:90-95 | the summed item values of `n` boxes lie between 250·n and 50000·n |
| `Game.Scale` | extend/entities.py:97 | the score times the trailer area equals the worth times the filled area |
| `Game.ScaleSign` | extend/entities.py:97 | scaling by a non-negative filled fraction keeps the worth's sign |
| `Game.ScaleNegate` | extend/entities.py:92-97 | negating the worth negates the scaled score |
| `Game.CalcScore` | extend/entities.py:89-99 | `None` (the division by zero) exactly when the trailer area is 0 |
| `Game.CalcScoreSign` | extend/entities.py:89-99 | boxes coming in never lower the score and boxes going out never raise it |
| `Game.CalcScoreRemoveUndoesAdd` | extend/entities.py:91-93 | removing boxes deducts exactly what adding them earned when the rest of the load is the same, because a removal adds their area back |
| `Game.ScoreIncrementSign` | extend/entities.py:76-85 | the increment is non-negative whenever some box came in, even if others went out in the same frame, and non-positive otherwise |
| `Game.ScoreIncrement` | extend/entities.py:76-85 | the increment is missing, for the division by zero, exactly when the trailer area is 0 |
| `Game.ScoreIncrementReorder` | extend/entities.py:75-85 | the same boxes in another order make the lists differ, yet the increment is 0, because no box came in and none went out |
| `Game.Score.constructor` | extend/entities.py:58-62 | the starting score, and no boxes seen |
| `Game.Score.UpdateScore` | extend/entities.py:101-103 | the increment is added to the score |
| `Game.Score.Update` | extend/entities.py:74-87 | the stored list becomes the boxes now in the truck; when it did not change, the score and the truck's cache are unchanged; otherwise the trailer area is read through the getter and the increment for the boxes that came in (or, when none did, went out) is added, or the update fails on an empty trailer |
| `Game.Score.Rescore` | extend/entities.py:79-85 | the changed-list branch: the new list is stored before the trailer area is read, and the score grows by the increment unless the trailer is empty |
| `Game.ClosestValue` | extend/entities.py:117-127 | the result is the greatest element strictly below `n`, or 0 when there is none |
| `Game.ClosestThreshold` | extend/entities.py:129-133 | the closest threshold below an efficiency is a key of the grade table, and names the grade of that efficiency's band |
| `Game.GetGrade` | extend/entities.py:129-133 | the grade for each band is written out: above 95 "A+", above 80 "A", … above 40 "F", otherwise "F-" (so 95 gives "A" and anything at or below 0 gives "F-") |

## Left out

- Drawing, fonts, text rendering, sound and music: `render`, `draw`, `blit`,
  `draw_selector`, `Button` and its subclasses, `ScoreBreakdown.update`, and
  the playing of the low-time music. The methods that return rendered text in
  the game return in the model the values they would render: the timer's
  minutes and seconds. The score update returns, in place of the rendered
  score, a flag that is false on the `ZeroDivisionError` path.
- `main.py` (event loop, display, restart through `RestartGameException`),
  `setup.py` (packaging) and `backend/systems/ai.py` (float steering by
  `math.hypot`). These are not part of this model.
- Image loading, scaling, `pygame.mask.from_surface` and
  `pygame.transform.rotate`. A sprite's mask is given as a set of opaque
  offsets. `Rotate` and `RotateSelected` take the rotated image's size and mask
  as parameters. The truck's alpha channel is given as an array.
- Randomness: `gaussian`, `move_random`, `BoxController.populate`, the
  particle colours and durations. A particle receives its duration and its
  list of moves as parameters.
- The clock (`pygame.time.get_ticks`), the mouse position and the
  milliseconds per frame are parameters.
- `collision_normal` and `Player.rotate_to_target`: float vector geometry.
- `Living.Damage`: swapping in the "hurt" image and spawning particles (a
  random number of them) are not modelled. The removal from the groups is
  reported as the `removed` result.
- `Living.Update`: swapping the base image back on recovery is not modelled.
  The number of particles left after their own update is a parameter.
- `Particle`: in the game a particle has no mask and no image. Overlapping a
  collider during a move would make `collide_mask` fail. The model gives a
  particle an empty mask, so its moves are never retreated
  (`ParticleMovesFreely`).
- `Geometry.Rect.Collides`: pygame 2 lets no zero-size rect collide with
  anything. The model's rule can hold for a zero-size rect, and that reaches
  `Game.InTruck` (extend/entities.py:273-276).
- `Geometry.Rect`: pygame stores rect coordinates and sizes as 32-bit
  integers. The model uses unbounded integers, so overflow is not modelled.
- Floats are modelled as exact reals: the velocity, the timer, the score and
  `linear_conversion`. Rounding is not modelled.
- `Game.Trunc`: applying a fractional `y_vel` to a pygame `Rect` is modelled as
  truncation toward zero. The retreat direction is then taken from the
  truncated value, which differs from the code only for a velocity strictly
  between -1 and 0. A box's velocity is never negative.
- `Game.CalcScore` and `Game.Score.Update`: the `ZeroDivisionError` of an empty
  trailer is a `None` result or a false flag rather than an exception. As in
  the code, the new list of boxes has already been stored when it happens.
- The cargo kinds are a datatype with one value per key of `item_values`, so
  the dictionary lookup cannot fail.
- `Collision.MoveResolved`: its own contract states only that the size is kept.
  Its behaviour is stated by `MoveInFreeField`, `MoveZero`,
  `Entities.Sprite.Move` and the `Resolve` lemmas.
- `Game.ClosestValue` treats the threshold list as a sequence in the order of
  the grade table, the order of `dict.keys()`. The result does not depend on
  that order.
