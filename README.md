# Carom prototype physics in Dafny

A model of the physics step of a small carrom game written with pygame
(`carom.py`). Each coin is a disc with a position, a velocity, a radius, a
colour and a unit mass. Every frame, the game loop does three things in order:

1. It handles the mouse. A press arms the aim if the striker is at rest. A
   release while aiming shoots the striker with a tenth of the drag vector,
   pointing from the release point back towards the press point.
2. It moves every coin in list order. A move advances the position by the
   velocity, applies friction of 0.99, snaps small velocity components to 0 and
   bounces off the 800×800 walls.
3. It collides every unordered pair of coins `i < j` in ascending order with an
   elastic impulse along the line of centres.

The project has four modules:

- `Physics` (physics.dfy) holds the rules for one coin and for one pair, as
  functions on a value `Body`. The lemmas cover friction, snapping, the bounce,
  the no-op cases of a collision, momentum, energy, and the direction of the
  impulse.
- `Table` (table.dfy) holds one frame as a value-level function `Tick`. It fixes
  the order in which pairs are visited, and its lemmas cover the collision phase
  and a board at rest.
- `Launch` (launch.dfy) holds the mouse handling as a function of the event and
  its mouse position.
- `Carom` (carom.dfy) holds the program's own mutable state:
  - class `Coin`, with fields that `Move` and `Collide` update in place;
  - class `Game`, with the coin list, the striker, the aim and the loop flag.
    Its loops are proved equal to the value-level functions above.

Floating point is modelled as `real`. `math.hypot` is not computed. The overlap
test `hypot(dx, dy) < r1 + r2` is decided on squared distances. The normal
`(dx, dy) / dist` enters the impulse twice, so the velocity change is written as
`k * (dx, dy)` with `k = 2 * closing / ((m1 + m2) * dist²)`. The function
`Physics.CollideWithHypot` transcribes the source literally, with `dist` taken
as an argument. The lemma `Physics.HypotFormAgrees` proves that it agrees with
`Physics.Collide` for every non-negative `dist` whose square is `dx² + dy²`.

Python raises `ZeroDivisionError` in one case: two discs overlap and their
centres coincide. This also covers a coin collided with itself. A zero sum of
masses would raise too, but it cannot happen with the source's unit masses. The
exception is modelled as the outcome `DivisionByZero`, or `ok == false` in the
methods, not as a precondition. The source raises before touching either coin,
so a failing `Collide` changes nothing. A failing frame keeps the collisions
made before the failing pair, and the program stops there.

Two points where the code does something other than what it appears to intend
are modelled as written:

- At line 64 the collision is skipped when `dot > 0`, where
  `dot = (v_self - v_other) · n` and `n` points from `self` to `other`. A positive
  `dot` means the discs are approaching, so the code skips exactly the pairs its
  comment says it bounces. It applies the impulse to pairs that are moving apart
  or are at rest relative to each other.
  - `Physics.ApproachingPairUntouched` shows this on two overlapping discs that
    approach head-on: neither velocity changes.
  - `Physics.SeparatingPairSwapped` shows the same two discs moving apart: their
    velocities are swapped, which turns them back towards each other.
- The wall bounce (lines 42-45) only negates the velocity. It does not clamp the
  position, and it does not check that the coin is still moving outwards. A coin
  that is still outside the wall on the next tick is negated again.

## Model

| member | source | states |
|---|---|---|
| Physics.Damp | carom.py:34-40 | friction then the stop threshold: the result is 0 exactly when 0.99·v is below 0.05 in magnitude, and is 0.99·v otherwise; it is never larger in magnitude than v |
| Physics.MoveAxis | carom.py:30-45 | on one axis the position advances by the velocity held before the call; the new velocity is 0 or at least 0.05 in magnitude, never larger than before, equal in magnitude to the damped velocity, and reverses direction exactly when the disc pokes past 0 or the wall; a resting axis stays put |
| Physics.Move | carom.py:30-45 | Coin.move on both axes: x and y advance by the old velocity; radius and mass are unchanged; each new velocity component has the magnitude of Damp of the old one (0.99 times it, or 0 below 0.05), so it never grows; vx (vy) flips sign exactly when x (y) pokes past a wall of the 800×800 board; a coin at rest is left exactly as it is |
| Physics.Collide | carom.py:47-72 | Coin.collide: it fails (ZeroDivisionError) exactly when the discs overlap and coincide, or would need a zero mass sum; it changes nothing when the discs do not overlap or when dot > 0; it never changes a position, radius or mass |
| Physics.CollideWithHypot | carom.py:47-72 | Coin.collide as written, given hypot as dist: discs at least r1 + r2 apart are left alone; overlapping discs with dist 0 raise ZeroDivisionError, and only overlapping ones can; a successful call changes only velocities and keeps the pair's momentum on each axis |
| Physics.CollideAlong | carom.py:57-72 | once the normal is known: dot > 0 leaves the pair alone; ZeroDivisionError exactly when dot ≤ 0 and the masses sum to 0; only velocities change, and only along (nx, ny); momentum is kept |
| Physics.CollideAlongReverses | carom.py:61-72 | along a unit normal, a pair with dot ≤ 0 that collides without error leaves with relative normal speed −dot |
| Physics.Impulse | carom.py:68-72 | the four velocity updates are equal and opposite: the pair's momentum is kept on each axis, each velocity changes only along (nx, ny), positions, radii and masses do not change, and the relative normal speed drops by impulse·(m1+m2)·(nx²+ny²) |
| Physics.ImpulseOverDist | carom.py:68 | the source's impulse 2·dot/(m1+m2) equals k·dist, where k is the sqrt-free kick size solving k·(m1+m2)·dist² = 2·dot·dist |
| Physics.LessBySquares | carom.py:50-51 | for a non-negative distance, dist < r1 + r2 holds exactly when r1 + r2 > 0 and dist² < (r1 + r2)² |
| Physics.HypotFormAgrees | carom.py:47-72 | for every non-negative dist with dist² = dx² + dy² (what math.hypot returns), the literal transcription with the unit normal (dx/dist, dy/dist) computes the same outcome as Collide |
| Physics.AlongAgrees | carom.py:53-72 | with the normal (dx, dy)/dist, the dot product, the guard and the impulse of the source agree with Collide's sqrt-free form |
| Physics.CollideConservesMomentum | carom.py:68-72 | a successful collide keeps m1·vx1 + m2·vx2 and m1·vy1 + m2·vy2 |
| Physics.CollideAlongNormal | carom.py:53-54 | each coin's velocity change is parallel to the centre-to-centre line (cross product with (dx, dy) is 0) |
| Physics.ImpulseReversesClosing | carom.py:61-72 | when the impulse is applied, the normal component of the relative velocity is exactly negated |
| Physics.KickEnergyChange | carom.py:68-72 | twice the kinetic energy a kick of size k adds is k·m1·m2·(k·(m1+m2)·dist² − 2·closing) |
| Physics.CollideConservesEnergy | carom.py:68-72 | collide is elastic: whenever it succeeds the pair's kinetic energy is unchanged |
| Physics.ApproachingPairUntouched | carom.py:61-65 | two overlapping discs of radius 10 and unit mass at (100,100) and (115,100), the first moving right at 5, are left unchanged because dot > 0 |
| Physics.SeparatingPairSwapped | carom.py:61-72 | the same pair with the first disc moving left at 5 gets the impulse: the x-velocities become 0 and −5 |
| Table.Row | carom.py:121-122 | the inner loop for a fixed i only visits pairs (i, j') with j ≤ j' < n |
| Table.PairsFrom | carom.py:120-122 | the outer loop from i only visits valid pairs p.0 < p.1 < n with i ≤ p.0 |
| Table.RowEnumerates | carom.py:121-122 | the inner loop for i visits exactly the pairs (i, j'), j ≤ j' < n, in ascending order |
| Table.PairsFromEnumerates | carom.py:120-122 | the outer loop from i visits exactly the pairs with i ≤ p.0 < p.1 < n, in ascending order |
| Table.Pairs | carom.py:120-122 | collide is called exactly once for each index pair i < j < n, in strictly ascending (i, j) order |
| Table.CollideSeq | carom.py:120-122 | colliding a sequence of pairs keeps the number of coins and never changes a position, radius or mass |
| Table.CollideSeqAppend | carom.py:120-122 | colliding xs then ys is colliding xs + ys, and a ZeroDivisionError in xs ends the frame |
| Table.MoveAll | carom.py:115-116 | the move loop keeps the number of coins; every coin advances by its old velocity with radius and mass unchanged, no velocity grows in magnitude, and a coin at rest stays exactly as it is |
| Table.Tick | carom.py:115-122 | after a frame every coin sits at its old position plus its old velocity with its radius and mass unchanged; collisions only change velocities |
| Table.CollideSeqConservesMomentum | carom.py:120-122 | the collision phase keeps the total momentum of the board on each axis |
| Table.TickCollisionsConserveMomentum | carom.py:115-122 | the total momentum after a frame equals the total after the move phase |
| Table.CollideAtRest | carom.py:61-72 | a pair at rest is never pushed: collide either changes nothing or raises ZeroDivisionError, which needs coincident centres or a zero mass sum |
| Table.TickAtRest | carom.py:115-122 | a board at rest stays exactly as it is whenever the frame does not raise ZeroDivisionError |
| Table.CollideSeqApart | carom.py:51 | on a board where no two coins overlap, every pair is skipped and the collision phase changes nothing |
| Table.TickApartAtRest | carom.py:115-122 | a board at rest with no two coins overlapping is a fixed point of the frame |
| Table.OpeningLayoutIsStill | carom.py:75-83 | the opening layout, with three touching coins and the striker, does not move by itself |
| Launch.ShotVelocity | carom.py:109-112 | the release point plus ten times the launch velocity is the press point: the striker goes opposite to the drag, at a tenth of its length per tick |
| Launch.Handle | carom.py:96-112 | only QUIT clears run; a press with the striker at rest arms the aim at the press point, and nothing else arms or moves the aim; a release always disarms, and nothing else disarms it; a release while aiming sets the shot velocity; a release without aiming changes nothing; the striker's velocity changes only by a release while aiming |
| Launch.HandleAll | carom.py:96-112 | the events of one frame in order: the loop keeps running exactly when none of them is QUIT, and without a release the striker's velocity is unchanged |
| Launch.MovingStrikerIgnoresInput | carom.py:100-112 | while the striker moves and the aim is disarmed, no sequence of events arms the aim or changes the striker's velocity |
| Launch.DragDownShootsUp | carom.py:100-112 | a press at (400,700) in one frame arms the aim there, and a release at (400,750) in a later frame shoots the resting striker with velocity (0, −5) |
| Carom.Coin.constructor | carom.py:18-25 | a new coin is at rest at the given position with the given radius and colour and unit mass |
| Carom.Coin.Move | carom.py:30-45 | the in-place update leaves the coin equal to Physics.Move of its old state |
| Carom.Coin.Collide | carom.py:47-72 | the in-place update leaves both coins equal to Physics.Collide of their old states; on ZeroDivisionError (ok false) neither coin changes |
| Carom.Coin.Push | carom.py:69-72 | the four field updates apply the impulse along (dx, dy) to both coins |
| Carom.Game.constructor | carom.py:74-89 | the striker at (400, 700) with radius 20, then three radius-15 coins at (400,300), (430,300), (370,300), all at rest; not aiming; running |
| Carom.Game.HandleEvent | carom.py:96-112 | the aim, the striker's velocity and the run flag after one event are Launch.Handle of those before it; the striker's position is unchanged |
| Carom.Game.MoveCoins | carom.py:115-116 | after the loop every coin holds Physics.Move of its old state |
| Carom.Game.CollideRow | carom.py:121-122 | the inner loop for one i computes the collision of the pairs (i, i+1) … (i, n−1), or reports the ZeroDivisionError |
| Carom.Game.CollideCoins | carom.py:120-122 | the nested loop computes the collision of all pairs in ascending order, or reports the ZeroDivisionError |
| Carom.Game.Step | carom.py:115-122 | the board after the move loop and the collision loop is Table.Tick of the board before them, and ok reports whether Tick succeeds |
| Carom.Game.Frame | carom.py:92-122 | one pass of the game loop: the events of the frame in order, then one step, applied to the board with the striker's launch velocity |

## Left out

- Window setup, `draw`, the aiming line, `display.update` and the clock (lines 1-15, 27-28, 93-94, 124-131): these are rendering and timing, and they have no effect on the state.
- Event polling and `pygame.mouse.get_pos()`: each event arrives as a value that carries the mouse position read for it. In the program every `get_pos()` within one pass of the event loop reads the same cursor, since nothing pumps events inside the loop, so a press and a release handled in the same frame shoot with velocity 0. The model does not tie the positions of one frame's events together, so `Launch.HandleAll` and `Carom.Game.Frame` also admit frames whose events carry different positions.
- The `shoot_vec` variable (line 86): it is never read.
- IEEE floating-point rounding and the int/float distinction: all quantities are `real`. For example, the source's `vx = 0` stores an int and `vx *= -1` on 0.0 gives −0.0; neither makes a difference in `real`.
- `math.hypot` as a concrete square root: it is abstracted as described above.
- Physics.Collide: the overlap test is stated on squared distances, so it agrees with `hypot(dx, dy) < r1 + r2` only when `hypot` is an exact square root; `Physics.HypotFormAgrees` covers every exact root, and rounding is not modelled.
- Carom.Game.Step: when a frame fails with ZeroDivisionError, the contract says only that it failed. The coins' partial state at that point, with the collisions before the failing pair applied, is not stated, because the program ends there.
- Pockets, captures, scores, turn phases, speed caps and positional separation: the source has none of them.
