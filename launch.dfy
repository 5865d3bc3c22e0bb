// Value-level rules of the mouse handling in the game loop: a press arms the
// aim when the striker is at rest, a release while aiming shoots the striker.

module Launch {

  /** A mouse position in window pixels. */
  type Point = (int, int)

  /** `aiming` together with `aim_start`, which is only read while aiming. */
  datatype Aim = Idle | Aiming(start: Point)

  /** The events the loop reacts to, each with the mouse position it was read at. */
  datatype Event = Quit | MouseDown(pos: Point) | MouseUp(pos: Point)

  /** What the event handling reads and writes: the aim, the striker's velocity
      and the loop's `run` flag. */
  datatype Controls = Controls(aim: Aim, vx: real, vy: real, running: bool)

  /** The loop divides the drag by this to get the striker's velocity. */
  const ShotDivisor: real := 10.0

  /** Lines 109-112: the velocity given by a drag from `start` to `end`. */
  function ShotVelocity(start: Point, end: Point): (v: (real, real))
    // pulling back launches the other way: the release point plus ten ticks of
    // the velocity lands on the press point
    ensures end.0 as real + ShotDivisor * v.0 == start.0 as real
    ensures end.1 as real + ShotDivisor * v.1 == start.1 as real
  {
    ((start.0 - end.0) as real / ShotDivisor, (start.1 - end.1) as real / ShotDivisor)
  }

  /** The striker is at rest exactly when both components are 0. */
  predicate StrikerAtRest(c: Controls)
  {
    c.vx == 0.0 && c.vy == 0.0
  }

  /** One event of lines 96-112. */
  function Handle(c: Controls, e: Event): (r: Controls)
    // only a quit event stops the loop, and it stays stopped
    ensures r.running <==> c.running && !e.Quit?
    // a press while the striker is at rest arms the aim at the press point
    ensures e.MouseDown? && StrikerAtRest(c) ==> r.aim == Aiming(e.pos)
    // nothing else arms or re-anchors the aim, and only a release disarms it
    ensures r.aim.Aiming? && r.aim != c.aim ==> e.MouseDown? && StrikerAtRest(c)
    ensures r.aim != c.aim ==> e.MouseUp? || (e.MouseDown? && StrikerAtRest(c))
    // a release always leaves the aim disarmed; while aiming it shoots
    ensures e.MouseUp? ==> r.aim == Idle
    ensures e.MouseUp? && c.aim.Aiming? ==> (r.vx, r.vy) == ShotVelocity(c.aim.start, e.pos)
    // a release without aiming changes nothing
    ensures e.MouseUp? && c.aim == Idle ==> r == c
    // the striker's velocity changes only by a shot
    ensures (r.vx, r.vy) != (c.vx, c.vy) ==> e.MouseUp? && c.aim.Aiming?
  {
    match e
    case Quit => c.(running := false)
    case MouseDown(p) => if StrikerAtRest(c) then c.(aim := Aiming(p)) else c
    case MouseUp(p) =>
      if c.aim.Aiming? then
        var v := ShotVelocity(c.aim.start, p);
        c.(aim := Idle, vx := v.0, vy := v.1)
      else c
  }

  /** The events of one frame, in the order pygame returns them. */
  function HandleAll(c: Controls, es: seq<Event>): (r: Controls)
    // the loop keeps running exactly when no quit event came
    ensures r.running <==> c.running && forall k :: 0 <= k < |es| ==> !es[k].Quit?
    // without a release the striker keeps its velocity
    ensures (forall k :: 0 <= k < |es| ==> !es[k].MouseUp?) ==> r.vx == c.vx && r.vy == c.vy
    decreases es
  {
    if es == [] then c else HandleAll(Handle(c, es[0]), es[1..])
  }

  /** Once the striker moves with the aim disarmed, no sequence of events within a
      frame arms the aim or touches its velocity: only the board can stop it. */
  lemma {:induction false} MovingStrikerIgnoresInput(c: Controls, es: seq<Event>)
    requires !StrikerAtRest(c) && c.aim == Idle
    ensures HandleAll(c, es).aim == Idle
    ensures HandleAll(c, es).vx == c.vx && HandleAll(c, es).vy == c.vy
    decreases es
  {
    if es != [] {
      MovingStrikerIgnoresInput(Handle(c, es[0]), es[1..]);
    }
  }

  /** Press at (400, 700) in one frame and release at (400, 750) in a later one shoot
      the resting striker up at 5 per tick. */
  lemma DragDownShootsUp()
    ensures var c0 := Controls(Idle, 0.0, 0.0, true);
            var c1 := HandleAll(c0, [MouseDown((400, 700))]);
            c1 == Controls(Aiming((400, 700)), 0.0, 0.0, true) &&
            HandleAll(c1, [MouseUp((400, 750))]) == Controls(Idle, 0.0, -5.0, true)
  {
    var c0 := Controls(Idle, 0.0, 0.0, true);
    var c1 := Controls(Aiming((400, 700)), 0.0, 0.0, true);
    assert HandleAll(c0, [MouseDown((400, 700))]) == HandleAll(c1, []);
    assert HandleAll(c1, [MouseUp((400, 750))]) == HandleAll(Controls(Idle, 0.0, -5.0, true), []);
  }
}
