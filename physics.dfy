// Value-level rules of one carrom coin: the per-tick move (friction, stop
// threshold, wall bounce) and the pairwise elastic collision.

module Physics {

  /** Board size in pixels (WIDTH, HEIGHT). */
  const Width: real := 800.0
  const Height: real := 800.0

  /** Velocity factor applied once per tick. */
  const Friction: real := 0.99

  /** A velocity component whose magnitude falls below this after friction is set to 0. */
  const StopSpeed: real := 0.05

  /** The result of an operation that may divide by zero (Python's ZeroDivisionError). */
  datatype Outcome<T> = Ok(value: T) | DivisionByZero

  /** A snapshot of the mutable and physical state of one coin. */
  datatype Body = Body(x: real, y: real, vx: real, vy: real, radius: real, mass: real)

  function Abs(v: real): real
  {
    if v < 0.0 then -v else v
  }

  /** The disc pokes out past the wall at 0 or at `limit` on this axis. */
  predicate Outside(p: real, radius: real, limit: real)
  {
    p - radius < 0.0 || p + radius > limit
  }

  /** Friction, then the stop threshold. */
  function Damp(v: real): (r: real)
    ensures r == 0.0 || r == Friction * v
    ensures r == 0.0 || Abs(r) >= StopSpeed
    // 0.99 * v survives exactly when it is at least the threshold in magnitude
    ensures r == 0.0 <==> Abs(Friction * v) < StopSpeed
    ensures Abs(Friction * v) >= StopSpeed ==> r == Friction * v
    ensures Abs(r) <= Abs(v)
  {
    var f := Friction * v;
    if Abs(f) < StopSpeed then 0.0 else f
  }

  /** One axis of Coin.move: new position and the velocity for the next tick. */
  function MoveAxis(p: real, v: real, radius: real, limit: real): (r: (real, real))
    // the position advances by the velocity held before the call
    ensures r.0 == p + v
    // friction, snapping and bounce only touch the velocity, whose magnitude is
    // either 0 or at least the stop threshold, and never grows
    ensures r.1 == 0.0 || Abs(r.1) >= StopSpeed
    ensures Abs(r.1) <= Abs(v)
    ensures Abs(r.1) == Abs(Damp(v))
    // the coin reverses direction exactly when it pokes out past a wall
    ensures r.1 != 0.0 ==> ((r.1 > 0.0) != (v > 0.0) <==> Outside(r.0, radius, limit))
    ensures v == 0.0 ==> r == (p, 0.0)
  {
    var p' := p + v;
    var d := Damp(v);
    (p', if Outside(p', radius, limit) then -d else d)
  }

  /** Coin.move on a snapshot. */
  function Move(b: Body): (r: Body)
    ensures r.x == b.x + b.vx && r.y == b.y + b.vy
    ensures r.radius == b.radius && r.mass == b.mass
    ensures r.vx == 0.0 || Abs(r.vx) >= StopSpeed
    ensures r.vy == 0.0 || Abs(r.vy) >= StopSpeed
    ensures Abs(r.vx) <= Abs(b.vx) && Abs(r.vy) <= Abs(b.vy)
    // friction and the threshold fix the magnitude, the walls fix the sign
    ensures Abs(r.vx) == Abs(Damp(b.vx)) && Abs(r.vy) == Abs(Damp(b.vy))
    ensures r.vx != 0.0 ==> ((r.vx > 0.0) != (b.vx > 0.0) <==> Outside(r.x, b.radius, Width))
    ensures r.vy != 0.0 ==> ((r.vy > 0.0) != (b.vy > 0.0) <==> Outside(r.y, b.radius, Height))
    ensures b.vx == 0.0 && b.vy == 0.0 ==> r == b
  {
    var (x, vx) := MoveAxis(b.x, b.vx, b.radius, Width);
    var (y, vy) := MoveAxis(b.y, b.vy, b.radius, Height);
    b.(x := x, y := y, vx := vx, vy := vy)
  }

  /** Square of the centre-to-centre distance. */
  function DistSq(a: Body, b: Body): real
  {
    (b.x - a.x) * (b.x - a.x) + (b.y - a.y) * (b.y - a.y)
  }

  /** `hypot(dx, dy) < a.radius + b.radius`, stated without the square root. */
  predicate Overlap(a: Body, b: Body)
  {
    var reach := a.radius + b.radius;
    0.0 < reach && DistSq(a, b) < reach * reach
  }

  /** The relative velocity a - b dotted with the displacement b - a: the source's
      `dot` multiplied by the distance, so it has the same sign. */
  function Closing(a: Body, b: Body): real
  {
    (a.vx - b.vx) * (b.x - a.x) + (a.vy - b.vy) * (b.y - a.y)
  }

  /** Only the velocity of `b'` may differ from `b`. */
  predicate SameButVelocity(b: Body, b': Body)
  {
    b' == b.(vx := b'.vx, vy := b'.vy)
  }

  /** Does Coin.collide raise ZeroDivisionError on this pair? */
  predicate Diverges(a: Body, b: Body)
  {
    Overlap(a, b) && (DistSq(a, b) == 0.0 || (Closing(a, b) <= 0.0 && a.mass + b.mass == 0.0))
  }

  /** The velocity exchange of Coin.collide, lines 68-72, with the factor
      `impulse / dist` written as `k`: each velocity moves along the line of centres. */
  function Kick(a: Body, b: Body, k: real): (Body, Body)
  {
    Impulse(a, b, k, b.x - a.x, b.y - a.y)
  }

  /** Collide spelled out on the quantities Coin.collide computes, in the order it
      computes them. */
  lemma CollideByParts(a: Body, b: Body, dx: real, dy: real, distSq: real, reach: real,
                       closing: real, m: real)
    requires dx == b.x - a.x && dy == b.y - a.y && distSq == dx * dx + dy * dy
    requires reach == a.radius + b.radius && m == a.mass + b.mass
    requires closing == (a.vx - b.vx) * dx + (a.vy - b.vy) * dy
    ensures Collide(a, b) ==
      if !(0.0 < reach && distSq < reach * reach) then Ok((a, b))
      else if distSq == 0.0 then DivisionByZero
      else if closing > 0.0 then Ok((a, b))
      else if m == 0.0 then DivisionByZero
      else Ok(Impulse(a, b, 2.0 * closing / (m * distSq), dx, dy))
  {
    assert distSq == DistSq(a, b) && closing == Closing(a, b);
    if Overlap(a, b) && distSq != 0.0 && closing <= 0.0 && m != 0.0 {
      NonzeroProduct(m, distSq);
      KickSizeIs(a, b, closing, m, distSq);
      assert Collide(a, b) == Ok(Kick(a, b, KickSize(a, b)));
    }
  }

  /** KickSize on the quantities Coin.collide computes. */
  lemma KickSizeIs(a: Body, b: Body, closing: real, m: real, distSq: real)
    requires closing == Closing(a, b) && m == a.mass + b.mass && distSq == DistSq(a, b)
    requires m * distSq != 0.0
    ensures KickSize(a, b) == 2.0 * closing / (m * distSq)
  {
  }

  /** `2 * dot / (m1 + m2)` divided by `dist`, which is `2 * Closing / ((m1 + m2) * dist^2)`. */
  function KickSize(a: Body, b: Body): (k: real)
    ensures (a.mass + b.mass) * DistSq(a, b) != 0.0 ==>
            k * ((a.mass + b.mass) * DistSq(a, b)) == 2.0 * Closing(a, b)
  {
    var den := (a.mass + b.mass) * DistSq(a, b);
    if den == 0.0 then 0.0 else 2.0 * Closing(a, b) / den
  }

  /** Coin.collide on snapshots of `self` (a) and `other` (b). The source's normal
      n = d / |d| enters twice, so each velocity change is a multiple of d / |d|^2. */
  function Collide(a: Body, b: Body): (r: Outcome<(Body, Body)>)
    ensures r.DivisionByZero? <==> Diverges(a, b)
    // no change when the discs do not overlap or when `dot > 0`
    ensures !Overlap(a, b) ==> r == Ok((a, b))
    ensures DistSq(a, b) != 0.0 && Closing(a, b) > 0.0 ==> r == Ok((a, b))
    // positions, radii and masses never change
    ensures r.Ok? ==> SameButVelocity(a, r.value.0) && SameButVelocity(b, r.value.1)
  {
    if !Overlap(a, b) then Ok((a, b))
    else if DistSq(a, b) == 0.0 then DivisionByZero
    else if Closing(a, b) > 0.0 then Ok((a, b))
    else if a.mass + b.mass == 0.0 then DivisionByZero
    else Ok(Kick(a, b, KickSize(a, b)))
  }

  /** When Collide exchanges velocity, it is a Kick whose size satisfies the impulse equation. */
  lemma CollideKicks(a: Body, b: Body)
    requires Overlap(a, b) && !Diverges(a, b) && Closing(a, b) <= 0.0
    ensures Collide(a, b) == Ok(Kick(a, b, KickSize(a, b)))
    ensures KickSize(a, b) * ((a.mass + b.mass) * DistSq(a, b)) == 2.0 * Closing(a, b)
  {
    var m, d2 := a.mass + b.mass, DistSq(a, b);
    assert m != 0.0 && d2 != 0.0;
    NonzeroProduct(m, d2);
  }

  /** Coin.collide as written, with `math.hypot(dx, dy)` supplied as `dist`. */
  function CollideWithHypot(a: Body, b: Body, dist: real): (r: Outcome<(Body, Body)>)
    requires 0.0 <= dist && dist * dist == DistSq(a, b)
    // apart discs are left alone; overlapping coincident centres divide by zero
    ensures !(dist < a.radius + b.radius) ==> r == Ok((a, b))
    ensures dist < a.radius + b.radius && dist == 0.0 ==> r == DivisionByZero
    ensures r.DivisionByZero? ==> dist < a.radius + b.radius
    // only velocities change, and the pair's momentum is kept
    ensures r.Ok? ==> SameButVelocity(a, r.value.0) && SameButVelocity(b, r.value.1)
    ensures r.Ok? ==> MomentumX(r.value.0, r.value.1) == MomentumX(a, b) &&
                      MomentumY(r.value.0, r.value.1) == MomentumY(a, b)
  {
    var dx, dy := b.x - a.x, b.y - a.y;
    if dist < a.radius + b.radius then
      if dist == 0.0 then DivisionByZero
      else CollideAlong(a, b, dx / dist, dy / dist)
    else Ok((a, b))
  }

  /** Line 59 of Coin.collide: the relative velocity a - b along the normal (nx, ny). */
  function NormalSpeed(a: Body, b: Body, nx: real, ny: real): real
  {
    (a.vx - b.vx) * nx + (a.vy - b.vy) * ny
  }

  /** Lines 57-72 of Coin.collide, once the normal (nx, ny) is known. */
  function CollideAlong(a: Body, b: Body, nx: real, ny: real): (r: Outcome<(Body, Body)>)
    // `dot > 0` leaves the pair alone; otherwise only a zero mass sum divides by zero
    ensures NormalSpeed(a, b, nx, ny) > 0.0 ==> r == Ok((a, b))
    ensures r.DivisionByZero? <==> NormalSpeed(a, b, nx, ny) <= 0.0 && a.mass + b.mass == 0.0
    ensures r.Ok? ==> SameButVelocity(a, r.value.0) && SameButVelocity(b, r.value.1)
    ensures r.Ok? ==> MomentumX(r.value.0, r.value.1) == MomentumX(a, b) &&
                      MomentumY(r.value.0, r.value.1) == MomentumY(a, b)
    // each velocity changes only along the normal
    ensures r.Ok? ==> (r.value.0.vx - a.vx) * ny == (r.value.0.vy - a.vy) * nx &&
                      (r.value.1.vx - b.vx) * ny == (r.value.1.vy - b.vy) * nx
  {
    var dot := NormalSpeed(a, b, nx, ny);
    if dot > 0.0 then Ok((a, b))
    else if a.mass + b.mass == 0.0 then DivisionByZero
    else
      var impulse := 2.0 * dot / (a.mass + b.mass);
      Ok(Impulse(a, b, impulse, nx, ny))
  }

  /** Lines 69-72 of Coin.collide: the impulse applied along the unit normal. */
  function Impulse(a: Body, b: Body, impulse: real, nx: real, ny: real): (r: (Body, Body))
    // equal and opposite: the momentum of the pair is kept on each axis
    ensures MomentumX(r.0, r.1) == MomentumX(a, b) && MomentumY(r.0, r.1) == MomentumY(a, b)
    ensures SameButVelocity(a, r.0) && SameButVelocity(b, r.1)
    // each velocity changes only along (nx, ny)
    ensures (r.0.vx - a.vx) * ny == (r.0.vy - a.vy) * nx && (r.1.vx - b.vx) * ny == (r.1.vy - b.vy) * nx
    // the relative normal speed drops by impulse * (m1 + m2) * |n|^2
    ensures NormalSpeed(r.0, r.1, nx, ny) ==
            NormalSpeed(a, b, nx, ny) - impulse * (a.mass + b.mass) * (nx * nx + ny * ny)
  {
    (a.(vx := a.vx - impulse * b.mass * nx, vy := a.vy - impulse * b.mass * ny),
     b.(vx := b.vx + impulse * a.mass * nx, vy := b.vy + impulse * a.mass * ny))
  }

  /** Along a unit normal, the impulse of lines 68-72 negates the relative normal
      speed of line 61: a pair with dot <= 0 leaves with -dot. */
  lemma CollideAlongReverses(a: Body, b: Body, nx: real, ny: real)
    requires nx * nx + ny * ny == 1.0 && NormalSpeed(a, b, nx, ny) <= 0.0
    requires CollideAlong(a, b, nx, ny).Ok?
    ensures var (a', b') := CollideAlong(a, b, nx, ny).value;
            NormalSpeed(a', b', nx, ny) == -NormalSpeed(a, b, nx, ny)
  {
    var dot, m := NormalSpeed(a, b, nx, ny), a.mass + b.mass;
    var impulse := AlongImpulse(a, b, nx, ny);
    var r := Impulse(a, b, impulse, nx, ny);
    ImpulseCancels(dot, NormalSpeed(r.0, r.1, nx, ny), impulse, m, nx * nx + ny * ny);
  }

  /** When CollideAlong applies the impulse, it is the source's 2 * dot / (m1 + m2). */
  lemma AlongImpulse(a: Body, b: Body, nx: real, ny: real) returns (impulse: real)
    requires NormalSpeed(a, b, nx, ny) <= 0.0 && CollideAlong(a, b, nx, ny).Ok?
    ensures a.mass + b.mass != 0.0 && impulse == 2.0 * NormalSpeed(a, b, nx, ny) / (a.mass + b.mass)
    ensures CollideAlong(a, b, nx, ny) == Ok(Impulse(a, b, impulse, nx, ny))
  {
    impulse := 2.0 * NormalSpeed(a, b, nx, ny) / (a.mass + b.mass);
  }

  /** With impulse = 2 * dot / m along a unit normal, the normal speed drops by 2 * dot. */
  lemma ImpulseCancels(dot: real, dot': real, impulse: real, m: real, unit: real)
    requires m != 0.0 && impulse == 2.0 * dot / m
    requires dot' == dot - impulse * m * unit
    ensures unit == 1.0 ==> dot' == -dot
  {
    assert impulse * m == 2.0 * dot;
  }

  /** For 0 <= dist, `dist < reach` exactly when `dist * dist < reach * reach` with 0 < reach. */
  lemma LessBySquares(dist: real, reach: real)
    requires 0.0 <= dist
    ensures dist < reach <==> 0.0 < reach && dist * dist < reach * reach
  {
    if dist < reach {
      SquareLess(dist, reach);
    } else if 0.0 < reach {
      SquareLess(reach, dist);
      assert reach * reach <= dist * dist;
    }
  }

  /** Squaring is monotone on the non-negative reals. */
  lemma SquareLess(u: real, v: real)
    requires 0.0 <= u <= v
    ensures u * u <= v * v
    ensures u < v ==> u * u < v * v
  {
    assert v * v - u * u == (v - u) * (v + u);
    ProductSign(v - u, v + u);
  }

  lemma ProductSign(p: real, q: real)
    requires 0.0 <= p && 0.0 <= q
    ensures 0.0 <= p * q
    ensures 0.0 < p && 0.0 < q ==> 0.0 < p * q
  {
  }

  lemma NonzeroProduct(u: real, v: real)
    requires u != 0.0 && v != 0.0
    ensures u * v != 0.0
  {
    assert u * v / v == u;
  }

  /** The square-root-free Collide computes what the source computes, for every
      value of `math.hypot` (any non-negative root of the squared distance). */
  lemma HypotFormAgrees(a: Body, b: Body, dist: real)
    requires 0.0 <= dist && dist * dist == DistSq(a, b)
    ensures CollideWithHypot(a, b, dist) == Collide(a, b)
  {
    LessBySquares(dist, a.radius + b.radius);
    if dist < a.radius + b.radius && dist != 0.0 {
      SquareLess(0.0, dist);
      var dx, dy := b.x - a.x, b.y - a.y;
      var nx, ny := dx / dist, dy / dist;
      assert nx * dist == dx && ny * dist == dy;
      assert CollideWithHypot(a, b, dist) == CollideAlong(a, b, nx, ny);
      AlongAgrees(a, b, dist, nx, ny);
    }
  }

  /** The overlapping, non-coincident case of HypotFormAgrees, for the normal
      (nx, ny) = (dx, dy) / dist. */
  lemma AlongAgrees(a: Body, b: Body, dist: real, nx: real, ny: real)
    requires 0.0 < dist && dist * dist == DistSq(a, b) && DistSq(a, b) != 0.0
    requires Overlap(a, b)
    requires nx * dist == b.x - a.x && ny * dist == b.y - a.y
    ensures CollideAlong(a, b, nx, ny) == Collide(a, b)
  {
    var dot := NormalSpeed(a, b, nx, ny);
    DotTimesDist(a.vx - b.vx, a.vy - b.vy, nx, ny, dist, b.x - a.x, b.y - a.y);
    SameSign(dot, dist, Closing(a, b));
    if dot <= 0.0 && a.mass + b.mass != 0.0 {
      AlongKick(a, b, dist, nx, ny);
    }
  }

  lemma AlongKick(a: Body, b: Body, dist: real, nx: real, ny: real)
    requires 0.0 < dist && dist * dist == DistSq(a, b) && DistSq(a, b) != 0.0
    requires Overlap(a, b) && a.mass + b.mass != 0.0
    requires nx * dist == b.x - a.x && ny * dist == b.y - a.y
    requires NormalSpeed(a, b, nx, ny) * dist == Closing(a, b)
    requires NormalSpeed(a, b, nx, ny) <= 0.0 && Closing(a, b) <= 0.0
    ensures CollideAlong(a, b, nx, ny) == Collide(a, b)
  {
    var m, dot := a.mass + b.mass, NormalSpeed(a, b, nx, ny);
    var impulse := 2.0 * dot / m;
    assert CollideAlong(a, b, nx, ny) == Ok(Impulse(a, b, impulse, nx, ny));
    CollideKicks(a, b);
    var k := KickSize(a, b);
    ImpulseOverDist(impulse, k, dot, Closing(a, b), m, dist, DistSq(a, b));
    ImpulseIsKick(a, b, impulse, k, dist, nx, ny);
  }

  /** Impulse along (nx, ny) = (dx, dy) / dist is Kick with k = impulse / dist. */
  lemma ImpulseIsKick(a: Body, b: Body, impulse: real, k: real, dist: real, nx: real, ny: real)
    requires k * dist == impulse
    requires nx * dist == b.x - a.x && ny * dist == b.y - a.y
    ensures Impulse(a, b, impulse, nx, ny) == Kick(a, b, k)
  {
    var (a1, b1) := Impulse(a, b, impulse, nx, ny);
    var (a2, b2) := Kick(a, b, k);
    assert a1.vx == a2.vx by { ScaledNormal(impulse, k, dist, nx, b.x - a.x, b.mass); }
    assert a1.vy == a2.vy by { ScaledNormal(impulse, k, dist, ny, b.y - a.y, b.mass); }
    assert b1.vx == b2.vx by { ScaledNormal(impulse, k, dist, nx, b.x - a.x, a.mass); }
    assert b1.vy == b2.vy by { ScaledNormal(impulse, k, dist, ny, b.y - a.y, a.mass); }
  }

  lemma SameSign(p: real, q: real, r: real)
    requires 0.0 < q && p * q == r
    ensures p > 0.0 <==> r > 0.0
  {
    if p > 0.0 {
      ProductSign(p, q);
    } else {
      ProductSign(-p, q);
    }
  }

  /** `(u * nx + w * ny) * dist` is `u * dx + w * dy` when (nx, ny) * dist = (dx, dy). */
  lemma DotTimesDist(u: real, w: real, nx: real, ny: real, dist: real, dx: real, dy: real)
    requires nx * dist == dx && ny * dist == dy
    ensures (u * nx + w * ny) * dist == u * dx + w * dy
  {
    assert (u * nx + w * ny) * dist == u * (nx * dist) + w * (ny * dist);
  }

  /** The source's `impulse` divided by `dist` is the Kick size. */
  lemma ImpulseOverDist(impulse: real, k: real, dot: real, c: real, m: real, dist: real, d2: real)
    requires dist != 0.0 && m != 0.0 && d2 == dist * dist && m * d2 != 0.0
    requires dot * dist == c
    requires impulse == 2.0 * dot / m && k * (m * d2) == 2.0 * c
    ensures k * dist == impulse
  {
    var q := k * dist - impulse;
    assert impulse * m == 2.0 * dot;
    assert k * m * dist * dist == 2.0 * dot * dist;
    assert (k * m * dist - 2.0 * dot) * dist == 0.0;
    assert k * m * dist == 2.0 * dot;
    assert q * m == 0.0;
  }

  /** `impulse * w * n` in the source equals `k * w * e` in Kick, when n * dist = e. */
  lemma ScaledNormal(impulse: real, k: real, dist: real, n: real, e: real, w: real)
    requires k * dist == impulse && n * dist == e
    ensures impulse * w * n == k * w * e
  {
    calc {
      impulse * w * n;
      k * w * (n * dist);
      k * w * e;
    }
  }

  /** Total momentum of the pair on each axis. */
  function MomentumX(a: Body, b: Body): real { a.mass * a.vx + b.mass * b.vx }
  function MomentumY(a: Body, b: Body): real { a.mass * a.vy + b.mass * b.vy }

  /** The size of the kick Collide applies: 0 when it leaves the pair alone. */
  function CollideFactor(a: Body, b: Body): real
  {
    if Overlap(a, b) && Closing(a, b) <= 0.0 then KickSize(a, b) else 0.0
  }

  /** A kick of size 0 changes nothing. */
  lemma KickZero(a: Body, b: Body)
    ensures Kick(a, b, 0.0) == (a, b)
  {
  }

  /** Whenever Collide succeeds it is a Kick, of size 0 in the no-op cases. */
  lemma CollideIsKick(a: Body, b: Body)
    requires Collide(a, b).Ok?
    ensures Collide(a, b) == Ok(Kick(a, b, CollideFactor(a, b)))
  {
    if Overlap(a, b) && Closing(a, b) <= 0.0 {
      CollideKicks(a, b);
    } else {
      KickZero(a, b);
    }
  }

  /** Collide conserves momentum per axis. */
  lemma CollideConservesMomentum(a: Body, b: Body)
    requires Collide(a, b).Ok?
    ensures var (a', b') := Collide(a, b).value;
            MomentumX(a', b') == MomentumX(a, b) && MomentumY(a', b') == MomentumY(a, b)
  {
    CollideIsKick(a, b);
    KickConservesMomentum(a, b, CollideFactor(a, b));
  }

  lemma KickConservesMomentum(a: Body, b: Body, k: real)
    ensures var (a', b') := Kick(a, b, k);
            MomentumX(a', b') == MomentumX(a, b) && MomentumY(a', b') == MomentumY(a, b)
  {
  }

  /** Each velocity change made by Collide is parallel to the centre-to-centre line. */
  lemma CollideAlongNormal(a: Body, b: Body)
    requires Collide(a, b).Ok?
    ensures var (a', b') := Collide(a, b).value;
            var dx, dy := b.x - a.x, b.y - a.y;
            (a'.vx - a.vx) * dy == (a'.vy - a.vy) * dx &&
            (b'.vx - b.vx) * dy == (b'.vy - b.vy) * dx
  {
    CollideIsKick(a, b);
    KickAlongNormal(a, b, CollideFactor(a, b));
  }

  lemma KickAlongNormal(a: Body, b: Body, k: real)
    ensures var (a', b') := Kick(a, b, k);
            var dx, dy := b.x - a.x, b.y - a.y;
            (a'.vx - a.vx) * dy == (a'.vy - a.vy) * dx &&
            (b'.vx - b.vx) * dy == (b'.vy - b.vy) * dx
  {
  }

  /** When the impulse is applied, it reverses the normal component of the relative
      velocity: a pair that was approaching ends up separating at the same rate. */
  lemma ImpulseReversesClosing(a: Body, b: Body)
    requires Overlap(a, b) && !Diverges(a, b) && Closing(a, b) <= 0.0
    ensures Closing(Collide(a, b).value.0, Collide(a, b).value.1) == -Closing(a, b)
  {
    CollideKicks(a, b);
    KickReversesClosing(a, b, KickSize(a, b));
  }

  lemma KickReversesClosing(a: Body, b: Body, k: real)
    requires k * ((a.mass + b.mass) * DistSq(a, b)) == 2.0 * Closing(a, b)
    ensures var (a', b') := Kick(a, b, k); Closing(a', b') == -Closing(a, b)
  {
  }

  /** Twice the kinetic energy of the pair. */
  function Energy(a: Body, b: Body): real
  {
    a.mass * (a.vx * a.vx + a.vy * a.vy) + b.mass * (b.vx * b.vx + b.vy * b.vy)
  }

  /** The energy a kick of size k adds to the pair. */
  lemma KickEnergyChange(a: Body, b: Body, k: real)
    ensures var (a', b') := Kick(a, b, k);
            Energy(a', b') - Energy(a, b)
              == k * a.mass * b.mass * (k * ((a.mass + b.mass) * DistSq(a, b)) - 2.0 * Closing(a, b))
  {
    var dx, dy := b.x - a.x, b.y - a.y;
    var ma, mb := a.mass, b.mass;
    var (a', b') := Kick(a, b, k);
    var ex := AxisEnergyChange(ma, mb, a.vx, b.vx, k, dx);
    var ey := AxisEnergyChange(ma, mb, a.vy, b.vy, k, dy);
    var p, s := k * ma * mb, k * (ma + mb);
    assert Energy(a', b') - Energy(a, b) == ex + ey;
    assert ex + ey == p * ((s * (dx * dx) - 2.0 * ((a.vx - b.vx) * dx)) + (s * (dy * dy) - 2.0 * ((a.vy - b.vy) * dy)));
    assert s * (dx * dx) + s * (dy * dy) == s * DistSq(a, b);
    assert k * ((ma + mb) * DistSq(a, b)) == s * DistSq(a, b);
  }

  /** The energy a kick of size k adds on one axis, where the two coins have masses
      ma and mb, velocities u and w, and the centres are d apart. */
  lemma AxisEnergyChange(ma: real, mb: real, u: real, w: real, k: real, d: real) returns (e: real)
    ensures e == ma * ((u - k * mb * d) * (u - k * mb * d)) + mb * ((w + k * ma * d) * (w + k * ma * d))
                 - ma * (u * u) - mb * (w * w)
    ensures e == k * ma * mb * (k * (ma + mb) * (d * d) - 2.0 * ((u - w) * d))
  {
    e := ma * ((u - k * mb * d) * (u - k * mb * d)) + mb * ((w + k * ma * d) * (w + k * ma * d))
         - ma * (u * u) - mb * (w * w);
    var c, c' := k * mb * d, k * ma * d;
    assert (u - c) * (u - c) == u * u - 2.0 * u * c + c * c;
    assert (w + c') * (w + c') == w * w + 2.0 * w * c' + c' * c';
    assert e == ma * (c * c) - 2.0 * ma * u * c + mb * (c' * c') + 2.0 * mb * w * c';
    assert ma * (c * c) + mb * (c' * c') == k * ma * mb * (k * (ma + mb) * (d * d));
    assert 2.0 * ma * u * c - 2.0 * mb * w * c' == k * ma * mb * (2.0 * ((u - w) * d));
  }

  /** Collide is elastic: whenever it succeeds it keeps the kinetic energy of the pair. */
  lemma CollideConservesEnergy(a: Body, b: Body)
    requires Collide(a, b).Ok?
    ensures var (a', b') := Collide(a, b).value; Energy(a', b') == Energy(a, b)
  {
    CollideIsKick(a, b);
    var k := CollideFactor(a, b);
    KickEnergyChange(a, b, k);
    if Overlap(a, b) && Closing(a, b) <= 0.0 {
      CollideKicks(a, b);
    }
  }

  /** Two unit-mass discs of radius 10 at (100, 100) and (115, 100), overlapping by 5,
      the left one moving right at 5 per tick: they approach, so `dot > 0` and the
      source leaves both velocities as they are. */
  lemma ApproachingPairUntouched()
    ensures var a, b := Body(100.0, 100.0, 5.0, 0.0, 10.0, 1.0), Body(115.0, 100.0, 0.0, 0.0, 10.0, 1.0);
            Collide(a, b) == Ok((a, b))
  {
  }

  /** The same pair with the left disc moving left, away from the other: the impulse
      is applied and swaps the x-velocities, turning the pair back towards each other. */
  lemma SeparatingPairSwapped()
    ensures var a, b := Body(100.0, 100.0, -5.0, 0.0, 10.0, 1.0), Body(115.0, 100.0, 0.0, 0.0, 10.0, 1.0);
            Collide(a, b) == Ok((a.(vx := 0.0), b.(vx := -5.0)))
  {
    var a, b := Body(100.0, 100.0, -5.0, 0.0, 10.0, 1.0), Body(115.0, 100.0, 0.0, 0.0, 10.0, 1.0);
    assert Closing(a, b) == -75.0;
    assert DistSq(a, b) == 225.0;
    assert KickSize(a, b) == -150.0 / 450.0;
  }
}
