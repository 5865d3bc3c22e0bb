// Value-level rules of one frame of the board: every coin moves, then every
// unordered pair of coins collides once, in ascending index order.

module Table {
  import opened Physics

  /** An index pair (i, j) of the coin list, visited as coins[i].collide(coins[j]). */
  type Pair = (nat, nat)

  /** Every pair names two distinct coins of an n-coin list, the lower index first. */
  predicate ValidPairs(ps: seq<Pair>, n: nat)
  {
    forall p :: p in ps ==> p.0 < p.1 < n
  }

  /** Pair p is visited before pair q by the nested i/j loop. */
  predicate Before(p: Pair, q: Pair)
  {
    p.0 < q.0 || (p.0 == q.0 && p.1 < q.1)
  }

  /** Strictly ascending, hence without repetition. */
  predicate Ascending(ps: seq<Pair>)
  {
    forall a, b :: 0 <= a < b < |ps| ==> Before(ps[a], ps[b])
  }

  /** The inner loop `for j in range(i + 1, n)` for a fixed i, from its j-th step on. */
  function Row(i: nat, j: nat, n: nat): (r: seq<Pair>)
    ensures forall p :: p in r ==> p.0 == i && j <= p.1 < n
    decreases n - j
  {
    if j >= n then [] else [(i, j)] + Row(i, j + 1, n)
  }

  /** The outer loop `for i in range(n)` from its i-th step on, each i followed by its row from i + 1. */
  function PairsFrom(i: nat, n: nat): (r: seq<Pair>)
    ensures ValidPairs(r, n)
    ensures forall p :: p in r ==> i <= p.0
    decreases n - i
  {
    if i >= n then [] else Row(i, i + 1, n) + PairsFrom(i + 1, n)
  }

  /** The pairs visited by lines 120-122 for a list of n coins: collide is called
      exactly once for each index pair i < j, in ascending (i, j) order. */
  function Pairs(n: nat): (r: seq<Pair>)
    ensures forall p :: p in r <==> p.0 < p.1 < n
    ensures Ascending(r)
  {
    PairsFromEnumerates(0, n);
    PairsFrom(0, n)
  }

  lemma {:induction false} AscendingAppend(xs: seq<Pair>, ys: seq<Pair>)
    requires Ascending(xs) && Ascending(ys)
    requires forall a, b :: 0 <= a < |xs| && 0 <= b < |ys| ==> Before(xs[a], ys[b])
    ensures Ascending(xs + ys)
  {
    forall a, b | 0 <= a < b < |xs + ys|
      ensures Before((xs + ys)[a], (xs + ys)[b])
    {
      if b < |xs| {
        assert (xs + ys)[a] == xs[a] && (xs + ys)[b] == xs[b];
      } else if a < |xs| {
        assert (xs + ys)[a] == xs[a] && (xs + ys)[b] == ys[b - |xs|];
      } else {
        assert (xs + ys)[a] == ys[a - |xs|] && (xs + ys)[b] == ys[b - |xs|];
      }
    }
  }

  /** Row i from j holds exactly the pairs (i, j'), j <= j' < n, in ascending order. */
  lemma {:induction false} RowEnumerates(i: nat, j: nat, n: nat)
    ensures forall p :: p in Row(i, j, n) <==> p.0 == i && j <= p.1 < n
    ensures Ascending(Row(i, j, n))
    decreases n - j
  {
    if j < n {
      RowEnumerates(i, j + 1, n);
      var rest := Row(i, j + 1, n);
      assert Row(i, j, n) == [(i, j)] + rest;
      forall a, b | 0 <= a < 1 && 0 <= b < |rest|
        ensures Before([(i, j)][a], rest[b])
      {
        assert rest[b] in rest;
      }
      AscendingAppend([(i, j)], rest);
    }
  }

  /** The outer loop from i visits exactly the pairs i <= p.0 < p.1 < n, in ascending order. */
  lemma {:induction false} PairsFromEnumerates(i: nat, n: nat)
    ensures forall p :: p in PairsFrom(i, n) <==> i <= p.0 < p.1 < n
    ensures Ascending(PairsFrom(i, n))
    decreases n - i
  {
    if i < n {
      RowEnumerates(i, i + 1, n);
      PairsFromEnumerates(i + 1, n);
      var row, rest := Row(i, i + 1, n), PairsFrom(i + 1, n);
      forall a, b | 0 <= a < |row| && 0 <= b < |rest|
        ensures Before(row[a], rest[b])
      {
        assert row[a] in row && rest[b] in rest;
      }
      AscendingAppend(row, rest);
    }
  }

  /** Collide is applied to the pairs ps in turn; a ZeroDivisionError ends the frame. */
  function CollideSeq(bs: seq<Body>, ps: seq<Pair>): (r: Outcome<seq<Body>>)
    requires ValidPairs(ps, |bs|)
    ensures r.Ok? ==> |r.value| == |bs|
    // collisions never move, resize or reweigh a coin
    ensures r.Ok? ==> forall t :: 0 <= t < |bs| ==> SameButVelocity(bs[t], r.value[t])
    decreases ps
  {
    if ps == [] then Ok(bs)
    else
      var i, j := ps[0].0, ps[0].1;
      match Collide(bs[i], bs[j])
      case DivisionByZero => DivisionByZero
      case Ok((a, b)) =>
        assert ps[0] in ps;
        assert forall p :: p in ps[1..] ==> p in ps;
        CollideSeq(bs[i := a][j := b], ps[1..])
  }

  /** Colliding the pairs xs and then ys is colliding xs + ys; a failure in xs ends it. */
  lemma {:induction false} CollideSeqAppend(bs: seq<Body>, xs: seq<Pair>, ys: seq<Pair>)
    requires ValidPairs(xs, |bs|) && ValidPairs(ys, |bs|)
    ensures ValidPairs(xs + ys, |bs|)
    ensures CollideSeq(bs, xs + ys) ==
            match CollideSeq(bs, xs)
            case Ok(bs') => CollideSeq(bs', ys)
            case DivisionByZero => DivisionByZero
    decreases xs
  {
    if xs == [] {
      assert xs + ys == ys;
    } else {
      assert (xs + ys)[0] == xs[0] && (xs + ys)[1..] == xs[1..] + ys;
      var i, j := xs[0].0, xs[0].1;
      assert xs[0] in xs;
      assert forall p :: p in xs[1..] ==> p in xs;
      match Collide(bs[i], bs[j])
      case DivisionByZero =>
      case Ok((a, b)) =>
        CollideSeqAppend(bs[i := a][j := b], xs[1..], ys);
    }
  }

  /** Coin.move applied to every coin (lines 115-116). */
  function MoveAll(bs: seq<Body>): (r: seq<Body>)
    ensures |r| == |bs|
    ensures forall t :: 0 <= t < |bs| ==> Advanced(bs[t], r[t])
    // friction never speeds a coin up, and a coin at rest stays where it is
    ensures forall t :: 0 <= t < |bs| ==> Abs(r[t].vx) <= Abs(bs[t].vx) && Abs(r[t].vy) <= Abs(bs[t].vy)
    ensures forall t :: 0 <= t < |bs| && bs[t].vx == 0.0 && bs[t].vy == 0.0 ==> r[t] == bs[t]
  {
    seq(|bs|, t requires 0 <= t < |bs| => Move(bs[t]))
  }

  /** One coin after the tick sits where its old velocity took it, with the same radius and mass. */
  predicate Advanced(b: Body, b': Body)
  {
    b'.x == b.x + b.vx && b'.y == b.y + b.vy && b'.radius == b.radius && b'.mass == b.mass
  }

  /** One frame of the game loop: move every coin, then collide every pair. */
  function Tick(bs: seq<Body>): (r: Outcome<seq<Body>>)
    ensures r.Ok? ==> |r.value| == |bs|
    ensures r.Ok? ==> forall t :: 0 <= t < |bs| ==> Advanced(bs[t], r.value[t])
  {
    CollideSeq(MoveAll(bs), Pairs(|bs|))
  }

  /** The component of one coin's momentum on one axis. */
  datatype Axis = X | Y

  function Linear(b: Body, axis: Axis): real
  {
    match axis
    case X => b.mass * b.vx
    case Y => b.mass * b.vy
  }

  /** Total momentum of the coins on one axis. */
  function Momentum(bs: seq<Body>, axis: Axis): real
  {
    if bs == [] then 0.0 else Linear(bs[0], axis) + Momentum(bs[1..], axis)
  }

  /** Replacing one coin changes the total by that coin's difference. */
  lemma {:induction false} MomentumUpdate(bs: seq<Body>, t: nat, b: Body, axis: Axis)
    requires t < |bs|
    ensures Momentum(bs[t := b], axis) == Momentum(bs, axis) - Linear(bs[t], axis) + Linear(b, axis)
  {
    if t == 0 {
      assert bs[t := b][1..] == bs[1..];
    } else {
      assert bs[t := b][1..] == bs[1..][t - 1 := b];
      MomentumUpdate(bs[1..], t - 1, b, axis);
    }
  }

  /** The collision phase conserves the total momentum of the board on each axis. */
  lemma {:induction false} CollideSeqConservesMomentum(bs: seq<Body>, ps: seq<Pair>, axis: Axis)
    requires ValidPairs(ps, |bs|) && CollideSeq(bs, ps).Ok?
    ensures Momentum(CollideSeq(bs, ps).value, axis) == Momentum(bs, axis)
    decreases ps
  {
    if ps != [] {
      var i, j := ps[0].0, ps[0].1;
      var pair := Collide(bs[i], bs[j]).value;
      var a, b := pair.0, pair.1;
      var bs' := bs[i := a][j := b];
      assert CollideSeq(bs, ps) == CollideSeq(bs', ps[1..]);
      assert Linear(a, axis) + Linear(b, axis) == Linear(bs[i], axis) + Linear(bs[j], axis) by {
        CollideConservesMomentum(bs[i], bs[j]);
      }
      MomentumUpdate(bs, i, a, axis);
      MomentumUpdate(bs[i := a], j, b, axis);
      assert ps[0] in ps;
      assert forall p :: p in ps[1..] ==> p in ps;
      CollideSeqConservesMomentum(bs', ps[1..], axis);
    }
  }

  /** The collision phase of a frame conserves total momentum per axis (the move
      phase does not: friction removes some). */
  lemma TickCollisionsConserveMomentum(bs: seq<Body>, axis: Axis)
    requires Tick(bs).Ok?
    ensures Momentum(Tick(bs).value, axis) == Momentum(MoveAll(bs), axis)
  {
    CollideSeqConservesMomentum(MoveAll(bs), Pairs(|bs|), axis);
  }

  /** Every coin has zero velocity. */
  predicate AtRest(bs: seq<Body>)
  {
    forall t :: 0 <= t < |bs| ==> bs[t].vx == 0.0 && bs[t].vy == 0.0
  }

  /** A pair at rest is never pushed: either nothing changes or collide raises
      ZeroDivisionError, on coincident centres or a zero mass sum. */
  lemma CollideAtRest(a: Body, b: Body)
    requires a.vx == 0.0 && a.vy == 0.0 && b.vx == 0.0 && b.vy == 0.0
    ensures Collide(a, b).Ok? ==> Collide(a, b).value == (a, b)
    ensures Collide(a, b).DivisionByZero? ==> DistSq(a, b) == 0.0 || a.mass + b.mass == 0.0
  {
    if Collide(a, b).Ok? {
      CollideIsKick(a, b);
      assert CollideFactor(a, b) == 0.0;
    }
  }

  lemma {:induction false} CollideSeqAtRest(bs: seq<Body>, ps: seq<Pair>)
    requires ValidPairs(ps, |bs|) && AtRest(bs)
    ensures CollideSeq(bs, ps).Ok? ==> CollideSeq(bs, ps).value == bs
    decreases ps
  {
    if ps != [] {
      var i, j := ps[0].0, ps[0].1;
      assert ps[0] in ps;
      CollideAtRest(bs[i], bs[j]);
      if Collide(bs[i], bs[j]).Ok? {
        assert bs[i := bs[i]][j := bs[j]] == bs;
        assert forall p :: p in ps[1..] ==> p in ps;
        CollideSeqAtRest(bs, ps[1..]);
      }
    }
  }

  /** A board at rest stays exactly where it is, unless the frame raises ZeroDivisionError. */
  lemma TickAtRest(bs: seq<Body>)
    requires AtRest(bs)
    ensures Tick(bs).Ok? ==> Tick(bs).value == bs
  {
    assert MoveAll(bs) == bs;
    CollideSeqAtRest(bs, Pairs(|bs|));
  }

  /** No two distinct coins overlap. */
  predicate Apart(bs: seq<Body>)
  {
    forall i, j :: 0 <= i < j < |bs| ==> !Overlap(bs[i], bs[j])
  }

  /** On a board where no two coins overlap, every pair is skipped and nothing changes. */
  lemma {:induction false} CollideSeqApart(bs: seq<Body>, ps: seq<Pair>)
    requires ValidPairs(ps, |bs|) && Apart(bs)
    ensures CollideSeq(bs, ps) == Ok(bs)
    decreases ps
  {
    if ps != [] {
      assert ps[0] in ps;
      assert bs[ps[0].0 := bs[ps[0].0]][ps[0].1 := bs[ps[0].1]] == bs;
      assert forall p :: p in ps[1..] ==> p in ps;
      CollideSeqApart(bs, ps[1..]);
    }
  }

  /** A board at rest whose coins do not overlap is a fixed point of the frame. */
  lemma TickApartAtRest(bs: seq<Body>)
    requires AtRest(bs) && Apart(bs)
    ensures Tick(bs) == Ok(bs)
  {
    assert MoveAll(bs) == bs;
    CollideSeqApart(bs, Pairs(|bs|));
  }

  /** The opening layout of the program (lines 75-83): the striker and three touching
      coins in a row, all at rest. Touching is not overlapping, so nothing moves. */
  lemma OpeningLayoutIsStill()
    ensures var bs := [Body(400.0, 700.0, 0.0, 0.0, 20.0, 1.0),
                       Body(400.0, 300.0, 0.0, 0.0, 15.0, 1.0),
                       Body(430.0, 300.0, 0.0, 0.0, 15.0, 1.0),
                       Body(370.0, 300.0, 0.0, 0.0, 15.0, 1.0)];
            Tick(bs) == Ok(bs)
  {
    var bs := [Body(400.0, 700.0, 0.0, 0.0, 20.0, 1.0),
               Body(400.0, 300.0, 0.0, 0.0, 15.0, 1.0),
               Body(430.0, 300.0, 0.0, 0.0, 15.0, 1.0),
               Body(370.0, 300.0, 0.0, 0.0, 15.0, 1.0)];
    assert !Overlap(bs[0], bs[1]) && !Overlap(bs[0], bs[2]) && !Overlap(bs[0], bs[3]);
    assert !Overlap(bs[1], bs[2]) && !Overlap(bs[1], bs[3]) && !Overlap(bs[2], bs[3]);
    TickApartAtRest(bs);
  }
}
