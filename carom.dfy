// The game state of the prototype as the program keeps it: coin objects whose
// fields are updated in place, the coin list, the aim and the loop flag.

module Carom {
  import opened Physics
  import Table
  import Launch

  /** An RGB colour; it only matters for drawing. */
  type Rgb = (int, int, int)

  const White: Rgb := (255, 255, 255)
  const Red: Rgb := (200, 0, 0)
  const Black: Rgb := (0, 0, 0)

  class Coin {
    var x: real
    var y: real
    var vx: real
    var vy: real
    const radius: real
    const color: Rgb
    const mass: real

    /** The coin's state as a value. */
    function Body(): Body
      reads this
    {
      Physics.Body(x, y, vx, vy, radius, mass)
    }

    /** Coin(x, y, radius, color): at rest, with unit mass. */
    constructor (x: real, y: real, radius: real, color: Rgb)
      ensures Body() == Physics.Body(x, y, 0.0, 0.0, radius, 1.0)
      ensures this.color == color
    {
      this.x, this.y := x, y;
      this.vx, this.vy := 0.0, 0.0;
      this.radius, this.color := radius, color;
      this.mass := 1.0;
    }

    /** Coin.move: step by the velocity, then friction, stop threshold and wall bounce. */
    method Move()
      modifies this
      ensures Body() == Physics.Move(old(Body()))
    {
      x := x + vx;
      y := y + vy;
      vx := vx * Friction;
      vy := vy * Friction;
      if Abs(vx) < StopSpeed {
        vx := 0.0;
      }
      if Abs(vy) < StopSpeed {
        vy := 0.0;
      }
      if x - radius < 0.0 || x + radius > Width {
        vx := -vx;
      }
      if y - radius < 0.0 || y + radius > Height {
        vy := -vy;
      }
    }

    /** Coin.collide(other). `ok` is false where the source raises ZeroDivisionError,
        which it does before touching either coin. The overlap test and the normal
        are computed from the squared distance; the lemma HypotFormAgrees shows this
        is what the source computes with math.hypot. */
    method Collide(other: Coin) returns (ok: bool)
      modifies this, other
      ensures ok == old(Physics.Collide(Body(), other.Body())).Ok?
      ensures ok ==> (Body(), other.Body()) == old(Physics.Collide(Body(), other.Body())).value
      ensures !ok ==> unchanged(this, other)
    {
      var dx := other.x - x;
      var dy := other.y - y;
      var distSq := dx * dx + dy * dy;
      var reach := radius + other.radius;
      var closing := (vx - other.vx) * dx + (vy - other.vy) * dy;
      var m := mass + other.mass;
      CollideByParts(Body(), other.Body(), dx, dy, distSq, reach, closing, m);
      if !(0.0 < reach && distSq < reach * reach) {
        return true;
      }
      if distSq == 0.0 {
        return false;
      }
      if closing > 0.0 {
        return true;
      }
      if m == 0.0 {
        return false;
      }
      var k := 2.0 * closing / (m * distSq);
      Push(other, k, dx, dy);
      ok := true;
    }

    /** Lines 69-72: the impulse, with the normal and 1 / dist folded into k * (dx, dy). */
    method Push(other: Coin, k: real, dx: real, dy: real)
      requires other != this
      modifies this, other
      ensures (Body(), other.Body()) == Impulse(old(Body()), old(other.Body()), k, dx, dy)
    {
      vx := vx - k * other.mass * dx;
      vy := vy - k * other.mass * dy;
      other.vx := other.vx + k * mass * dx;
      other.vy := other.vy + k * mass * dy;
      assert Body() == Impulse(old(Body()), old(other.Body()), k, dx, dy).0;
      assert other.Body() == Impulse(old(Body()), old(other.Body()), k, dx, dy).1;
    }
  }

  /** The module-level state of the program: the coin list, the striker, the aim
      and the loop flag. */
  class Game {
    var coins: seq<Coin>
    const striker: Coin
    var aim: Launch.Aim
    var running: bool

    /** The striker is the first coin and no coin is listed twice. */
    ghost predicate Valid()
      reads this
    {
      |coins| > 0 && coins[0] == striker &&
      forall a, b :: 0 <= a < b < |coins| ==> coins[a] != coins[b]
    }

    /** The coins as values, in list order. */
    ghost function Bodies(): (bs: seq<Body>)
      reads this, coins
      ensures |bs| == |coins|
    {
      seq(|coins|, t reads this, coins requires 0 <= t < |coins| => coins[t].Body())
    }

    /** What the event handling reads and writes. */
    function Controls(): Launch.Controls
      reads this, striker
    {
      Launch.Controls(aim, striker.vx, striker.vy, running)
    }

    /** Lines 74-89: the striker near the bottom edge and three coins in a row. */
    constructor ()
      ensures Valid() && fresh(coins)
      ensures Bodies() == [Physics.Body(400.0, 700.0, 0.0, 0.0, 20.0, 1.0),
                           Physics.Body(400.0, 300.0, 0.0, 0.0, 15.0, 1.0),
                           Physics.Body(430.0, 300.0, 0.0, 0.0, 15.0, 1.0),
                           Physics.Body(370.0, 300.0, 0.0, 0.0, 15.0, 1.0)]
      ensures aim == Launch.Idle && running
    {
      var s := new Coin(Width / 2.0, Height - 100.0, 20.0, White);
      var c1 := new Coin(400.0, 300.0, 15.0, Red);
      var c2 := new Coin(430.0, 300.0, 15.0, Black);
      var c3 := new Coin(370.0, 300.0, 15.0, White);
      striker := s;
      coins := [s, c1, c2, c3];
      aim := Launch.Idle;
      running := true;
    }

    /** One event of lines 96-112. */
    method HandleEvent(e: Launch.Event)
      requires Valid()
      modifies this, striker
      ensures coins == old(coins) && Valid()
      ensures Controls() == Launch.Handle(old(Controls()), e)
      ensures striker.x == old(striker.x) && striker.y == old(striker.y)
    {
      match e {
        case Quit =>
          running := false;
        case MouseDown(p) =>
          if striker.vx == 0.0 && striker.vy == 0.0 {
            aim := Launch.Aiming(p);
          }
        case MouseUp(p) =>
          if aim.Aiming? {
            var start := aim.start;
            aim := Launch.Idle;
            striker.vx := (start.0 - p.0) as real / Launch.ShotDivisor;
            striker.vy := (start.1 - p.1) as real / Launch.ShotDivisor;
          }
      }
    }

    /** Lines 115-116: Coin.move on every coin, in list order. */
    method MoveCoins()
      requires Valid()
      modifies coins
      ensures Bodies() == Table.MoveAll(old(Bodies()))
    {
      for k := 0 to |coins|
        invariant forall t :: 0 <= t < |coins| ==>
                    coins[t].Body() == if t < k then Move(old(coins[t].Body())) else old(coins[t].Body())
      {
        coins[k].Move();
      }
    }

    /** Lines 121-122 for one i: coins[i].collide(coins[j]) for j = i + 1, ..., n - 1.
        `ok` is false where the source raises ZeroDivisionError. */
    method CollideRow(i: nat) returns (ok: bool)
      requires Valid() && i < |coins|
      modifies coins
      ensures Table.CollideSeq(old(Bodies()), Table.Row(i, i + 1, |coins|)) ==
              if ok then Ok(Bodies()) else DivisionByZero
    {
      var n := |coins|;
      var j := i + 1;
      while j < n
        invariant i + 1 <= j <= n
        invariant Table.CollideSeq(old(Bodies()), Table.Row(i, i + 1, n)) ==
                  Table.CollideSeq(Bodies(), Table.Row(i, j, n))
      {
        ghost var before := Bodies();
        assert Table.Row(i, j, n)[0] == (i, j) && Table.Row(i, j, n)[1..] == Table.Row(i, j + 1, n);
        var collided := coins[i].Collide(coins[j]);
        if !collided {
          return false;
        }
        var (a, b) := Collide(before[i], before[j]).value;
        assert Bodies() == before[i := a][j := b];
        j := j + 1;
      }
      ok := true;
    }

    /** Lines 120-122: collide every pair i < j, in ascending order. `ok` is false where
        the source raises ZeroDivisionError; the coins then hold the collisions made
        before the failing pair. */
    method CollideCoins() returns (ok: bool)
      requires Valid()
      modifies coins
      ensures ok == Table.CollideSeq(old(Bodies()), Table.Pairs(|coins|)).Ok?
      ensures ok ==> Bodies() == Table.CollideSeq(old(Bodies()), Table.Pairs(|coins|)).value
    {
      var n := |coins|;
      var i := 0;
      while i < n
        invariant 0 <= i <= n
        invariant Table.CollideSeq(old(Bodies()), Table.Pairs(n)) ==
                  Table.CollideSeq(Bodies(), Table.PairsFrom(i, n))
      {
        Table.CollideSeqAppend(Bodies(), Table.Row(i, i + 1, n), Table.PairsFrom(i + 1, n));
        var rowOk := CollideRow(i);
        if !rowOk {
          return false;
        }
        i := i + 1;
      }
      ok := true;
    }

    /** Lines 115-122: move every coin, then collide every pair. */
    method Step() returns (ok: bool)
      requires Valid()
      modifies coins
      ensures ok == Table.Tick(old(Bodies())).Ok?
      ensures ok ==> Bodies() == Table.Tick(old(Bodies())).value
    {
      MoveCoins();
      ok := CollideCoins();
    }

    /** One pass of the game loop, lines 92-122, without the drawing: the events in
        order, then one step of the board. A quit event only stops the next pass. */
    method Frame(events: seq<Launch.Event>) returns (ok: bool)
      requires Valid()
      modifies this, coins
      ensures coins == old(coins) && Valid()
      ensures var c := Launch.HandleAll(old(Controls()), events);
              aim == c.aim && running == c.running &&
              var launched := old(Bodies())[0 := old(Bodies())[0].(vx := c.vx, vy := c.vy)];
              ok == Table.Tick(launched).Ok? &&
              (ok ==> Bodies() == Table.Tick(launched).value)
    {
      for k := 0 to |events|
        invariant coins == old(coins) && Valid()
        invariant Launch.HandleAll(Controls(), events[k..]) == Launch.HandleAll(old(Controls()), events)
        invariant Bodies() == old(Bodies())[0 := old(Bodies())[0].(vx := striker.vx, vy := striker.vy)]
      {
        assert events[k..][1..] == events[k + 1..];
        ghost var pre := Bodies();
        HandleEvent(events[k]);
        assert forall t :: 0 < t < |coins| ==> coins[t] != striker && coins[t].Body() == pre[t];
        assert Bodies() == pre[0 := pre[0].(vx := striker.vx, vy := striker.vy)];
      }
      assert events[|events|..] == [];
      ok := Step();
    }
  }
}
