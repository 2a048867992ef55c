/** Bresenham's line, as writeLine runs it. */
module Line {
  import opened Geometry
  import opened Machine

  /** Minor offset at major offset i: i * dy / dx rounded to the nearest integer, ties down. */
  function Minor(dx: nat, dy: nat, i: nat): nat {
    if dx == 0 then 0
    else
      Apart(0, i, dy);
      var a: nat := i * dy + (dx - 1) / 2;
      a / dx
  }

  /** The value of err when pixel i is written. */
  function Err(dx: nat, dy: nat, i: nat): int {
    dx / 2 - i * dy + Minor(dx, dy, i) * dx
  }

  /** The error term stays in [0, dx), so each pixel is within half a unit of the ideal line. */
  lemma ErrInRange(dx: nat, dy: nat, i: nat)
    requires dx > 0
    ensures 0 <= Err(dx, dy, i) < dx
    ensures -(dx as int) < 2 * (i * dy - Minor(dx, dy, i) * dx) <= dx
  {
    var a := i * dy + (dx - 1) / 2;
    assert a == a / dx * dx + a % dx;
  }

  /** The step in terms of the products p = i * dy and q = k * dx. */
  lemma ErrStep(dx: nat, dy: nat, p: nat, k: nat, q: nat)
    requires 0 < dx && dy <= dx && q == k * dx && 0 <= dx / 2 - p + q < dx
    ensures (p + dy + (dx - 1) / 2) / dx == if dx / 2 - p + q - dy < 0 then k + 1 else k
  {
    var k' := if dx / 2 - p + q - dy < 0 then k + 1 else k;
    assert (k + 1) * dx == q + dx;
    DivUnique(p + dy + (dx - 1) / 2, dx, k');
  }

  lemma MinorIs(dx: nat, dy: nat, i: nat)
    ensures dx == 0 ==> Minor(dx, dy, i) == 0 && Minor(dx, dy, i + 1) == 0
    ensures dx > 0 ==> Minor(dx, dy, i) == (i * dy + (dx - 1) / 2) / dx
    ensures dx > 0 ==> Minor(dx, dy, i + 1) == (i * dy + dy + (dx - 1) / 2) / dx
  {
    assert (i + 1) * dy == i * dy + dy;
  }

  lemma MinorNext(dx: nat, dy: nat, i: nat)
    requires dy <= dx
    ensures Minor(dx, dy, i + 1) == if Err(dx, dy, i) - dy < 0 then Minor(dx, dy, i) + 1 else Minor(dx, dy, i)
  {
    hide *;
    MinorIs(dx, dy, i);
    ErrIs(dx, dy, i);
    if dx > 0 {
      ErrInRange(dx, dy, i);
      ErrStep(dx, dy, i * dy, Minor(dx, dy, i), Minor(dx, dy, i) * dx);
    }
  }

  lemma MinorStep(dx: nat, dy: nat, i: nat)
    requires dy <= dx
    ensures Minor(dx, dy, i + 1) == if Err(dx, dy, i) - dy < 0 then Minor(dx, dy, i) + 1 else Minor(dx, dy, i)
    ensures Err(dx, dy, i + 1) == if Err(dx, dy, i) - dy < 0 then Err(dx, dy, i) - dy + dx else Err(dx, dy, i) - dy
  {
    hide *;
    MinorNext(dx, dy, i);
    ErrIs(dx, dy, i);
    ErrIs(dx, dy, i + 1);
    Increments(i, dy, Minor(dx, dy, i), dx);
  }

  lemma ErrIs(dx: nat, dy: nat, i: nat)
    ensures Err(dx, dy, i) == dx / 2 - i * dy + Minor(dx, dy, i) * dx
  {
    hide Minor;
  }

  lemma Increments(i: nat, dy: nat, k: nat, dx: nat)
    ensures (i + 1) * dy == i * dy + dy && (k + 1) * dx == k * dx + dx
  {
  }

  lemma MinorEnds(dx: nat, dy: nat)
    requires dy <= dx
    ensures Minor(dx, dy, 0) == 0 && Minor(dx, dy, dx) == dy
    ensures Err(dx, dy, 0) == dx / 2
  {
    if dx > 0 {
      DivUnique((dx - 1) / 2, dx, 0);
      assert dy * dx == dx * dy;
      DivUnique(dx * dy + (dx - 1) / 2, dx, dy);
    }
  }

  /** A line after writeLine's two swaps: major axis first, from the smaller major coordinate up. */
  datatype Run = Run(steep: bool, a0: int, b0: int, a1: int, b1: int) {
    predicate Valid() {
      a0 <= a1 && Abs(b1 - b0) <= a1 - a0
    }

    /** Pixel i of the run. */
    function Pixel(i: nat): Point
      requires Valid()
    {
      var k := Minor(a1 - a0, Abs(b1 - b0), i);
      var b := if b0 < b1 then b0 + k else b0 - k;
      if steep then Point(b, a0 + i) else Point(a0 + i, b)
    }

    /** The first m pixels. */
    function Prefix(m: nat): seq<Point>
      requires Valid()
    {
      seq(m, i requires 0 <= i < m => Pixel(i))
    }

    function Pixels(): seq<Point>
      requires Valid()
    {
      Prefix(a1 - a0 + 1)
    }
  }

  function Normal(x0: int, y0: int, x1: int, y1: int): (n: Run)
    ensures n.Valid()
  {
    if Abs(y1 - y0) > Abs(x1 - x0) then
      if y0 > y1 then Run(true, y1, x1, y0, x0) else Run(true, y0, x0, y1, x1)
    else
      if x0 > x1 then Run(false, x1, y1, x0, y0) else Run(false, x0, y0, x1, y1)
  }

  /** ystep */
  function Step(n: Run): int {
    if n.b0 < n.b1 then 1 else -1
  }

  lemma QuotientBound(dx: nat, dy: nat, p: nat)
    requires dx > 0 && p <= dy * dx
    ensures (p + (dx - 1) / 2) / dx <= dy
  {
    var a := p + (dx - 1) / 2;
    var q := a / dx;
    assert a == q * dx + a % dx;
    Apart(dy, q, dx);
  }

  lemma MinorBound(dx: nat, dy: nat, i: nat)
    requires dy <= dx && i <= dx
    ensures Minor(dx, dy, i) <= dy
  {
    hide *;
    MinorIs(dx, dy, i);
    if dx > 0 {
      MulMonotone(i, dx, dy);
      assert dx * dy == dy * dx;
      QuotientBound(dx, dy, i * dy);
    }
  }

  /** The minor coordinate of pixel i. */
  function MinorAt(n: Run, i: nat): int
    requires n.Valid()
  {
    var k := Minor(n.a1 - n.a0, Abs(n.b1 - n.b0), i);
    if n.b0 < n.b1 then n.b0 + k else n.b0 - k
  }

  lemma MinorAtBounds(n: Run, i: nat)
    requires n.Valid() && i <= n.a1 - n.a0
    ensures Min(n.b0, n.b1) <= MinorAt(n, i) <= Max(n.b0, n.b1) && MinorAt(n, 0) == n.b0
    ensures n.Pixel(i) == if n.steep then Point(MinorAt(n, i), n.a0 + i) else Point(n.a0 + i, MinorAt(n, i))
  {
    hide Minor, Err;
    MinorEnds(n.a1 - n.a0, Abs(n.b1 - n.b0));
    MinorBound(n.a1 - n.a0, Abs(n.b1 - n.b0), i);
  }

  lemma MinorAtNext(n: Run, i: nat)
    requires n.Valid()
    ensures var (dx, dy) := (n.a1 - n.a0, Abs(n.b1 - n.b0));
      var steps := Err(dx, dy, i) - dy < 0;
      && MinorAt(n, i + 1) == (if steps then MinorAt(n, i) + Step(n) else MinorAt(n, i))
      && Err(dx, dy, i + 1) == (if steps then Err(dx, dy, i) - dy + dx else Err(dx, dy, i) - dy)
  {
    MinorStep(n.a1 - n.a0, Abs(n.b1 - n.b0), i);
    hide Minor, Err;
  }

  lemma PrefixNext(n: Run, i: nat)
    requires n.Valid()
    ensures n.Prefix(i + 1) == n.Prefix(i) + [n.Pixel(i)] && n.Prefix(0) == []
  {
    hide Run.Pixel;
  }

  method WriteLine(X0: int, Y0: int, X1: int, Y1: int) returns (trace: seq<Point>)
    ensures trace == Normal(X0, Y0, X1, Y1).Pixels()
  {
    var x0, y0, x1, y1 := X0, Y0, X1, Y1;
    var steep := Abs(y1 - y0) > Abs(x1 - x0);
    if steep {
      x0, y0 := y0, x0;
      x1, y1 := y1, x1;
    }
    if x0 > x1 {
      x0, x1 := x1, x0;
      y0, y1 := y1, y0;
    }
    trace := Plot(steep, x0, y0, x1, y1);
  }

  /** writeLine from where dx and dy are set. */
  method Plot(steep: bool, X0: int, Y0: int, x1: int, y1: int) returns (trace: seq<Point>)
    requires Run(steep, X0, Y0, x1, y1).Valid()
    ensures trace == Run(steep, X0, Y0, x1, y1).Pixels()
  {
    hide Minor, Err, MinorAt, Run.Prefix, Run.Pixel;
    var x0, y0 := X0, Y0;
    var dx, dy := x1 - x0, Abs(y1 - y0);
    var err := dx / 2;
    var ystep := if y0 < y1 then 1 else -1;
    ghost var n := Run(steep, x0, y0, x1, y1);
    trace := [];
    MinorEnds(dx, dy);
    MinorAtBounds(n, 0);
    PrefixNext(n, 0);
    while x0 <= x1
      invariant n.a0 <= x0 <= x1 + 1
      invariant err == Err(dx, dy, x0 - n.a0)
      invariant y0 == MinorAt(n, x0 - n.a0)
      invariant trace == n.Prefix(x0 - n.a0)
      decreases x1 - x0
    {
      MinorAtNext(n, x0 - n.a0);
      MinorAtBounds(n, x0 - n.a0);
      PrefixNext(n, x0 - n.a0);
      trace := trace + [if steep then Point(y0, x0) else Point(x0, y0)];
      err := err - dy;
      if err < 0 {
        y0 := y0 + ystep;
        err := err + dx;
      }
      x0 := x0 + 1;
    }
  }

  // ---------------------------------------------------------------- what a line looks like

  /** The major coordinate of a pixel. */
  function Major(steep: bool, p: Point): int {
    if steep then p.y else p.x
  }

  /** Each major coordinate between the endpoints is plotted once, in order. */
  lemma MajorOnce(x0: int, y0: int, x1: int, y1: int, i: nat)
    requires i < |Normal(x0, y0, x1, y1).Pixels()|
    ensures var n := Normal(x0, y0, x1, y1);
      && |n.Pixels()| == Max(Abs(x1 - x0), Abs(y1 - y0)) + 1
      && Major(n.steep, n.Pixels()[i]) == n.a0 + i
  {
  }

  /** Both endpoints are hit: the one with the smaller major coordinate is the first pixel, the other one the last. */
  lemma EndpointsHit(x0: int, y0: int, x1: int, y1: int)
    ensures var ps := Normal(x0, y0, x1, y1).Pixels();
      var forward := if Abs(y1 - y0) > Abs(x1 - x0) then y0 <= y1 else x0 <= x1;
      if forward then ps[0] == Point(x0, y0) && ps[|ps| - 1] == Point(x1, y1)
      else ps[0] == Point(x1, y1) && ps[|ps| - 1] == Point(x0, y0)
  {
    hide Minor, Err;
    var n := Normal(x0, y0, x1, y1);
    MinorEnds(n.a1 - n.a0, Abs(n.b1 - n.b0));
    var ps := n.Pixels();
    assert ps[0] == n.Pixel(0) && ps[|ps| - 1] == n.Pixel(n.a1 - n.a0);
  }

  /** Swapping the endpoints gives the same pixels in the same order. */
  lemma EndpointOrder(x0: int, y0: int, x1: int, y1: int)
    ensures Normal(x0, y0, x1, y1).Pixels() == Normal(x1, y1, x0, y0).Pixels()
  {
  }

  /** Twice the area spanned by a, b and p: zero exactly on the line through a and b. */
  function Cross(a: Point, b: Point, p: Point): int {
    (p.x - a.x) * (b.y - a.y) - (p.y - a.y) * (b.x - a.x)
  }

  lemma CrossSwapped(a: Point, b: Point, p: Point)
    ensures Cross(a, b, p) == -Cross(b, a, p)
  {
    var dx, dy := b.x - a.x, b.y - a.y;
    assert (p.x - b.x) * dy == (p.x - a.x) * dy - dx * dy;
    assert (p.y - b.y) * dx == (p.y - a.y) * dx - dx * dy;
    assert (p.x - b.x) * (a.y - b.y) == -((p.x - b.x) * dy);
    assert (p.y - b.y) * (a.x - b.x) == -((p.y - b.y) * dx);
  }

  lemma Area(a0: int, b0: int, da: int, db: int, i: int, k: int)
    ensures Cross(Point(a0, b0), Point(a0 + da, b0 + db), Point(a0 + i, b0 + k)) == i * db - k * da
    ensures Cross(Point(b0, a0), Point(b0 + db, a0 + da), Point(b0 + k, a0 + i)) == k * da - i * db
  {
  }

  lemma Negated(i: int, dy: int, k: int, dx: int)
    ensures i * -dy - -k * dx == k * dx - i * dy
  {
  }

  lemma PixelNearRun(n: Run, i: nat)
    requires n.Valid()
    ensures var p := n.Pixel(i);
      var (a, b) := if n.steep then (Point(n.b0, n.a0), Point(n.b1, n.a1)) else (Point(n.a0, n.b0), Point(n.a1, n.b1));
      2 * Abs(Cross(a, b, p)) <= n.a1 - n.a0
  {
    var dx: int, dy: int := n.a1 - n.a0, Abs(n.b1 - n.b0);
    var k: int := Minor(dx, dy, i);
    if dx > 0 {
      ErrInRange(dx, dy, i);
    }
    hide Minor, Cross;
    Negated(i, dy, k, dx);
    if n.b0 < n.b1 {
      Area(n.a0, n.b0, dx, dy, i, k);
    } else {
      Area(n.a0, n.b0, dx, -dy, i, -k);
    }
  }

  /** Every pixel lies within half a pixel, along the minor axis, of the line through the endpoints. */
  lemma PixelNearLine(x0: int, y0: int, x1: int, y1: int, i: nat)
    requires i < |Normal(x0, y0, x1, y1).Pixels()|
    ensures 2 * Abs(Cross(Point(x0, y0), Point(x1, y1), Normal(x0, y0, x1, y1).Pixels()[i]))
      <= Max(Abs(x1 - x0), Abs(y1 - y0))
  {
    var n := Normal(x0, y0, x1, y1);
    PixelNearRun(n, i);
    CrossSwapped(Point(x0, y0), Point(x1, y1), n.Pixel(i));
    hide Cross, Minor;
  }

  /** Pixel i is the one of its column or row that is nearest to the line, and of two that are equally near the one that
      is nearer to the first pixel. */
  lemma TiesTowardStart(x0: int, y0: int, x1: int, y1: int, i: nat)
    requires i < |Normal(x0, y0, x1, y1).Pixels()| && (x0 != x1 || y0 != y1)
    ensures var (ps, steep) := (Normal(x0, y0, x1, y1).Pixels(), Abs(y1 - y0) > Abs(x1 - x0));
      var (dx, dy) := (Max(Abs(x1 - x0), Abs(y1 - y0)), Min(Abs(x1 - x0), Abs(y1 - y0)));
      var k := if steep then Abs(ps[i].x - ps[0].x) else Abs(ps[i].y - ps[0].y);
      -dx < 2 * (i * dy - k * dx) <= dx
  {
    hide Run.Pixel;
    var n := Normal(x0, y0, x1, y1);
    RunTie(n, i);
    assert n.Pixels()[i] == n.Pixel(i) && n.Pixels()[0] == n.Pixel(0);
  }

  lemma RunTie(n: Run, i: nat)
    requires n.Valid() && n.a0 < n.a1
    ensures var (dx, dy) := (n.a1 - n.a0, Abs(n.b1 - n.b0));
      var k := if n.steep then Abs(n.Pixel(i).x - n.Pixel(0).x) else Abs(n.Pixel(i).y - n.Pixel(0).y);
      -dx < 2 * (i * dy - k * dx) <= dx
  {
    hide Minor, Err;
    MinorEnds(n.a1 - n.a0, Abs(n.b1 - n.b0));
    ErrInRange(n.a1 - n.a0, Abs(n.b1 - n.b0), i);
    assert Minor(n.a1 - n.a0, Abs(n.b1 - n.b0), i)
      == if n.steep then Abs(n.Pixel(i).x - n.Pixel(0).x) else Abs(n.Pixel(i).y - n.Pixel(0).y);
  }

  /** err and its intermediate value stay in int16 range when dx does. */
  lemma ErrInt16(dx: nat, dy: nat, i: nat)
    requires dy <= dx < 32768
    ensures -32768 <= Err(dx, dy, i) - dy && Err(dx, dy, i) < 32768
  {
    if dx > 0 {
      ErrInRange(dx, dy, i);
    }
  }

  // ---------------------------------------------------------------- in int16_t

  predicate Int16(n: Run) {
    -32768 <= n.a0 < 32768 && -32768 <= n.b0 < 32768 && -32768 <= n.a1 < 32768 && -32768 <= n.b1 < 32768
  }

  /** x0, y0 and err when pixel i is written. */
  datatype Vars = Vars(x: int16, y: int16, err: int16)

  function Vars16(n: Run, i: nat): Vars
    requires Int16(n)
  {
    if i == 0 then Vars(n.a0, n.b0, TruncHalf(I16(n.a1 - n.a0)))
    else
      var v := Vars16(n, i - 1);
      var err := I16(v.err - I16(Abs(n.b1 - n.b0)));
      if err < 0 then Vars(I16(v.x + 1), I16(v.y + Step(n)), I16(err + I16(n.a1 - n.a0)))
      else Vars(I16(v.x + 1), v.y, err)
  }

  function TruncHalf(v: int16): int16 {
    TruncDiv(v, 2)
  }

  function Pixel16(n: Run, i: nat): Point
    requires Int16(n)
  {
    var v := Vars16(n, i);
    if n.steep then Point(v.y, v.x) else Point(v.x, v.y)
  }

  lemma {:induction false} CounterIsX(n: Run, i: nat)
    requires Int16(n)
    ensures Vars16(n, i).x == Counter(n.a0, i)
  {
    if i > 0 {
      CounterIsX(n, i - 1);
    }
  }

  lemma InRange(n: Run)
    requires Int16(n)
    ensures -32768 <= n.a0 < 32768 && -32768 <= n.b0 < 32768 && -32768 <= n.a1 < 32768 && -32768 <= n.b1 < 32768
    ensures Vars16(n, 0) == Vars(n.a0, n.b0, TruncHalf(I16(n.a1 - n.a0)))
    ensures n.Valid() ==> 0 <= Abs(n.b1 - n.b0) <= n.a1 - n.a0
    ensures 0 <= n.a1 - n.a0 < 32768 ==> TruncHalf(n.a1 - n.a0) == (n.a1 - n.a0) / 2
    ensures -32768 <= Min(n.b0, n.b1) && Max(n.b0, n.b1) < 32768
  {
  }

  lemma VarsNext(n: Run, i: nat)
    requires Int16(n)
    ensures var v, e := Vars16(n, i), I16(Vars16(n, i).err - I16(Abs(n.b1 - n.b0)));
      Vars16(n, i + 1) == if e < 0 then Vars(I16(v.x + 1), I16(v.y + Step(n)), I16(e + I16(n.a1 - n.a0)))
                          else Vars(I16(v.x + 1), v.y, e)
  {
    hide I16, Step, TruncHalf;
  }

  /** While the span fits, the int16 variables are the exact ones. */
  lemma {:induction false} VarsExact(n: Run, i: nat)
    requires n.Valid() && Int16(n) && n.a1 < 32767 && n.a1 - n.a0 <= 32767 && i <= n.a1 - n.a0
    ensures var v := Vars16(n, i);
      v.x == n.a0 + i && v.y == MinorAt(n, i) && v.err == Err(n.a1 - n.a0, Abs(n.b1 - n.b0), i)
  {
    hide *;
    var dx, dy := n.a1 - n.a0, Abs(n.b1 - n.b0);
    InRange(n);
    MinorEnds(dx, dy);
    MinorAtBounds(n, i);
    if i > 0 {
      VarsNext(n, i - 1);
      VarsExact(n, i - 1);
      MinorAtBounds(n, i - 1);
      MinorAtNext(n, i - 1);
      ErrInt16(dx, dy, i - 1);
      ErrInt16(dx, dy, i);
      ErrNonNegative(dx, dy, i);
    }
  }

  lemma ErrNonNegative(dx: nat, dy: nat, i: nat)
    requires dy <= dx
    ensures Err(dx, dy, i) >= 0
  {
    if dx > 0 {
      ErrInRange(dx, dy, i);
    }
  }

  /** A span that does not fit shows in the second or third pixel. */
  lemma WideSpanDiffers(n: Run)
    requires n.Valid() && Int16(n) && n.a1 < 32767 && n.a1 - n.a0 > 32767
    ensures Pixel16(n, 1) != n.Pixel(1) || Pixel16(n, 2) != n.Pixel(2)
  {
    hide Minor, Err, MinorAt, Vars16, I16, TruncHalf, Run.Pixel;
    var dx, dy := n.a1 - n.a0, Abs(n.b1 - n.b0);
    MinorEnds(dx, dy);
    MinorAtBounds(n, 1);
    MinorAtBounds(n, 2);
    MinorAtNext(n, 0);
    MinorAtNext(n, 1);
    FirstTest(dx, dy);
    FirstVars(n);
    NoFixpoint(n.b0, Step(n));
    NoFixpoint(Vars16(n, 1).y, Step(n));
  }

  /** One turn of the loop in int16. */
  lemma FirstVars(n: Run)
    requires Int16(n)
    ensures var (d16, dy16, v1, v2) := (I16(n.a1 - n.a0), I16(Abs(n.b1 - n.b0)), Vars16(n, 1), Vars16(n, 2));
      var e := I16(TruncHalf(d16) - dy16);
      && v1.y == (if e < 0 then I16(n.b0 + Step(n)) else n.b0)
      && (e < 0 ==> v2.y == if I16(I16(e + d16) - dy16) < 0 then I16(v1.y + Step(n)) else v1.y)
  {
    hide *;
    InRange(n);
    VarsNext(n, 0);
    VarsNext(n, 1);
  }

  lemma NoFixpoint(y: int16, step: int)
    requires step == 1 || step == -1
    ensures I16(y + step) != y
  {
  }

  /** The first test of err goes wrong in int16, or else the second does. */
  lemma FirstTest(dx: nat, dy: nat)
    requires 32767 < dx < 65535 && dy <= dx
    ensures var d16, e := I16(dx), I16(TruncHalf(I16(dx)) - I16(dy));
      || (e < 0 <==> dx / 2 - dy >= 0)
      || (e < 0 && dx / 2 - dy == -1 && I16(I16(e + d16) - I16(dy)) < 0 && dx - 1 - dy >= 0)
  {
  }

  lemma PixelExact(n: Run, i: nat)
    requires n.Valid() && Int16(n) && n.a1 < 32767 && n.a1 - n.a0 <= 32767 && i <= n.a1 - n.a0
    ensures Pixel16(n, i) == n.Pixel(i)
  {
    VarsExact(n, i);
    MinorAtBounds(n, i);
    hide Run.Pixel, MinorAt, Vars16;
  }

  /** writeLine ends exactly when the larger major coordinate is not the last one; and it ends with the pixels above
      exactly when, besides, the span fits. */
  lemma WriteLineExactly(x0: int16, y0: int16, x1: int16, y1: int16)
    ensures var n := Normal(x0, y0, x1, y1);
      && Int16(n)
      && (LoopEnds(n.a0, n.a1) <==> n.a1 < 32767)
      && (LoopEnds(n.a0, n.a1) && (forall i: nat | i <= n.a1 - n.a0 :: Pixel16(n, i) == n.Pixel(i))
          <==> n.a1 < 32767 && n.a1 - n.a0 <= 32767)
  {
    var n := Normal(x0, y0, x1, y1);
    LoopEndsExactly(n.a0, n.a1);
    hide LoopEnds, Normal, Run.Pixel, Pixel16;
    if n.a1 < 32767 {
      if n.a1 - n.a0 <= 32767 {
        forall i: nat | i <= n.a1 - n.a0
          ensures Pixel16(n, i) == n.Pixel(i)
        {
          PixelExact(n, i);
        }
      } else {
        WideSpanDiffers(n);
      }
    }
  }

  /** One pixel at the last coordinate is never finished; a level line of 32769 pixels leaves its row at once. */
  lemma WriteLineFails()
    ensures !LoopEnds(32767, 32767) && Normal(32767, 0, 32767, 0) == Run(false, 32767, 0, 32767, 0)
    ensures var n := Normal(-32768, 0, 0, 0); Int16(n) && Pixel16(n, 1) == Point(-32767, -1)
  {
    LoopEndsExactly(32767, 32767);
    LevelLine();
  }

  lemma LevelLine()
    ensures var n := Normal(-32768, 0, 0, 0); Int16(n) && Pixel16(n, 1) == Point(-32767, -1)
  {
    hide Vars16;
    var n := Normal(-32768, 0, 0, 0);
    assert n == Run(false, -32768, 0, 0, 0);
    InRange(n);
    VarsNext(n, 0);
  }
}
