/** The midpoint circle of Adafruit_GFX: outline and once-only fill.

    The virtual drawing calls a method makes (writePixel, writeFastVLine) are returned as
    a trace, in order. */
module Circle {
  import opened Geometry
  import opened Machine

  /** writeFastVLine(x, y, h, color) */
  datatype VLine = VLine(x: int, y: int, h: int) {
    predicate Covers(px: int, py: int) {
      px == x && y <= py < y + h
    }
  }

  // ---------------------------------------------------------------- the set of pixels, in closed form

  /** m is at most the root of r^2 - n^2, rounded to the nearest integer. */
  predicate AtMostRoot(r: int, m: int, n: int) {
    m * m - m + n * n < r * r
  }

  /** m is the root of r^2 - n^2, rounded to the nearest integer. */
  predicate RoundedRoot(r: int, m: int, n: int) {
    AtMostRoot(r, m, n) && r * r <= m * m + m + n * n
  }

  /** These are the tests with halves: m is less than half a unit away from the root, or less than half a unit above. */
  lemma NearestRoot(r: int, m: int, n: int)
    ensures AtMostRoot(r, m, n) <==> (2 * m - 1) * (2 * m - 1) < 4 * (r * r - n * n)
    ensures RoundedRoot(r, m, n)
      <==> (2 * m - 1) * (2 * m - 1) < 4 * (r * r - n * n) < (2 * m + 1) * (2 * m + 1)
  {
    assert (2 * m - 1) * (2 * m - 1) == 4 * (m * m) - 4 * m + 1;
    assert (2 * m + 1) * (2 * m + 1) == 4 * (m * m) + 4 * m + 1;
  }

  /** The offsets a circle of radius r >= 1 fills: symmetric in all eight octants. */
  predicate InDisc(r: int, a: int, b: int) {
    AtMostRoot(r, Max(Abs(a), Abs(b)), Min(Abs(a), Abs(b)))
  }

  /** The offsets of its outline. */
  predicate OnCircle(r: int, a: int, b: int) {
    RoundedRoot(r, Max(Abs(a), Abs(b)), Min(Abs(a), Abs(b)))
  }

  lemma OutlineInDisc(r: int, a: int, b: int)
    requires OnCircle(r, a, b)
    ensures InDisc(r, a, b)
  {
  }

  lemma SquareMonotone(a: int, b: int)
    requires 0 <= a <= b
    ensures a * a <= b * b && a * a - a <= b * b - b
    ensures a < b ==> a * a + a <= b * b - b
  {
    MulMonotone(a, b, a);
    MulMonotone(a, b, b);
    if a < b {
      MulMonotone(a + 1, b, a);
      MulMonotone(a, b - 1, b);
    }
  }

  /** Lower pixels of a column are in the disc whenever higher ones are. */
  lemma DiscColumn(r: int, c: nat, b: nat, b': nat)
    requires b' <= b && InDisc(r, c, b)
    ensures InDisc(r, c, b')
  {
    SquareMonotone(b', b);
    if c <= b' {
    } else if c <= b {
      SquareMonotone(c, b);
      SquareMonotone(b', c);
    }
  }

  /** The height above the centre to which column c of the disc reaches. */
  function ReachBelow(r: nat, c: nat, b: nat): (h: nat)
    ensures h <= b
  {
    if b == 0 || InDisc(r, c, b) then b else ReachBelow(r, c, b - 1)
  }

  function Reach(r: nat, c: nat): (h: nat)
    ensures h <= r
  {
    ReachBelow(r, c, r)
  }

  lemma {:induction false} ReachUnique(r: nat, c: nat, h: nat, top: nat)
    requires h <= top && InDisc(r, c, h) && !InDisc(r, c, h + 1)
    ensures ReachBelow(r, c, top) == h
    decreases top
  {
    if h < top {
      if InDisc(r, c, top) {
        DiscColumn(r, c, top, h + 1);
      }
      ReachUnique(r, c, h, top - 1);
    }
  }

  // ---------------------------------------------------------------- the midpoint recurrence

  /** y after i iterations of the loop (x is then i). */
  function MidY(r: nat, i: nat): int {
    if i == 0 then r
    else
      var y := MidY(r, i - 1);
      if i * i + y * y - y - r * r >= 0 then y - 1 else y
  }

  /** The loop is entered an i-th time. */
  predicate Runs(r: nat, i: nat) {
    i < MidY(r, i)
  }

  /** The decision variable before iteration i + 1. */
  function MidF(r: nat, i: nat): int {
    var y := MidY(r, i);
    (i + 1) * (i + 1) + y * y - y - r * r
  }

  /** One iteration keeps y the rounded root: with y, x and r squared named, this is linear. */
  lemma StepKeepsRoot(r: int, x: int, y: int, x': int, y': int)
    requires RoundedRoot(r, y, x) && x' == x + 1 && 0 <= x < y'
    requires y' == if x' * x' + y * y - y - r * r >= 0 then y - 1 else y
    ensures RoundedRoot(r, y', x')
  {
    StepSquares(x, y);
    StepLinear(r * r, x, x * x, x' * x', y, y * y, y', y' * y');
  }

  lemma StepSquares(x: int, y: int)
    ensures (x + 1) * (x + 1) == x * x + 2 * x + 1
    ensures (y - 1) * (y - 1) == y * y - 2 * y + 1
  {
  }

  lemma StepLinear(rr: int, x: int, xx: int, xx': int, y: int, yy: int, y': int, yy': int)
    requires yy - y + xx < rr <= yy + y + xx
    requires xx' == xx + 2 * x + 1 && 0 <= x < y'
    requires y' == if xx' + yy - y - rr >= 0 then y - 1 else y
    requires yy' == if y' == y then yy else yy - 2 * y + 1
    ensures yy' - y' + xx' < rr <= yy' + y' + xx'
  {
  }

  /** Each plotted y is the rounded root of r^2 - x^2, as long as x <= y. */
  lemma {:induction false} MidpointIsRoundedRoot(r: nat, i: nat)
    requires r >= 1 && i <= MidY(r, i)
    ensures RoundedRoot(r, MidY(r, i), i)
    ensures MidY(r, i) <= r
  {
    if i > 0 {
      MidpointIsRoundedRoot(r, i - 1);
      StepKeepsRoot(r, i - 1, MidY(r, i - 1), i, MidY(r, i));
    } else {
      assert r * r >= 1;
    }
  }

  // ---------------------------------------------------------------- the filled circle

  lemma DiscOctant(r: int, m: int, n: int)
    requires 0 <= n <= m
    ensures InDisc(r, m, n) == InDisc(r, n, m) == AtMostRoot(r, m, n)
  {
  }

  /** On the way up to the diagonal, x's column reaches exactly to y. */
  lemma SteepColumn(r: nat, i: nat)
    requires r >= 1 && i <= MidY(r, i)
    ensures Reach(r, i) == MidY(r, i)
  {
    hide InDisc;
    MidpointIsRoundedRoot(r, i);
    var y := MidY(r, i);
    StepSquares(y, i);
    DiscOctant(r, y, i);
    DiscOctant(r, y + 1, i);
    ReachUnique(r, i, y, r);
  }

  /** When y is about to drop, its column reaches exactly to x. */
  lemma FlatColumn(r: nat, i: nat)
    requires r >= 1 && Runs(r, i) && MidY(r, i + 1) != MidY(r, i)
    ensures Reach(r, MidY(r, i)) == i
  {
    hide InDisc;
    MidpointIsRoundedRoot(r, i);
    DiscOctant(r, MidY(r, i), i);
    DiscOctant(r, MidY(r, i), i + 1);
    ReachUnique(r, MidY(r, i), i, r);
  }

  /** The accumulators of the loop follow the recurrence. */
  lemma Accumulate(r: nat, i: nat)
    ensures MidY(r, i + 1) == if MidF(r, i) >= 0 then MidY(r, i) - 1 else MidY(r, i)
    ensures MidF(r, i + 1) == MidF(r, i) + (if MidF(r, i) >= 0 then -2 * MidY(r, i) + 2 else 0) + 2 * i + 3
  {
    var y := MidY(r, i);
    assert (i + 2) * (i + 2) == (i + 1) * (i + 1) + 2 * i + 3;
    assert (y - 1) * (y - 1) == y * y - 2 * y + 1;
  }

  /** The three accumulators stay in int16 range for radii up to 16383, in every state the
      loop reaches and between its two additions to f. */
  lemma MidpointInt16(r: nat, i: nat)
    requires 1 <= r <= 16383 && (i == 0 || Runs(r, i - 1))
    ensures -32768 <= MidF(r, i) < 32768
    ensures -32768 <= -2 * MidY(r, i) <= 0 < 2 * i + 1 < 32768
    ensures Runs(r, i) && MidF(r, i) >= 0 ==> -32768 <= MidF(r, i) - 2 * MidY(r, i) + 2 < 32768
  {
    if i > 0 {
      MidpointIsRoundedRoot(r, i - 1);
      assert i * i == (i - 1) * (i - 1) + 2 * i - 1;
      Accumulate(r, i - 1);
    }
    if i <= MidY(r, i) {
      MidpointIsRoundedRoot(r, i);
      assert (i + 1) * (i + 1) == i * i + 2 * i + 1;
    }
  }

  function Columns(trace: seq<VLine>): set<int> {
    set l | l in trace :: l.x
  }

  predicate OncePerColumn(trace: seq<VLine>) {
    forall i, j | 0 <= i < j < |trace| :: trace[i].x != trace[j].x
  }

  lemma Append(trace: seq<VLine>, l: VLine)
    requires OncePerColumn(trace) && l.x !in Columns(trace)
    ensures OncePerColumn(trace + [l])
    ensures Columns(trace + [l]) == Columns(trace) + {l.x}
  {
    var t := trace + [l];
    forall i, j | 0 <= i < j < |t| ensures t[i].x != t[j].x {
      if j == |trace| {
        assert trace[i] in trace;
      }
    }
    assert forall m :: m in t <==> m in trace || m == l;
    assert l in t;
  }

  /** Column k of the disc around (x0, y0), with extra rows inserted below its centre. */
  function ColumnLine(x0: int, y0: int, r: nat, extra: int, k: int): VLine {
    var h := Reach(r, Abs(k - x0));
    VLine(k, y0 - h, 2 * h + extra)
  }

  /** The offsets drawn once the loop has reached (x, y). */
  predicate Drawn(r: nat, x: int, y: int, d: int) {
    1 <= d <= Min(x, y) || y < d <= r
  }

  /** corners bit 0 asks for the right half, bit 1 for the left half. */
  predicate Asked(corners: nat, x0: int, r: nat, x: int, y: int, k: int) {
    (corners % 2 == 1 && Drawn(r, x, y, k - x0)) || (corners / 2 % 2 == 1 && Drawn(r, x, y, x0 - k))
  }

  predicate PairHas(corners: nat, x0: int, d: int, k: int) {
    (corners % 2 == 1 && k == x0 + d) || (corners / 2 % 2 == 1 && k == x0 - d)
  }

  /** Both halves of column offset d, as far as corners asks for them. */
  method DrawPair(x0: int, y0: int, r: nat, corners: nat, extra: int, d: nat, h: nat, trace0: seq<VLine>)
      returns (trace: seq<VLine>)
    requires 1 <= d <= r && h == Reach(r, d)
    requires OncePerColumn(trace0) && x0 + d !in Columns(trace0) && x0 - d !in Columns(trace0)
    requires forall l | l in trace0 :: l == ColumnLine(x0, y0, r, extra, l.x)
    ensures OncePerColumn(trace)
    ensures forall l | l in trace :: l == ColumnLine(x0, y0, r, extra, l.x)
    ensures forall k :: k in Columns(trace) <==> k in Columns(trace0) || PairHas(corners, x0, d, k)
  {
    hide Reach;
    trace := trace0;
    if corners % 2 == 1 {
      Append(trace, VLine(x0 + d, y0 - h, 2 * h + extra));
      trace := trace + [VLine(x0 + d, y0 - h, 2 * h + extra)];
    }
    if corners / 2 % 2 == 1 {
      Append(trace, VLine(x0 - d, y0 - h, 2 * h + extra));
      trace := trace + [VLine(x0 - d, y0 - h, 2 * h + extra)];
    }
  }

  lemma AskedStep(corners: nat, x0: int, r: nat, px: nat, py: nat, x: nat, y: nat, k: int)
    requires px < py <= r && x == px + 1 && (y == py || y == py - 1)
    ensures Asked(corners, x0, r, x, y, k)
      <==> (Asked(corners, x0, r, px, py, k) || (x <= y && PairHas(corners, x0, x, k))
            || (y != py && PairHas(corners, x0, py, k)))
  {
  }

  /** What the helper has drawn when the loop stands at (x, y). */
  ghost predicate Filled(trace: seq<VLine>, x0: int, y0: int, r: nat, corners: nat, extra: int, x: int, y: int) {
    && OncePerColumn(trace)
    && (forall l | l in trace :: l == ColumnLine(x0, y0, r, extra, l.x))
    && (forall k :: k in Columns(trace) <==> Asked(corners, x0, r, x, y, k))
  }

  /** The drawing part of one iteration, which has moved from (px, py) to (x, y). */
  method DrawStep(x0: int, y0: int, r: nat, corners: nat, delta: int, px: nat, py: nat, x: nat, y: nat,
      trace0: seq<VLine>)
    returns (trace: seq<VLine>)
    requires px < py <= r && x == px + 1 && (y == py || y == py - 1)
    requires x <= y ==> Reach(r, x) == y
    requires y != py ==> Reach(r, py) == px
    requires Filled(trace0, x0, y0, r, corners, delta, px, py)
    ensures Filled(trace, x0, y0, r, corners, delta, x, y)
  {
    hide Reach, Columns;
    trace := trace0;
    forall k
      ensures Asked(corners, x0, r, x, y, k)
        <==> (Asked(corners, x0, r, px, py, k) || (x <= y && PairHas(corners, x0, x, k))
              || (y != py && PairHas(corners, x0, py, k)))
    {
      AskedStep(corners, x0, r, px, py, x, y, k);
    }
    if x < y + 1 {
      assert !Asked(corners, x0, r, px, py, x0 + x) && !Asked(corners, x0, r, px, py, x0 - x);
      trace := DrawPair(x0, y0, r, corners, delta, x, y, trace);
    }
    if y != py {
      assert x0 + py !in Columns(trace) && x0 - py !in Columns(trace);
      trace := DrawPair(x0, y0, r, corners, delta, py, px, trace);
    }
  }

  method FillCircleHelper(x0: int, y0: int, r: int, corners: nat, delta0: int) returns (trace: seq<VLine>)
    ensures OncePerColumn(trace)
    ensures r < 0 ==> trace == []
    ensures r >= 0 ==> forall l | l in trace :: l == ColumnLine(x0, y0, r, delta0 + 1, l.x)
    ensures r >= 0 ==> forall k :: k in Columns(trace) <==>
      (corners % 2 == 1 && 1 <= k - x0 <= r) || (corners / 2 % 2 == 1 && 1 <= x0 - k <= r)
  {
    var f, ddFx, ddFy := 1 - r, 1, -2 * r;
    var x, y := 0, r;
    var px, py := x, y;
    var delta := delta0 + 1;
    trace := [];
    if r < 0 {
      return;
    }
    while x < y
      invariant 0 <= x <= y + 1 && 0 <= y <= r
      invariant y == MidY(r, x) && f == MidF(r, x)
      invariant ddFx == 2 * x + 1 && ddFy == -2 * y
      invariant px == x && py == y
      invariant Filled(trace, x0, y0, r, corners, delta, x, y)
      decreases y - x
    {
      hide Filled, MidF;
      Accumulate(r, x);
      if f >= 0 {
        y := y - 1;
        ddFy := ddFy + 2;
        f := f + ddFy;
      }
      x := x + 1;
      ddFx := ddFx + 2;
      f := f + ddFx;
      if x <= y {
        SteepColumn(r, x);
      }
      if y != py {
        FlatColumn(r, px);
      }
      trace := DrawStep(x0, y0, r, corners, delta, px, py, x, y, trace);
      py := y;
      px := x;
    }
  }

  /** Reach tells membership of the disc, column by column. */
  lemma {:induction false} ReachExact(r: nat, c: nat, top: nat, b: nat)
    requires r >= 1 && c <= r && b <= top
    ensures b <= ReachBelow(r, c, top) <==> InDisc(r, c, b)
    decreases top
  {
    hide InDisc;
    if top == 0 {
      SquareMonotone(c, r);
      DiscOctant(r, c, 0);
    } else if InDisc(r, c, top) {
      DiscColumn(r, c, top, b);
    } else if b < top {
      ReachExact(r, c, top - 1, b);
    }
  }

  lemma ReachTells(r: nat, c: nat, b: nat)
    requires r >= 1 && c <= r && b <= r
    ensures b <= Reach(r, c) <==> InDisc(r, c, b)
  {
    ReachExact(r, c, r, b);
  }

  lemma BeyondRadius(r: nat, c: nat, b: nat)
    requires r < b
    ensures !InDisc(r, c, b)
  {
    if c <= b {
      SquareMonotone(r, b);
    } else {
      SquareMonotone(r, c);
    }
  }

  /** A column line covers the rows the disc has in that column. */
  lemma ColumnLineCovers(x0: int, y0: int, r: nat, k: int, py: int)
    requires r >= 1 && Abs(k - x0) <= r
    ensures ColumnLine(x0, y0, r, 1, k).Covers(k, py) <==> InDisc(r, k - x0, py - y0)
  {
    var c, b := Abs(k - x0), Abs(py - y0);
    assert InDisc(r, k - x0, py - y0) == InDisc(r, c, b);
    hide InDisc;
    if b <= r {
      ReachExact(r, c, r, b);
    } else {
      BeyondRadius(r, c, b);
    }
  }

  ghost predicate Covered(trace: seq<VLine>, px: int, py: int) {
    exists l :: l in trace && l.Covers(px, py)
  }

  /** Each column from x0 - r to x0 + r is drawn exactly once, and together the lines cover
      exactly the disc. */
  method FillCircle(x0: int, y0: int, r: int) returns (trace: seq<VLine>)
    ensures OncePerColumn(trace)
    ensures r <= 0 ==> trace == [VLine(x0, y0 - r, 2 * r + 1)]
    ensures r >= 1 ==> forall k :: k in Columns(trace) <==> x0 - r <= k <= x0 + r
    ensures r >= 1 ==> forall l | l in trace :: l == ColumnLine(x0, y0, r, 1, l.x)
    ensures r >= 1 ==> forall px, py :: Covered(trace, px, py) <==> InDisc(r, px - x0, py - y0)
  {
    var rest := FillCircleHelper(x0, y0, r, 3, 0);
    var centre := VLine(x0, y0 - r, 2 * r + 1);
    trace := [centre] + rest;
    CentreFirst(centre, rest);
    assert rest != [] ==> rest[0].x in Columns(rest);
    if r >= 1 {
      SteepColumn(r, 0);
      assert centre == ColumnLine(x0, y0, r, 1, x0);
      forall px, py ensures Covered(trace, px, py) <==> InDisc(r, px - x0, py - y0) {
        FilledCovers(trace, x0, y0, r, px, py);
      }
    }
  }

  lemma CentreFirst(l: VLine, rest: seq<VLine>)
    requires OncePerColumn(rest) && l.x !in Columns(rest)
    ensures OncePerColumn([l] + rest)
    ensures Columns([l] + rest) == Columns(rest) + {l.x}
    ensures forall m :: m in [l] + rest <==> m == l || m in rest
  {
    var t := [l] + rest;
    assert forall m :: m in t <==> m == l || m in rest;
    forall i, j | 0 <= i < j < |t| ensures t[i].x != t[j].x {
      assert t[j] in rest;
      if i > 0 {
        assert t[i] == rest[i - 1] && t[j] == rest[j - 1];
      }
    }
  }

  lemma FilledCovers(trace: seq<VLine>, x0: int, y0: int, r: nat, px: int, py: int)
    requires r >= 1
    requires forall k :: k in Columns(trace) <==> x0 - r <= k <= x0 + r
    requires forall l | l in trace :: l == ColumnLine(x0, y0, r, 1, l.x)
    ensures Covered(trace, px, py) <==> InDisc(r, px - x0, py - y0)
  {
    if x0 - r <= px <= x0 + r {
      assert px in Columns(trace);
      ColumnLineCovers(x0, y0, r, px, py);
      assert ColumnLine(x0, y0, r, 1, px) in trace;
    } else {
      BeyondRadius(r, Abs(py - y0), Abs(px - x0));
      forall l | l in trace ensures !l.Covers(px, py) {
        assert l.x in Columns(trace);
      }
    }
  }

  // ---------------------------------------------------------------- the outline

  /** The eight reflections of an offset. */
  function Octants(x0: int, y0: int, x: int, y: int): seq<Point> {
    [Point(x0 + x, y0 + y), Point(x0 - x, y0 + y), Point(x0 + x, y0 - y), Point(x0 - x, y0 - y),
     Point(x0 + y, y0 + x), Point(x0 - y, y0 + x), Point(x0 + y, y0 - x), Point(x0 - y, y0 - x)]
  }

  ghost predicate HasOctants(trace: seq<Point>, x0: int, y0: int, x: int, y: int) {
    forall p | p in Octants(x0, y0, x, y) :: p in trace
  }

  lemma OctantsOnCircle(x0: int, y0: int, r: int, x: nat, y: nat)
    requires RoundedRoot(r, Max(x, y), Min(x, y))
    ensures forall p | p in Octants(x0, y0, x, y) :: OnCircle(r, p.x - x0, p.y - y0)
  {
    hide RoundedRoot;
    forall p | p in Octants(x0, y0, x, y) ensures OnCircle(r, p.x - x0, p.y - y0) {
      var a, b := Abs(p.x - x0), Abs(p.y - y0);
      assert (a == x && b == y) || (a == y && b == x);
    }
  }

  lemma AllOctants(x0: int, y0: int, a: int, b: int)
    ensures Point(x0 + a, y0 + b) in Octants(x0, y0, Min(Abs(a), Abs(b)), Max(Abs(a), Abs(b)))
  {
    var x, y := Min(Abs(a), Abs(b)), Max(Abs(a), Abs(b));
    var o := Octants(x0, y0, x, y);
    assert o[0] in o && o[1] in o && o[2] in o && o[3] in o && o[4] in o && o[5] in o && o[6] in o && o[7] in o;
  }

  lemma RootUnique(r: int, m: nat, m': nat, n: int)
    requires RoundedRoot(r, m, n) && RoundedRoot(r, m', n)
    ensures m == m'
  {
    if m < m' {
      SquareMonotone(m, m');
    } else if m' < m {
      SquareMonotone(m', m);
    }
  }

  /** Past the point where the loop stops there are no octant points left. */
  lemma NothingBeyond(r: nat, x: nat, m: nat, n: nat)
    requires r >= 1 && x >= 1 && Runs(r, x - 1) && !Runs(r, x) && m >= n
    ensures AtMostRoot(r, m, n) ==> n < x || (n == x && MidY(r, x) >= x)
  {
    MidpointIsRoundedRoot(r, x - 1);
    SquareMonotone(n, m);
    if n >= x {
      SquareMonotone(x, n);
    }
    if MidY(r, x) == x {
      MidpointIsRoundedRoot(r, x);
    }
  }

  lemma StartF(r: nat)
    ensures MidY(r, 0) == r && MidF(r, 0) == 1 - r
  {
  }

  /** What has been plotted after x iterations. */
  ghost predicate Outlined(trace: seq<Point>, x0: int, y0: int, r: nat, x: nat) {
    && (forall i: nat | i < x :: Runs(r, i))
    && (forall i: nat | i <= x :: HasOctants(trace, x0, y0, i, MidY(r, i)))
    && (forall p | p in trace :: OnCircle(r, p.x - x0, p.y - y0))
  }

  /** Even when the last iteration oversteps the diagonal it plots points of the circle. */
  lemma StepOnCircle(r: nat, x: nat)
    requires r >= 1 && Runs(r, x)
    ensures 0 <= MidY(r, x + 1)
    ensures RoundedRoot(r, Max(x + 1, MidY(r, x + 1)), Min(x + 1, MidY(r, x + 1)))
  {
    MidpointIsRoundedRoot(r, x);
    if x + 1 <= MidY(r, x + 1) {
      MidpointIsRoundedRoot(r, x + 1);
    }
  }

  lemma OutlineStarts(trace: seq<Point>, x0: int, y0: int, r: nat)
    requires r >= 1
    requires trace == [Point(x0, y0 + r), Point(x0, y0 - r), Point(x0 + r, y0), Point(x0 - r, y0)]
    ensures Outlined(trace, x0, y0, r, 0)
  {
    MidpointIsRoundedRoot(r, 0);
    OctantsOnCircle(x0, y0, r, 0, r);
    assert trace[0] in trace && trace[1] in trace && trace[2] in trace && trace[3] in trace;
    var o := Octants(x0, y0, 0, r);
    assert o[0] in o && o[2] in o && o[4] in o && o[5] in o;
  }

  lemma OutlineGrows(trace: seq<Point>, x0: int, y0: int, r: nat, x: nat)
    requires r >= 1 && Runs(r, x) && Outlined(trace, x0, y0, r, x)
    ensures Outlined(trace + Octants(x0, y0, x + 1, MidY(r, x + 1)), x0, y0, r, x + 1)
  {
    hide OnCircle, Octants, RoundedRoot;
    StepOnCircle(r, x);
    var y := MidY(r, x + 1);
    OctantsOnCircle(x0, y0, r, x + 1, y);
    var t := trace + Octants(x0, y0, x + 1, y);
    forall i: nat | i <= x + 1 ensures HasOctants(t, x0, y0, i, MidY(r, i)) {
      if i <= x {
        assert HasOctants(trace, x0, y0, i, MidY(r, i));
      }
    }
  }

  lemma OutlineExact(trace: seq<Point>, x0: int, y0: int, r: nat, x: nat, px: int, py: int)
    requires r >= 1 && !Runs(r, x) && Outlined(trace, x0, y0, r, x)
    ensures Point(px, py) in trace <==> OnCircle(r, px - x0, py - y0)
  {
    if OnCircle(r, px - x0, py - y0) {
      OutlineComplete(trace, x0, y0, r, x, px - x0, py - y0);
    }
  }

  lemma OutlineComplete(trace: seq<Point>, x0: int, y0: int, r: nat, x: nat, a: int, b: int)
    requires r >= 1 && !Runs(r, x) && Outlined(trace, x0, y0, r, x)
    requires OnCircle(r, a, b)
    ensures Point(x0 + a, y0 + b) in trace
  {
    hide Octants, AtMostRoot;
    var m, n := Max(Abs(a), Abs(b)), Min(Abs(a), Abs(b));
    assert x >= 1 && Runs(r, x - 1);
    NothingBeyond(r, x, m, n);
    assert n < x ==> Runs(r, n);
    MidpointIsRoundedRoot(r, n);
    RootUnique(r, m, MidY(r, n), n);
    AllOctants(x0, y0, a, b);
    assert HasOctants(trace, x0, y0, n, MidY(r, n));
  }

  /** The outline is exactly the set of offsets whose larger coordinate is the rounded root. */
  method DrawCircle(x0: int, y0: int, r: int) returns (trace: seq<Point>)
    ensures r <= 0 ==> trace == [Point(x0, y0 + r), Point(x0, y0 - r), Point(x0 + r, y0), Point(x0 - r, y0)]
    ensures r >= 1 ==> forall px, py :: Point(px, py) in trace <==> OnCircle(r, px - x0, py - y0)
  {
    var f, ddFx, ddFy := 1 - r, 1, -2 * r;
    var x, y := 0, r;
    trace := [Point(x0, y0 + r), Point(x0, y0 - r), Point(x0 + r, y0), Point(x0 - r, y0)];
    if r <= 0 {
      return;
    }
    hide Octants, OnCircle, Outlined, MidY, MidF;
    OutlineStarts(trace, x0, y0, r);
    StartF(r);
    while x < y
      invariant 0 <= x && 0 <= y
      invariant y == MidY(r, x) && f == MidF(r, x)
      invariant ddFx == 2 * x + 1 && ddFy == -2 * y
      invariant Outlined(trace, x0, y0, r, x)
      decreases y - x
    {
      Accumulate(r, x);
      StepOnCircle(r, x);
      OutlineGrows(trace, x0, y0, r, x);
      if f >= 0 {
        y := y - 1;
        ddFy := ddFy + 2;
        f := f + ddFy;
      }
      x := x + 1;
      ddFx := ddFx + 2;
      f := f + ddFx;
      trace := trace + Octants(x0, y0, x, y);
    }
    forall px, py ensures Point(px, py) in trace <==> OnCircle(r, px - x0, py - y0) {
      OutlineExact(trace, x0, y0, r, x, px, py);
    }
  }
}
