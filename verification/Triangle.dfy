/** The scanline triangle fill of Adafruit_GFX. */
module Triangle {
  import opened Geometry
  import opened Machine

  /** writeFastHLine(x, y, w, color) */
  datatype HLine = HLine(x: int, y: int, w: int) {
    predicate Covers(p: Point) {
      p.y == y && x <= p.x < x + w
    }
  }

  /** Vertices from top to bottom. */
  datatype Tri = Tri(p0: Point, p1: Point, p2: Point) {
    predicate Ordered() {
      p0.y <= p1.y <= p2.y
    }

    predicate Flat() {
      p0.y == p2.y
    }
  }

  function SortedByY(a: Point, b: Point, c: Point): (t: Tri)
    ensures t.Ordered()
  {
    var (a1, b1) := if a.y > b.y then (b, a) else (a, b);
    var (b2, c2) := if b1.y > c.y then (c, b1) else (b1, c);
    var (a3, b3) := if a1.y > b2.y then (b2, a1) else (a1, b2);
    Tri(a3, b3, c2)
  }

  /** Where the edge from p down to q crosses scanline y. */
  function EdgeX(p: Point, q: Point, y: int): int
    requires p.y < q.y
  {
    p.x + TruncDiv((q.x - p.x) * (y - p.y), q.y - p.y)
  }

  /** Crossing with the two short edges; the middle scanline belongs to the lower one unless that is level. */
  function ShortX(t: Tri, y: int): int
    requires t.Ordered() && !t.Flat() && t.p0.y <= y <= t.p2.y
  {
    if y < t.p1.y || t.p1.y == t.p2.y then EdgeX(t.p0, t.p1, y) else EdgeX(t.p1, t.p2, y)
  }

  /** The span of one scanline. */
  function Row(t: Tri, y: int): HLine
    requires t.Ordered() && !t.Flat() && t.p0.y <= y <= t.p2.y
  {
    var a, b := ShortX(t, y), EdgeX(t.p0, t.p2, y);
    HLine(Min(a, b), y, Abs(b - a) + 1)
  }

  /** The first m scanlines. */
  function Rows(t: Tri, m: nat): seq<HLine>
    requires t.Ordered() && !t.Flat() && m <= t.p2.y - t.p0.y + 1
  {
    seq(m, i requires 0 <= i < m => Row(t, t.p0.y + i))
  }

  /** Everything fillTriangle draws for ordered vertices. */
  function Fill(t: Tri): seq<HLine>
    requires t.Ordered()
  {
    if t.Flat() then
      var lo, hi := Min(t.p0.x, Min(t.p1.x, t.p2.x)), Max(t.p0.x, Max(t.p1.x, t.p2.x));
      [HLine(lo, t.p0.y, hi - lo + 1)]
    else Rows(t, t.p2.y - t.p0.y + 1)
  }

  lemma ProductStep(d: int, k: int)
    ensures d * (k + 1) == d * k + d && d * 0 == 0
  {
  }

  method FillTriangle(v0: Point, v1: Point, v2: Point) returns (trace: seq<HLine>)
    ensures trace == Fill(SortedByY(v0, v1, v2))
  {
    var p0, p1, p2 := v0, v1, v2;
    if p0.y > p1.y { p0, p1 := p1, p0; }
    if p1.y > p2.y { p1, p2 := p2, p1; }
    if p0.y > p1.y { p0, p1 := p1, p0; }
    ghost var t := SortedByY(v0, v1, v2);
    assert t == Tri(p0, p1, p2);

    if p0.y == p2.y {
      var a, b := p0.x, p0.x;
      if p1.x < a { a := p1.x; } else if p1.x > b { b := p1.x; }
      if p2.x < a { a := p2.x; } else if p2.x > b { b := p2.x; }
      return [HLine(a, p0.y, b - a + 1)];
    }
    trace := FillRows(p0, p1, p2);
  }

  lemma NextRow(t: Tri, y: int)
    requires t.Ordered() && !t.Flat() && t.p0.y <= y <= t.p2.y
    ensures Rows(t, y - t.p0.y + 1) == Rows(t, y - t.p0.y) + [Row(t, y)]
  {
  }

  /** The loop over the part above the middle vertex. */
  method UpperRows(p0: Point, p1: Point, p2: Point) returns (trace: seq<HLine>, y: int)
    requires Tri(p0, p1, p2).Ordered() && p0.y < p2.y
    ensures y == if p1.y == p2.y then p2.y + 1 else p1.y
    ensures trace == Rows(Tri(p0, p1, p2), y - p0.y)
  {
    ghost var t := Tri(p0, p1, p2);
    var dx01, dy01 := p1.x - p0.x, p1.y - p0.y;
    var dx02, dy02 := p2.x - p0.x, p2.y - p0.y;
    var sa, sb := 0, 0;
    var last := if p1.y == p2.y then p1.y else p1.y - 1;
    y := p0.y;
    trace := [];
    while y <= last
      invariant p0.y <= y <= last + 1
      invariant sa == dx01 * (y - p0.y) && sb == dx02 * (y - p0.y)
      invariant trace == Rows(t, y - p0.y)
    {
      hide Rows, TruncDiv;
      NextRow(t, y);
      ProductStep(dx01, y - p0.y);
      ProductStep(dx02, y - p0.y);
      var a, b := p0.x + TruncDiv(sa, dy01), p0.x + TruncDiv(sb, dy02);
      assert a == ShortX(t, y) && b == EdgeX(p0, p2, y);
      sa, sb := sa + dx01, sb + dx02;
      if a > b { a, b := b, a; }
      trace := trace + [HLine(a, y, b - a + 1)];
      y := y + 1;
    }
  }

  /** The two scanline loops. */
  method FillRows(p0: Point, p1: Point, p2: Point) returns (trace: seq<HLine>)
    requires Tri(p0, p1, p2).Ordered() && p0.y < p2.y
    ensures trace == Fill(Tri(p0, p1, p2))
  {
    ghost var t := Tri(p0, p1, p2);
    var dx12, dy12 := p2.x - p1.x, p2.y - p1.y;
    var dx02, dy02 := p2.x - p0.x, p2.y - p0.y;
    var y;
    trace, y := UpperRows(p0, p1, p2);
    var sa, sb := dx12 * (y - p1.y), dx02 * (y - p0.y);
    while y <= p2.y
      invariant p0.y <= y <= p2.y + 1 && (y <= p2.y ==> p1.y <= y && dy12 > 0)
      invariant sa == dx12 * (y - p1.y) && sb == dx02 * (y - p0.y)
      invariant trace == Rows(t, y - p0.y)
    {
      hide Rows, TruncDiv;
      NextRow(t, y);
      ProductStep(dx12, y - p1.y);
      ProductStep(dx02, y - p0.y);
      var a, b := p1.x + TruncDiv(sa, dy12), p0.x + TruncDiv(sb, dy02);
      assert a == ShortX(t, y) && b == EdgeX(p0, p2, y);
      sa, sb := sa + dx12, sb + dx02;
      if a > b { a, b := b, a; }
      trace := trace + [HLine(a, y, b - a + 1)];
      y := y + 1;
    }
  }

  // ---------------------------------------------------------------- what the fill looks like

  lemma DivBetween(a: nat, d: nat, m: nat)
    requires d > 0 && a <= m * d
    ensures 0 <= a / d <= m
    ensures a == m * d ==> a / d == m
    ensures 0 <= a - a / d * d < d
  {
    var q := a / d;
    assert q * d <= a < q * d + d;
    if q > m {
      MulMonotone(m + 1, q, d);
    } else if q < m {
      MulMonotone(q + 1, m, d);
    }
  }

  /** A quotient truncated toward zero lies between zero and the full offset,
      less than one away from the exact value. */
  lemma TruncBetween(a: int, d: int, m: int)
    requires d > 0 && (0 <= a <= m * d || m * d <= a <= 0)
    ensures 0 <= TruncDiv(a, d) <= m || m <= TruncDiv(a, d) <= 0
    ensures a == m * d ==> TruncDiv(a, d) == m
    ensures Abs(TruncDiv(a, d) * d - a) < d
  {
    if a > 0 {
      if m < 0 {
        MulMonotone(m, 0, d);
      }
      DivBetween(a, d, m);
    } else if a < 0 {
      if m > 0 {
        MulMonotone(0, m, d);
      }
      assert -m * d == -(m * d);
      DivBetween(-a, d, -m);
      assert -(-a / d) * d == -(-a / d * d);
    } else if m > 0 {
      MulMonotone(1, m, d);
    } else if m < 0 {
      MulMonotone(m, -1, d);
    }
  }

  /** A crossing lies between the edge's endpoints, hits them exactly, and is otherwise less than
      one pixel from the exact intersection. */
  lemma EdgeCrossing(p: Point, q: Point, y: int)
    requires p.y < q.y && p.y <= y <= q.y
    ensures Min(p.x, q.x) <= EdgeX(p, q, y) <= Max(p.x, q.x)
    ensures EdgeX(p, q, p.y) == p.x && EdgeX(p, q, q.y) == q.x
    ensures Abs((EdgeX(p, q, y) - p.x) * (q.y - p.y) - (q.x - p.x) * (y - p.y)) < q.y - p.y
  {
    var dx, dy, k := q.x - p.x, q.y - p.y, y - p.y;
    if dx >= 0 {
      MulMonotone(0, k, dx);
      MulMonotone(k, dy, dx);
    } else {
      MulMonotone(0, k, -dx);
      MulMonotone(k, dy, -dx);
      assert k * -dx == -(k * dx) && dy * -dx == -(dy * dx);
    }
    TruncBetween(dx * k, dy, dx);
    ProductStep(dx, 0);
    TruncBetween(dx * 0, dy, dx);
    TruncBetween(dx * dy, dy, dx);
  }

  /** x is where the edge from p down to q crosses row y, rounded toward the side of p. */
  predicate Crosses(p: Point, q: Point, y: int, x: int) {
    var (exact, there, dy) := ((q.x - p.x) * (y - p.y), (x - p.x) * (q.y - p.y), q.y - p.y);
    (exact >= 0 ==> exact - dy < there <= exact) && (exact <= 0 ==> exact <= there < exact + dy)
  }

  lemma CrossesUnique(p: Point, q: Point, y: int, x: int)
    requires p.y < q.y
    ensures Crosses(p, q, y, x) <==> x == EdgeX(p, q, y)
  {
    var (a, dy) := ((q.x - p.x) * (y - p.y), q.y - p.y);
    TruncBounds(a, dy);
    hide TruncDiv;
    var (k, e) := (x - p.x, EdgeX(p, q, y) - p.x);
    assert e == TruncDiv(a, dy);
    if k < e {
      MulMonotone(k + 1, e, dy);
      assert (k + 1) * dy == k * dy + dy;
    } else if e < k {
      MulMonotone(e + 1, k, dy);
      assert (e + 1) * dy == e * dy + dy;
    }
  }

  /** A pixel is filled if and only if it lies on or between the two crossings of its row: with the edge from top to
      bottom, and with the edge that joins the middle vertex there. */
  lemma FilledExactly(t: Tri, x: int, y: int, a: int, b: int)
    requires t.Ordered() && !t.Flat() && t.p0.y <= y <= t.p2.y
    requires Crosses(t.p0, t.p2, y, b)
    requires if y < t.p1.y || t.p1.y == t.p2.y then Crosses(t.p0, t.p1, y, a) else Crosses(t.p1, t.p2, y, a)
    ensures Covers(Fill(t), Point(x, y)) <==> a <= x <= b || b <= x <= a
  {
    hide Crosses, EdgeX;
    CrossesUnique(t.p0, t.p2, y, b);
    if y < t.p1.y || t.p1.y == t.p2.y {
      CrossesUnique(t.p0, t.p1, y, a);
    } else {
      CrossesUnique(t.p1, t.p2, y, a);
    }
    hide ShortX;
    var f := Fill(t);
    assert forall i | 0 <= i < |f| :: f[i] == Row(t, t.p0.y + i);
    assert f[y - t.p0.y] == Row(t, y);
  }

  /** Nothing is filled above or below the triangle, and of a triangle on a single row the pixels from its first to its
      last vertex are. */
  lemma FilledRows(t: Tri, p: Point)
    requires t.Ordered()
    ensures !(t.p0.y <= p.y <= t.p2.y) ==> !Covers(Fill(t), p)
    ensures t.Flat() && p.y == t.p0.y ==> (Covers(Fill(t), p) <==>
      (p.x <= t.p0.x || p.x <= t.p1.x || p.x <= t.p2.x) && (t.p0.x <= p.x || t.p1.x <= p.x || t.p2.x <= p.x))
  {
    hide EdgeX, ShortX;
    var f := Fill(t);
    if t.Flat() {
      assert Covers(f, p) <==> f[0].Covers(p);
    } else {
      assert forall i | 0 <= i < |f| :: f[i] == Row(t, t.p0.y + i);
    }
  }

  /** Every scanline from the highest to the lowest vertex is drawn exactly once, in order. */
  lemma ScanlinesOnce(a: Point, b: Point, c: Point, i: nat)
    requires i < |Fill(SortedByY(a, b, c))|
    ensures var f := Fill(SortedByY(a, b, c));
      && |f| == Max(a.y, Max(b.y, c.y)) - Min(a.y, Min(b.y, c.y)) + 1
      && f[i].y == Min(a.y, Min(b.y, c.y)) + i
  {
    var t := SortedByY(a, b, c);
    assert t.p0.y == Min(a.y, Min(b.y, c.y));
    hide SortedByY, EdgeX, ShortX;
    if !t.Flat() {
      assert Fill(t)[i] == Row(t, t.p0.y + i);
    }
  }

  lemma RowInside(t: Tri, y: int)
    requires t.Ordered() && !t.Flat() && t.p0.y <= y <= t.p2.y
    ensures var r := Row(t, y);
      && r.w >= 1
      && Min(t.p0.x, Min(t.p1.x, t.p2.x)) <= r.x && r.x + r.w - 1 <= Max(t.p0.x, Max(t.p1.x, t.p2.x))
  {
    hide EdgeX;
    EdgeCrossing(t.p0, t.p2, y);
    if y < t.p1.y || t.p1.y == t.p2.y {
      EdgeCrossing(t.p0, t.p1, y);
    } else {
      EdgeCrossing(t.p1, t.p2, y);
    }
  }

  /** No scanline leaves the bounding box of the vertices, and none is empty. */
  lemma InsideBoundingBox(a: Point, b: Point, c: Point, i: nat)
    requires i < |Fill(SortedByY(a, b, c))|
    ensures var l := Fill(SortedByY(a, b, c))[i];
      && l.w >= 1
      && Min(a.x, Min(b.x, c.x)) <= l.x && l.x + l.w - 1 <= Max(a.x, Max(b.x, c.x))
  {
    var t := SortedByY(a, b, c);
    if !t.Flat() {
      RowInside(t, t.p0.y + i);
    }
  }

  ghost predicate Covers(trace: seq<HLine>, p: Point) {
    exists i :: 0 <= i < |trace| && trace[i].Covers(p)
  }

  lemma RowCovers(t: Tri, p: Point)
    requires t.Ordered() && !t.Flat() && t.p0.y <= p.y <= t.p2.y
    requires p.x == ShortX(t, p.y) || p.x == EdgeX(t.p0, t.p2, p.y)
    ensures Covers(Fill(t), p)
  {
    hide EdgeX, ShortX;
    assert Fill(t)[p.y - t.p0.y] == Row(t, p.y);
  }

  lemma OrderedVerticesCovered(t: Tri)
    requires t.Ordered()
    ensures Covers(Fill(t), t.p0) && Covers(Fill(t), t.p1) && Covers(Fill(t), t.p2)
  {
    if t.Flat() {
      var l := Fill(t)[0];
      assert l.Covers(t.p0) && l.Covers(t.p1) && l.Covers(t.p2);
    } else {
      EdgeCrossing(t.p0, t.p2, t.p0.y);
      if t.p1.y == t.p2.y {
        EdgeCrossing(t.p0, t.p1, t.p1.y);
      } else {
        EdgeCrossing(t.p1, t.p2, t.p1.y);
      }
      hide EdgeX;
      RowCovers(t, t.p0);
      RowCovers(t, t.p1);
      RowCovers(t, t.p2);
    }
  }

  /** All three vertices are filled. */
  lemma VerticesCovered(a: Point, b: Point, c: Point)
    ensures var f := Fill(SortedByY(a, b, c)); Covers(f, a) && Covers(f, b) && Covers(f, c)
  {
    OrderedVerticesCovered(SortedByY(a, b, c));
  }

  /** Vertices level with each other may come in either order. */
  lemma TiesDoNotMatter(t: Tri, u: Tri)
    requires t.Ordered() && u.Ordered()
    requires || t == u
             || (t.p0.y == t.p1.y && u == Tri(t.p1, t.p0, t.p2))
             || (t.p1.y == t.p2.y && u == Tri(t.p0, t.p2, t.p1))
    ensures Fill(t) == Fill(u)
  {
    hide EdgeX;
    if !t.Flat() {
      forall y | t.p0.y <= y <= t.p2.y ensures Row(t, y) == Row(u, y) {
      }
    }
  }

  lemma FlatOrderIrrelevant(t: Tri, u: Tri)
    requires t.Ordered() && u.Ordered() && t.Flat() && u.Flat()
    requires multiset{t.p0, t.p1, t.p2} == multiset{u.p0, u.p1, u.p2}
    ensures Fill(t) == Fill(u)
  {
    assert u.p0 in multiset{t.p0, t.p1, t.p2} && u.p1 in multiset{t.p0, t.p1, t.p2}
      && u.p2 in multiset{t.p0, t.p1, t.p2};
    assert t.p0 in multiset{u.p0, u.p1, u.p2} && t.p1 in multiset{u.p0, u.p1, u.p2}
      && t.p2 in multiset{u.p0, u.p1, u.p2};
  }

  lemma PairUnique(a: Point, b: Point, c: Point, d: Point)
    requires multiset{a, b} == multiset{c, d}
    ensures (a == c && b == d) || (a == d && b == c)
  {
    assert a in multiset{c, d} && b in multiset{c, d} && c in multiset{a, b} && d in multiset{a, b};
  }

  /** Two orderings of the same vertices differ only in level neighbours. */
  lemma OrderedUnique(t: Tri, u: Tri)
    requires t.Ordered() && u.Ordered() && !t.Flat()
    requires multiset{t.p0, t.p1, t.p2} == multiset{u.p0, u.p1, u.p2}
    ensures || t == u
            || (t.p0.y == t.p1.y && u == Tri(t.p1, t.p0, t.p2))
            || (t.p1.y == t.p2.y && u == Tri(t.p0, t.p2, t.p1))
  {
    var m := multiset{t.p0, t.p1, t.p2};
    assert u.p0 in m && u.p1 in m && u.p2 in m;
    if u.p0 == t.p0 {
      assert multiset{t.p1, t.p2} == m - multiset{t.p0} == multiset{u.p1, u.p2};
      PairUnique(t.p1, t.p2, u.p1, u.p2);
    } else if u.p0 == t.p1 {
      assert multiset{t.p0, t.p2} == m - multiset{t.p1} == multiset{u.p1, u.p2};
      PairUnique(t.p0, t.p2, u.p1, u.p2);
    }
  }

  lemma SortKeepsVertices(a: Point, b: Point, c: Point)
    ensures var t := SortedByY(a, b, c); multiset{t.p0, t.p1, t.p2} == multiset{a, b, c}
  {
  }

  /** The same vertices in any order give the same scanlines. */
  lemma VertexOrderIrrelevant(a: Point, b: Point, c: Point, a': Point, b': Point, c': Point)
    requires multiset{a, b, c} == multiset{a', b', c'}
    ensures Fill(SortedByY(a, b, c)) == Fill(SortedByY(a', b', c'))
  {
    SortKeepsVertices(a, b, c);
    SortKeepsVertices(a', b', c');
    var t, u := SortedByY(a, b, c), SortedByY(a', b', c');
    hide SortedByY, Fill;
    if t.Flat() {
      LevelVertices(t, u);
      FlatOrderIrrelevant(t, u);
    } else {
      OrderedUnique(t, u);
      TiesDoNotMatter(t, u);
    }
  }

  lemma LevelVertices(t: Tri, u: Tri)
    requires t.Ordered() && t.Flat()
    requires multiset{t.p0, t.p1, t.p2} == multiset{u.p0, u.p1, u.p2}
    ensures u.Flat()
  {
    assert u.p0 in multiset{t.p0, t.p1, t.p2} && u.p2 in multiset{t.p0, t.p1, t.p2};
  }

  /** The accumulated products stay in int32 range when the coordinate differences fit int16. */
  lemma ProductsInt32(d: int, k: nat)
    requires -32768 <= d < 32768 && k <= 32768
    ensures -0x8000_0000 <= d * k < 0x8000_0000
  {
    if d >= 0 {
      MulMonotone(d, 32767, k);
      MulMonotone(0, d, k);
    } else {
      MulMonotone(-32768, d, k);
      MulMonotone(d, 0, k);
    }
  }

  // ---------------------------------------------------------------- in int16_t

  predicate Int16(t: Tri) {
    && -32768 <= t.p0.x < 32768 && -32768 <= t.p1.x < 32768 && -32768 <= t.p2.x < 32768
    && -32768 <= t.p0.y < 32768 && -32768 <= t.p1.y < 32768 && -32768 <= t.p2.y < 32768
  }

  /** The last scanline of the upper loop. */
  function Last16(t: Tri): int16
    requires Int16(t)
  {
    if t.p1.y == t.p2.y then t.p1.y else I16(t.p1.y - 1)
  }

  /** Where the lower loop starts, once the upper one has ended. */
  function LowerStart(t: Tri): int
    requires Int16(t)
  {
    if t.p0.y > Last16(t) then t.p0.y else Last16(t) + 1
  }

  ghost predicate UpperEnds(t: Tri)
    requires Int16(t)
  {
    LoopEnds(t.p0.y, Last16(t))
  }

  /** A loop body is reached with a zero in one of its two divisors. */
  ghost predicate DividesByZero(t: Tri)
    requires Int16(t)
  {
    var (dy01, dy02, dy12) := (I16(t.p1.y - t.p0.y), I16(t.p2.y - t.p0.y), I16(t.p2.y - t.p1.y));
    && !t.Flat()
    && ((t.p0.y <= Last16(t) && (dy01 == 0 || dy02 == 0))
        || (UpperEnds(t) && LowerStart(t) <= t.p2.y && (dy12 == 0 || dy02 == 0)))
  }

  ghost predicate Ends(t: Tri)
    requires Int16(t)
  {
    t.Flat() || (UpperEnds(t) && LoopEnds(I16(LowerStart(t)), t.p2.y))
  }

  /** In int16_t a divisor is zero exactly when the two upper vertices lie on the first scanline and the lower one does
      not. Without that, the loops end exactly when all vertices are on one scanline or none is on the last one. */
  lemma FillTriangleExactly(a: Point, b: Point, c: Point)
    requires Int16(Tri(a, b, c))
    ensures var t := SortedByY(a, b, c);
      && Int16(t)
      && (DividesByZero(t) <==> t.p0.y == t.p1.y == -32768 < t.p2.y)
      && (!DividesByZero(t) && Ends(t) <==> t.Flat() || (t.p1.y > -32768 && t.p2.y < 32767))
  {
    var t := SortedByY(a, b, c);
    hide LoopEnds;
    LoopEndsExactly(t.p0.y, Last16(t));
    LoopEndsExactly(I16(LowerStart(t)), t.p2.y);
  }

  /** The one row of a triangle on a single scanline survives int16_t exactly when its width fits. */
  lemma FlatFitsExactly(t: Tri)
    requires t.Ordered() && t.Flat() && Int16(t)
    ensures var l := Fill(t)[0];
      HLine(I16(l.x), l.y, I16(l.w)) == l
      <==> Max(t.p0.x, Max(t.p1.x, t.p2.x)) - Min(t.p0.x, Min(t.p1.x, t.p2.x)) <= 32766
  {
  }

  /** The failing inputs: a level edge on the first scanline, and a vertex on the last one. */
  lemma FillTriangleFails()
    ensures var t := SortedByY(Point(0, -32768), Point(5, -32768), Point(0, 0)); Int16(t) && DividesByZero(t)
    ensures var t := SortedByY(Point(0, 0), Point(5, 1), Point(0, 32767)); Int16(t) && !DividesByZero(t) && !Ends(t)
  {
    FillTriangleExactly(Point(0, -32768), Point(5, -32768), Point(0, 0));
    FillTriangleExactly(Point(0, 0), Point(5, 1), Point(0, 32767));
  }

  /** An int32_t accumulator after k additions. */
  function Sum32(start: int32, d: int16, k: nat): int32 {
    if k == 0 then start else I32(Sum32(start, d, k - 1) + d)
  }

  /** The scanline drawn from a pair of accumulators. */
  function Span16(x: int, sa: int32, dya: int16, x': int, sb: int32, dyb: int16, y: int16): HLine
    requires dya > 0 && dyb > 0
  {
    var a, b := I16(x + TruncDiv(sa, dya)), I16(x' + TruncDiv(sb, dyb));
    HLine(Min(a, b), y, I16(Max(a, b) - Min(a, b) + 1))
  }

  /** Scanline k of the upper and of the lower loop, in int16_t. */
  function Upper16(t: Tri, k: nat): HLine
    requires Int16(t) && I16(t.p1.y - t.p0.y) > 0 && I16(t.p2.y - t.p0.y) > 0
  {
    Span16(t.p0.x, Sum32(0, I16(t.p1.x - t.p0.x), k), I16(t.p1.y - t.p0.y),
           t.p0.x, Sum32(0, I16(t.p2.x - t.p0.x), k), I16(t.p2.y - t.p0.y), Counter(t.p0.y, k))
  }

  function Lower16(t: Tri, k: nat): HLine
    requires Int16(t) && I16(t.p2.y - t.p1.y) > 0 && I16(t.p2.y - t.p0.y) > 0
  {
    var (y, dx12, dx02) := (I16(LowerStart(t)), I16(t.p2.x - t.p1.x), I16(t.p2.x - t.p0.x));
    Span16(t.p1.x, Sum32(I32(dx12 * (y - t.p1.y)), dx12, k), I16(t.p2.y - t.p1.y),
           t.p0.x, Sum32(I32(dx02 * (y - t.p0.y)), dx02, k), I16(t.p2.y - t.p0.y), Counter(y, k))
  }

  /** The differences that fillTriangle divides by and accumulates fit int16. */
  predicate DifferencesFit(t: Tri) {
    && t.p2.y - t.p0.y <= 32767
    && -32768 <= t.p2.x - t.p0.x < 32768
    && (t.p0.y < t.p1.y ==> -32768 <= t.p1.x - t.p0.x < 32768)
    && (t.p1.y < t.p2.y ==> -32768 <= t.p2.x - t.p1.x < 32768)
  }

  lemma {:induction false} Sum32Exact(d: int16, j: nat, k: nat)
    requires j + k <= 32768
    ensures -0x8000_0000 <= d * j < 0x8000_0000 && Sum32(I32(d * j), d, k) == d * (j + k)
  {
    hide I32;
    ProductsInt32(d, j);
    ProductsInt32(d, j + k);
    if k > 0 {
      Sum32Exact(d, j, k - 1);
      ProductStep(d, j + k - 1);
    }
  }

  lemma EdgeIs(p: Point, q: Point, y: int, s: int)
    requires p.y < q.y && s == (q.x - p.x) * (y - p.y)
    ensures EdgeX(p, q, y) == p.x + TruncDiv(s, q.y - p.y)
  {
  }

  lemma RowIs(t: Tri, y: int)
    requires t.Ordered() && !t.Flat() && t.p0.y <= y <= t.p2.y
    ensures var a, b := ShortX(t, y), EdgeX(t.p0, t.p2, y); Row(t, y) == HLine(Min(a, b), y, Max(a, b) - Min(a, b) + 1)
    ensures y < t.p1.y || t.p1.y == t.p2.y ==> ShortX(t, y) == EdgeX(t.p0, t.p1, y)
    ensures !(y < t.p1.y || t.p1.y == t.p2.y) ==> ShortX(t, y) == EdgeX(t.p1, t.p2, y)
  {
    hide EdgeX;
  }

  lemma RowInt16(t: Tri, y: int)
    requires t.Ordered() && !t.Flat() && Int16(t) && t.p0.y <= y <= t.p2.y
    ensures -32768 <= ShortX(t, y) < 32768 && -32768 <= EdgeX(t.p0, t.p2, y) < 32768
  {
    hide EdgeX;
    EdgeCrossing(t.p0, t.p2, y);
    if y < t.p1.y || t.p1.y == t.p2.y {
      EdgeCrossing(t.p0, t.p1, y);
    } else {
      EdgeCrossing(t.p1, t.p2, y);
    }
  }

  /** Where the accumulators hold the exact products, a row comes out right exactly when its width fits. */
  lemma SpanExact(t: Tri, p: Point, q: Point, y: int, sa: int32, sb: int32)
    requires t.Ordered() && !t.Flat() && Int16(t) && t.p2.y - t.p0.y <= 32767 && t.p0.y <= y <= t.p2.y
    requires p.y < q.y && p in {t.p0, t.p1} && q in {t.p1, t.p2} && ShortX(t, y) == EdgeX(p, q, y)
    requires sa == (q.x - p.x) * (y - p.y) && sb == (t.p2.x - t.p0.x) * (y - t.p0.y)
    ensures I16(q.y - p.y) > 0 && I16(t.p2.y - t.p0.y) > 0
    ensures Span16(p.x, sa, I16(q.y - p.y), t.p0.x, sb, I16(t.p2.y - t.p0.y), I16(y)) == Row(t, y)
      <==> Row(t, y).w <= 32767
  {
    hide ShortX, TruncDiv, Row, EdgeX, I16;
    RowInt16(t, y);
    EdgeIs(p, q, y, sa);
    EdgeIs(t.p0, t.p2, y, sb);
    RowIs(t, y);
    var (a, b) := (ShortX(t, y), EdgeX(t.p0, t.p2, y));
    WidthFits(Max(a, b) - Min(a, b) + 1);
  }

  lemma WidthFits(w: int)
    requires 1 <= w <= 65536
    ensures I16(w) == w <==> w <= 32767
  {
  }

  lemma UpperRange(t: Tri)
    requires t.Ordered() && Int16(t) && t.p1.y > -32768
    ensures Last16(t) == if t.p1.y == t.p2.y then t.p1.y else t.p1.y - 1
    ensures t.p0.y <= t.p1.y <= t.p2.y && t.Flat() == (t.p0.y == t.p2.y)
    ensures -32768 <= t.p0.y && t.p2.y < 32768
    ensures DifferencesFit(t) ==>
      && t.p2.y - t.p0.y <= 32767
      && -32768 <= t.p2.x - t.p0.x < 32768
      && (t.p0.y < t.p1.y ==> -32768 <= t.p1.x - t.p0.x < 32768)
      && (t.p1.y < t.p2.y ==> -32768 <= t.p2.x - t.p1.x < 32768)
  {
  }

  lemma UpperIs(t: Tri, k: nat)
    requires Int16(t) && I16(t.p1.y - t.p0.y) > 0 && I16(t.p2.y - t.p0.y) > 0
    ensures Upper16(t, k) == Span16(t.p0.x, Sum32(0, I16(t.p1.x - t.p0.x), k), I16(t.p1.y - t.p0.y),
      t.p0.x, Sum32(0, I16(t.p2.x - t.p0.x), k), I16(t.p2.y - t.p0.y), Counter(t.p0.y, k))
  {
    hide Span16, Sum32, I16, Counter;
  }

  /** A triangle whose loops end and whose differences fit. */
  predicate Drawable(t: Tri) {
    t.Ordered() && !t.Flat() && Int16(t) && DifferencesFit(t) && t.p1.y > -32768 && t.p2.y < 32767
  }

  lemma Draws(t: Tri)
    requires Drawable(t)
    ensures t.Ordered() && !t.Flat() && Int16(t) && DifferencesFit(t) && t.p1.y > -32768 && t.p2.y < 32767
  {
  }

  /** For such a triangle each row comes out exact in int16_t if and only if its width fits: those of the upper loop, */
  lemma UpperFits(t: Tri, k: nat)
    requires Drawable(t) && t.p0.y + k <= Last16(t)
    ensures I16(t.p1.y - t.p0.y) > 0 && I16(t.p2.y - t.p0.y) > 0
    ensures Upper16(t, k) == Row(t, t.p0.y + k) <==> Row(t, t.p0.y + k).w <= 32767
  {
    hide *;
    var y := t.p0.y + k;
    Draws(t);
    UpperRange(t);
    UpperIs(t, k);
    Sum32Exact(t.p1.x - t.p0.x, 0, k);
    Sum32Exact(t.p2.x - t.p0.x, 0, k);
    CounterRuns(t.p0.y, k);
    RowIs(t, y);
    SpanExact(t, t.p0, t.p1, y, (t.p1.x - t.p0.x) * k, (t.p2.x - t.p0.x) * k);
  }

  /** and those of the lower one. */
  lemma LowerFits(t: Tri, k: nat)
    requires Drawable(t) && LowerStart(t) + k <= t.p2.y
    ensures I16(t.p2.y - t.p1.y) > 0 && I16(t.p2.y - t.p0.y) > 0
    ensures Lower16(t, k) == Row(t, LowerStart(t) + k) <==> Row(t, LowerStart(t) + k).w <= 32767
  {
    hide Row, Span16, EdgeX, ShortX, Sum32, Counter, I32, I16, Last16;
    var y := LowerStart(t);
    UpperRange(t);
    Sum32Exact(t.p2.x - t.p1.x, y - t.p1.y, k);
    Sum32Exact(t.p2.x - t.p0.x, y - t.p0.y, k);
    CounterRuns(y, k);
    RowIs(t, y + k);
    SpanExact(t, t.p1, t.p2, y + k, (t.p2.x - t.p1.x) * (y + k - t.p1.y), (t.p2.x - t.p0.x) * (y + k - t.p0.y));
  }

  // ---------------------------------------------------------------- which row is too wide first

  lemma TruncBounds(a: int, d: int)
    requires d > 0
    ensures a >= 0 ==> a - d < TruncDiv(a, d) * d <= a && TruncDiv(a, d) >= 0
    ensures a <= 0 ==> a <= TruncDiv(a, d) * d < a + d && TruncDiv(a, d) <= 0
  {
    QuotientBounds(if a >= 0 then a else -a, d);
    NegProduct(-a / d, d);
    if a == 0 {
      DivUnique(0, d, 0);
    }
  }

  lemma QuotientBounds(n: nat, d: nat)
    requires d > 0
    ensures n / d * d <= n < n / d * d + d && n / d >= 0
  {
  }

  lemma NegProduct(q: int, d: int)
    ensures -q * d == -(q * d)
  {
  }

  lemma TruncOdd(a: int, d: int)
    requires d > 0
    ensures TruncDiv(-a, d) == -TruncDiv(a, d)
  {
  }

  lemma Signs(a: int, k: nat)
    ensures (a >= 0 ==> a * k >= 0) && (a <= 0 ==> a * k <= 0)
  {
    MulMonotone(0, a, k);
    MulMonotone(a, 0, k);
  }

  lemma Scale(a: int, b: int, c: int)
    requires c > 0
    ensures (a <= b ==> a * c <= b * c) && (a < b ==> a * c < b * c)
  {
    MulMonotone(a, b, c);
    MulMonotone(a + 1, b, c);
  }

  /** A distance that shrinks by its n-th part and is still above 32766 was at least 32767, in units of l. */
  lemma Grows(e: int, c: nat, n: nat, l: nat)
    requires c < n <= 32767 && l > 0 && e * c > 32766 * (l * n)
    ensures e >= 32767 * l
  {
    Apart(0, l, n);
    if e < 32767 * l {
      if e <= 0 {
        MulMonotone(e, 0, c);
      } else {
        MulMonotone(c, n - 1, e);
        MulMonotone(e, 32767 * l, n - 1);
        assert 32767 * l * (n - 1) == 32767 * (l * n) - 32767 * l;
        MulMonotone(n, 32767, l);
      }
    }
  }

  /** The middle row in terms of that distance. */
  lemma MiddleFrom(d01: int, d02: int, s: nat, l: nat)
    requires l > 0 && d01 * l - d02 * s >= 32767 * l
    ensures d01 - TruncDiv(d02 * s, l) >= 32767
  {
    var m := TruncDiv(d02 * s, l);
    TruncBounds(d02 * s, l);
    assert (d01 - m) * l == d01 * l - m * l;
    if d01 - m <= 32766 {
      MulMonotone(d01 - m, 32766, l);
    }
  }

  /** A truncated quotient over a common denominator: its error is on the side of zero. */
  lemma Spread(a: int, d: int, l: int)
    requires d > 0 && l > 0
    ensures a >= 0 ==> a * l - d * l < TruncDiv(a, d) * d * l <= a * l
    ensures a <= 0 ==> a * l <= TruncDiv(a, d) * d * l < a * l + d * l
  {
    var q := TruncDiv(a, d);
    TruncBounds(a, d);
    if a >= 0 {
      Scale(a - d, q * d, l);
      Scale(q * d, a, l);
    }
    if a <= 0 {
      Scale(a, q * d, l);
      Scale(q * d, a + d, l);
    }
    assert (a - d) * l == a * l - d * l && (a + d) * l == a * l + d * l;
  }

  /** Above the middle row, a distance of 32767 to the right makes one in the middle row. */
  lemma UpperWide(d01: int, d02: int, s: nat, l: nat, k: nat)
    requires k < s <= l <= 32767
    requires TruncDiv(d01 * k, s) - TruncDiv(d02 * k, l) >= 32767
    ensures d01 - TruncDiv(d02 * s, l) >= 32767
  {
    hide TruncDiv;
    Signs(d01, k);
    Signs(d02, k);
    TruncBounds(d01 * k, s);
    TruncBounds(d02 * k, l);
    Spread(d01 * k, s, l);
    Spread(d02 * k, l, s);
    CommonUpper(TruncDiv(d01 * k, s), TruncDiv(d02 * k, l), d01, d02, s, l, k);
    Grows(d01 * l - d02 * s, k, s, l);
    MiddleFrom(d01, d02, s, l);
  }

  lemma CommonUpper(a: int, b: int, d01: int, d02: int, s: nat, l: nat, k: nat)
    requires s > 0 && l > 0 && a - b >= 32767
    requires a * s * l - b * l * s < d01 * k * l - d02 * k * s + l * s
    ensures (d01 * l - d02 * s) * k > 32766 * (l * s)
  {
    OverCommon(0, a, b, s, l);
    assert (d01 * l - d02 * s) * k == d01 * k * l - d02 * k * s;
  }

  /** A distance of 32767 between two quotients and an integer, over the common denominator. */
  lemma OverCommon(d: int, a: int, b: int, s: nat, l: nat)
    requires d + a - b >= 32767
    ensures d * (l * s) + a * s * l - b * l * s >= 32767 * (l * s)
  {
    MulMonotone(32767, d + a - b, l * s);
    assert (d + a - b) * (l * s) == d * (l * s) + a * (l * s) - b * (l * s);
    Regroup(a, s, l);
    Regroup(b, l, s);
  }

  lemma Regroup(a: int, s: nat, l: nat)
    ensures a * s * l == a * (l * s) == a * (s * l)
  {
  }

  /** Below the middle row, too. */
  lemma LowerWide(d01: int, d02: int, s: nat, l: nat, j: nat)
    requires s < l <= 32767 && 1 <= j <= l - s
    requires d01 + TruncDiv((d02 - d01) * j, l - s) - TruncDiv(d02 * (s + j), l) >= 32767
    ensures d01 - TruncDiv(d02 * s, l) >= 32767
  {
    var d12, h := d02 - d01, l - s;
    hide TruncDiv;
    Signs(d12, j);
    Signs(d02, s + j);
    if d12 < 0 <= d02 {
      TruncBounds(d12 * j, h);
      Signs(d02, s);
      MulMonotone(s, s + j, d02);
      TruncMonotone(d02 * s, d02 * (s + j), l);
    } else {
      Spread(d12 * j, h, l);
      Spread(d02 * (s + j), l, h);
      CommonLower(TruncDiv(d12 * j, h), TruncDiv(d02 * (s + j), l), d01, d02, s, l, j);
      Grows(d01 * l - d02 * s, h - j, h, l);
      MiddleFrom(d01, d02, s, l);
    }
  }

  lemma TruncMonotone(a: nat, b: nat, d: nat)
    requires d > 0 && a <= b
    ensures TruncDiv(a, d) <= TruncDiv(b, d)
  {
    TruncBounds(a, d);
    TruncBounds(b, d);
    if TruncDiv(a, d) > TruncDiv(b, d) {
      Apart(TruncDiv(b, d), TruncDiv(a, d), d);
    }
  }

  lemma CommonLower(a: int, b: int, d01: int, d02: int, s: nat, l: nat, j: nat)
    requires s < l && d01 + a - b >= 32767
    requires var (d12, h) := (d02 - d01, l - s); a * h * l - b * l * h < d12 * j * l - d02 * (s + j) * h + l * h
    ensures (d01 * l - d02 * s) * (l - s - j) > 32766 * (l * (l - s))
  {
    OverCommon(d01, a, b, l - s, l);
    ShrinksTo(d01, d02, s, l, j);
  }

  /** j rows below the middle one, the exact distance is its part of that in the middle. */
  lemma ShrinksTo(d01: int, d02: int, s: nat, l: nat, j: nat)
    requires s <= l
    ensures (d01 * l - d02 * s) * (l - s - j) == d01 * (l * (l - s)) + (d02 - d01) * j * l - d02 * (s + j) * (l - s)
  {
  }

  /** In either direction. */
  lemma UpperAway(d01: int, d02: int, s: nat, l: nat, k: nat)
    requires k < s <= l <= 32767
    requires Abs(TruncDiv(d02 * k, l) - TruncDiv(d01 * k, s)) >= 32767
    ensures Abs(TruncDiv(d02 * s, l) - d01) >= 32767
  {
    if TruncDiv(d01 * k, s) > TruncDiv(d02 * k, l) {
      UpperWide(d01, d02, s, l, k);
    } else {
      assert -d02 * s == -(d02 * s) && -d02 * k == -(d02 * k) && -d01 * k == -(d01 * k);
      TruncOdd(d02 * s, l);
      TruncOdd(d02 * k, l);
      TruncOdd(d01 * k, s);
      hide TruncDiv;
      UpperWide(-d01, -d02, s, l, k);
    }
  }

  lemma LowerAway(d01: int, d02: int, s: nat, l: nat, j: nat)
    requires s < l <= 32767 && 1 <= j <= l - s
    requires Abs(TruncDiv(d02 * (s + j), l) - d01 - TruncDiv((d02 - d01) * j, l - s)) >= 32767
    ensures Abs(TruncDiv(d02 * s, l) - d01) >= 32767
  {
    if d01 + TruncDiv((d02 - d01) * j, l - s) > TruncDiv(d02 * (s + j), l) {
      LowerWide(d01, d02, s, l, j);
    } else {
      assert -d02 * s == -(d02 * s) && -d02 * (s + j) == -(d02 * (s + j)) && (-d02 - -d01) * j == -((d02 - d01) * j);
      TruncOdd(d02 * s, l);
      TruncOdd(d02 * (s + j), l);
      TruncOdd((d02 - d01) * j, l - s);
      hide TruncDiv;
      LowerWide(-d01, -d02, s, l, j);
    }
  }

  /** The middle row: from the middle vertex to the long edge. */
  lemma MiddleRow(t: Tri)
    requires t.Ordered() && !t.Flat()
    ensures Row(t, t.p1.y).w == Abs(EdgeX(t.p0, t.p2, t.p1.y) - t.p1.x) + 1
  {
    hide EdgeX;
    if t.p1.y == t.p2.y {
      EdgeCrossing(t.p0, t.p1, t.p1.y);
    } else {
      EdgeCrossing(t.p1, t.p2, t.p1.y);
    }
  }

  /** No row is too wide for int16 unless the middle one is. */
  lemma MiddleWidest(t: Tri, y: int)
    requires t.Ordered() && !t.Flat() && t.p2.y - t.p0.y <= 32767 && t.p0.y <= y <= t.p2.y
    requires Row(t, y).w > 32767
    ensures Row(t, t.p1.y).w > 32767
  {
    hide TruncDiv, EdgeX, ShortX, Row;
    MiddleRow(t);
    RowIs(t, y);
    var (d01, d02, d12) := (t.p1.x - t.p0.x, t.p2.x - t.p0.x, t.p2.x - t.p1.x);
    var (s, l) := (t.p1.y - t.p0.y, t.p2.y - t.p0.y);
    EdgeIs(t.p0, t.p2, y, d02 * (y - t.p0.y));
    EdgeIs(t.p0, t.p2, t.p1.y, d02 * s);
    if y < t.p1.y {
      EdgeIs(t.p0, t.p1, y, d01 * (y - t.p0.y));
      UpperAway(d01, d02, s, l, y - t.p0.y);
    } else if y > t.p1.y {
      EdgeIs(t.p1, t.p2, y, d12 * (y - t.p1.y));
      assert d12 == d02 - d01 && y - t.p0.y == s + (y - t.p1.y);
      LowerAway(d01, d02, s, l, y - t.p1.y);
    }
  }

  /** The scanline that the two loops, in int16_t, draw at y. */
  function Row16(t: Tri, y: int): HLine
    requires Drawable(t) && t.p0.y <= y <= t.p2.y
  {
    UpperRange(t);
    if y <= Last16(t) then Upper16(t, y - t.p0.y) else Lower16(t, y - LowerStart(t))
  }

  /** One row comes out exact if and only if its width fits. */
  lemma RowFits(t: Tri, y: int)
    requires Drawable(t) && t.p0.y <= y <= t.p2.y
    ensures Row16(t, y) == Row(t, y) <==> Row(t, y).w <= 32767
  {
    hide Upper16, Lower16, Row;
    UpperRange(t);
    if y <= Last16(t) {
      UpperFits(t, y - t.p0.y);
    } else {
      LowerFits(t, y - LowerStart(t));
    }
  }

  /** A triangle whose loops end and whose differences fit is drawn exactly, if and only if the width of the row at its
      middle vertex fits. */
  lemma RowsExactly(t: Tri)
    requires Drawable(t)
    ensures (forall y | t.p0.y <= y <= t.p2.y :: Row16(t, y) == Row(t, y)) <==> Row(t, t.p1.y).w <= 32767
  {
    hide Row16, Row;
    forall y | t.p0.y <= y <= t.p2.y
      ensures Row16(t, y) == Row(t, y) <==> Row(t, y).w <= 32767
      ensures Row(t, t.p1.y).w <= 32767 ==> Row(t, y).w <= 32767
    {
      RowFits(t, y);
      if Row(t, y).w > 32767 {
        MiddleWidest(t, y);
      }
    }
    assert Row16(t, t.p1.y) == Row(t, t.p1.y) <==> Row(t, t.p1.y).w <= 32767;
  }

  const WIDEST := Tri(Point(0, 0), Point(16000, 10), Point(32767, 20))
  const TOO_WIDE := Tri(Point(0, 0), Point(32767, 1), Point(0, 2))

  lemma WidestValues()
    ensures Drawable(WIDEST) && Drawable(TOO_WIDE)
    ensures TruncDiv(WIDEST.p2.x * 10, 20) == 16383 && TruncDiv(TOO_WIDE.p2.x * 1, 2) == 0
  {
  }

  /** A triangle spanning 32768 columns that is drawn exactly, and one that is not: its middle row has them all. */
  lemma WidthMatters()
    ensures Drawable(WIDEST) && forall y | 0 <= y <= 20 :: Row16(WIDEST, y) == Row(WIDEST, y)
    ensures Drawable(TOO_WIDE) && Row16(TOO_WIDE, 1) != Row(TOO_WIDE, 1)
  {
    hide TruncDiv, Drawable, Row16, Row, EdgeX;
    WidestValues();
    WidestRows();
    RowsExactly(WIDEST);
    RowFits(TOO_WIDE, 1);
  }

  lemma WidestRows()
    requires TruncDiv(WIDEST.p2.x * 10, 20) == 16383 && TruncDiv(TOO_WIDE.p2.x * 1, 2) == 0
    ensures Row(WIDEST, 10).w == 384 && Row(TOO_WIDE, 1).w == 32768
  {
    hide TruncDiv, EdgeX, Row;
    MiddleRow(WIDEST);
    MiddleRow(TOO_WIDE);
    EdgeIs(WIDEST.p0, WIDEST.p2, 10, WIDEST.p2.x * 10);
    EdgeIs(TOO_WIDE.p0, TOO_WIDE.p2, 1, TOO_WIDE.p2.x * 1);
  }
}
