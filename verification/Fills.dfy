/** Filled rectangles and rounded rectangles, and what INVERSE fills do to the frame buffer. */
module Fills {
  import opened Circle
  import opened Geometry
  import opened Machine
  import opened Ssd1306

  // ---------------------------------------------------------------- the fills

  method FillRect(x: int, y: int, w: int, h: int) returns (trace: seq<VLine>)
    ensures OncePerColumn(trace)
    ensures forall l | l in trace :: l == VLine(l.x, y, h)
    ensures forall k :: k in Columns(trace) <==> x <= k < x + w
  {
    trace := [];
    var i := x;
    while i < x + w
      invariant x <= i && (i == x || i <= x + w)
      invariant OncePerColumn(trace)
      invariant forall l | l in trace :: l == VLine(l.x, y, h)
      invariant forall k :: k in Columns(trace) <==> x <= k < i
    {
      Append(trace, VLine(i, y, h));
      trace := trace + [VLine(i, y, h)];
      i := i + 1;
    }
  }

  /** The column behind the rectangle is one that int16_t has. */
  predicate RectEnds(x: int16, w: int16) {
    w <= 0 || x as int + w as int <= 32767
  }

  /** In int16_t the loop of fillRect ends exactly under that condition, and then its counter takes the columns of the
      rectangle. */
  lemma FillRectExactly(x: int16, w: int16)
    ensures LoopEnds(x, x as int + w as int - 1) <==> RectEnds(x, w)
    ensures RectEnds(x, w) ==> forall k: nat | k < w :: Counter(x, k) == x as int + k
  {
    LoopEndsExactly(x, x as int + w as int - 1);
    if RectEnds(x, w) {
      forall k: nat | k < w
        ensures Counter(x, k) == x as int + k
      {
        CounterRuns(x, k);
      }
    }
  }

  /** A rectangle of one column at the last coordinate is never finished. */
  lemma FillRectHangs()
    ensures !LoopEnds(32767, 32767)
  {
    LoopEndsExactly(32767, 32767);
  }

  /** The radius fillRoundRect works with. */
  function ClippedRadius(w: int, h: int, r: int): int {
    Min(r, TruncDiv(Min(w, h), 2))
  }

  /** That is the smaller of r and half the shorter side, rounded toward zero. */
  lemma ClippedRadiusIs(w: int, h: int, r: int, half: int)
    requires var side := if w < h then w else h;
      if side >= 0 then side - 1 <= 2 * half <= side else side <= 2 * half <= side + 1
    ensures ClippedRadius(w, h, r) == if r < half then r else half
  {
  }

  /** How far v lies outside [lo, hi]. */
  function Outside(v: int, lo: int, hi: int): int {
    Max(0, Max(lo - v, v - hi))
  }

  /** The pixels of a w by h rectangle at (x, y) whose corners are rounded with radius r. */
  predicate InRoundRect(x: int, y: int, w: int, h: int, r: int, px: int, py: int) {
    var dx, dy := Outside(px, x + r, x + w - r - 1), Outside(py, y + r, y + h - r - 1);
    && x <= px < x + w && y <= py < y + h
    && (dx == 0 || InDisc(r, dx, dy))
  }

  lemma Concat(a: seq<VLine>, b: seq<VLine>)
    requires OncePerColumn(a) && OncePerColumn(b) && Columns(a) !! Columns(b)
    ensures OncePerColumn(a + b) && Columns(a + b) == Columns(a) + Columns(b)
    ensures forall l :: l in a + b <==> l in a || l in b
  {
    var t := a + b;
    forall i, j | 0 <= i < j < |t| ensures t[i].x != t[j].x {
      if i < |a| <= j {
        assert t[i] in a && t[j] in b;
        assert t[i].x in Columns(a) && t[j].x in Columns(b);
      }
    }
  }

  /** The rows of a corner column: the disc, with the straight part of the side inserted. */
  lemma CornerColumn(x: int, y: int, w: int, h: int, r: nat, x0: int, k: int, py: int)
    requires r >= 1 && 2 * r <= h && 2 * r <= w
    requires (x0 == x + w - r - 1 && 1 <= k - x0 <= r) || (x0 == x + r && 1 <= x0 - k <= r)
    ensures ColumnLine(x0, y + r, r, h - 2 * r, k).Covers(k, py) <==> InRoundRect(x, y, w, h, r, k, py)
  {
    var d := Abs(k - x0);
    var dy := Outside(py, y + r, y + h - r - 1);
    hide InDisc, Reach;
    if dy <= r {
      ReachTells(r, d, dy);
    } else {
      BeyondRadius(r, d, dy);
    }
  }

  ghost predicate SameCover(trace: seq<VLine>, x: int, y: int, w: int, h: int, r: int) {
    forall px, py :: Covered(trace, px, py) <==> InRoundRect(x, y, w, h, r, px, py)
  }

  /** A line inside the rectangle, of its full height where the height may be negative. */
  predicate LineWithin(l: VLine, x: int, y: int, w: int, h: int) {
    x <= l.x < x + w && ((l.y == y && l.h == h) || (y <= l.y && 0 <= l.h && l.y + l.h <= y + h))
  }

  lemma CornerLineWithin(x: int, y: int, w: int, h: int, r: nat, x0: int, l: VLine)
    requires r >= 1 && 2 * r <= h && 2 * r <= w && l == ColumnLine(x0, y + r, r, h - 2 * r, l.x)
    requires (x0 == x + w - r - 1 && 1 <= l.x - x0 <= r) || (x0 == x + r && 1 <= x0 - l.x <= r)
    ensures LineWithin(l, x, y, w, h)
  {
    hide Reach;
  }

  lemma PartsWithin(middle: seq<VLine>, right: seq<VLine>, left: seq<VLine>, x: int, y: int, w: int, h: int, r: nat)
    requires r == 0 || (2 * r <= w && 2 * r <= h)
    requires forall l | l in middle :: l == VLine(l.x, y, h)
    requires forall k :: k in Columns(middle) <==> x + r <= k < x + w - r
    requires forall l | l in right :: l == ColumnLine(x + w - r - 1, y + r, r, h - 2 * r, l.x)
    requires forall k :: k in Columns(right) <==> 1 <= k - (x + w - r - 1) <= r
    requires forall l | l in left :: l == ColumnLine(x + r, y + r, r, h - 2 * r, l.x)
    requires forall k :: k in Columns(left) <==> 1 <= x + r - k <= r
    ensures forall l | l in middle || l in right || l in left :: LineWithin(l, x, y, w, h)
  {
    hide ColumnLine, LineWithin;
    forall l | l in middle || l in right || l in left
      ensures LineWithin(l, x, y, w, h)
    {
      if l in middle {
        assert l.x in Columns(middle);
        MiddleWithin(l, x, y, w, h, r);
      } else if l in right {
        assert l.x in Columns(right);
        CornerLineWithin(x, y, w, h, r, x + w - r - 1, l);
      } else {
        assert l.x in Columns(left);
        CornerLineWithin(x, y, w, h, r, x + r, l);
      }
    }
  }

  lemma MiddleWithin(l: VLine, x: int, y: int, w: int, h: int, r: nat)
    requires l == VLine(l.x, y, h) && x + r <= l.x < x + w - r
    ensures LineWithin(l, x, y, w, h)
  {
  }

  /** Each column is drawn once, and the lines cover exactly the rounded rectangle. */
  method FillRoundRect(x: int, y: int, w: int, h: int, r0: int) returns (trace: seq<VLine>)
    ensures OncePerColumn(trace)
    ensures var r := ClippedRadius(w, h, r0);
      r >= 0 ==>
        && (forall k :: k in Columns(trace) <==> x <= k < x + w)
        && (forall l | l in trace :: LineWithin(l, x, y, w, h))
        && SameCover(trace, x, y, w, h, r)
  {
    var maxRadius := TruncDiv(if w < h then w else h, 2);
    var r := if r0 > maxRadius then maxRadius else r0;
    var middle := FillRect(x + r, y, w - 2 * r, h);
    var right := FillCircleHelper(x + w - r - 1, y + r, r, 1, h - 2 * r - 1);
    var left := FillCircleHelper(x + r, y + r, r, 2, h - 2 * r - 1);
    trace := middle + right + left;
    JoinParts(middle, right, left, x, w, r);
    if r >= 0 {
      PartsWithin(middle, right, left, x, y, w, h, r);
      hide OncePerColumn, Columns, ColumnLine, LineWithin;
      forall px, py ensures Covered(trace, px, py) <==> InRoundRect(x, y, w, h, r, px, py) {
        RoundRectCovered(trace, middle, right, left, x, y, w, h, r, px, py);
      }
    }
  }

  lemma JoinParts(middle: seq<VLine>, right: seq<VLine>, left: seq<VLine>, x: int, w: int, r: int)
    requires OncePerColumn(middle) && OncePerColumn(right) && OncePerColumn(left)
    requires forall k :: k in Columns(middle) <==> x + r <= k < x + w - r
    requires if r < 0 then right == [] && left == [] else
      && (forall k :: k in Columns(right) <==> 1 <= k - (x + w - r - 1) <= r)
      && (forall k :: k in Columns(left) <==> 1 <= x + r - k <= r)
      && (r == 0 || 2 * r <= w)
    ensures OncePerColumn(middle + right + left)
    ensures r >= 0 ==> forall k :: k in Columns(middle + right + left) <==> x <= k < x + w
    ensures forall l :: l in middle + right + left <==> l in middle || l in right || l in left
  {
    hide OncePerColumn;
    assert r < 0 ==> Columns(right) == {} && Columns(left) == {};
    hide Columns;
    Concat(middle, right);
    Concat(middle + right, left);
  }

  lemma CoveredByLine(trace: seq<VLine>, px: int, py: int)
    ensures Covered(trace, px, py) <==> exists l :: l in trace && l.Covers(px, py)
    ensures Covered(trace, px, py) ==> px in Columns(trace)
  {
  }

  lemma RoundRectCovered(trace: seq<VLine>, middle: seq<VLine>, right: seq<VLine>, left: seq<VLine>,
                         x: int, y: int, w: int, h: int, r: nat, px: int, py: int)
    requires r == 0 || (2 * r <= w && 2 * r <= h)
    requires forall l :: l in trace <==> l in middle || l in right || l in left
    requires forall l | l in middle :: l == VLine(l.x, y, h)
    requires forall k :: k in Columns(middle) <==> x + r <= k < x + w - r
    requires forall l | l in right :: l == ColumnLine(x + w - r - 1, y + r, r, h - 2 * r, l.x)
    requires forall k :: k in Columns(right) <==> 1 <= k - (x + w - r - 1) <= r
    requires forall l | l in left :: l == ColumnLine(x + r, y + r, r, h - 2 * r, l.x)
    requires forall k :: k in Columns(left) <==> 1 <= x + r - k <= r
    ensures Covered(trace, px, py) <==> InRoundRect(x, y, w, h, r, px, py)
  {
    hide InDisc, Reach, Columns, ColumnLine;
    CoveredByLine(middle, px, py);
    CoveredByLine(right, px, py);
    CoveredByLine(left, px, py);
    assert Covered(trace, px, py) <==> Covered(middle, px, py) || Covered(right, px, py) || Covered(left, px, py);
    if px in Columns(middle) {
      LineOf(middle, px);
    } else if px in Columns(right) {
      LineOf(right, px);
      CornerColumn(x, y, w, h, r, x + w - r - 1, px, py);
    } else if px in Columns(left) {
      LineOf(left, px);
      CornerColumn(x, y, w, h, r, x + r, px, py);
    }
  }

  lemma LineOf(trace: seq<VLine>, k: int)
    requires k in Columns(trace)
    ensures exists l :: l in trace && l.x == k
  {
  }

  // ---------------------------------------------------------------- fills on the frame buffer

  /** The trace drawn on the panel, each line as its pixels. */
  function Render(g: Panel, s: seq<Byte>, trace: seq<VLine>, c: Color): (t: seq<Byte>)
    requires g.Valid() && Fits(g, s)
    ensures Fits(g, t)
  {
    if trace == [] then s
    else
      var l := trace[|trace| - 1];
      VPixels(g, Render(g, s, trace[..|trace| - 1], c), l.x, l.y, l.h, c)
  }

  /** A column as it reaches the fast line: each argument has become an int16_t. */
  function Narrowed(l: VLine): VLine {
    VLine(I16(l.x), I16(l.y), I16(l.h))
  }

  function Narrow(trace: seq<VLine>): seq<VLine> {
    seq(|trace|, i requires 0 <= i < |trace| => Narrowed(trace[i]))
  }

  /** How many lines of the trace the int16 clipping of the fast line puts on a physical position. */
  function ClipHits(g: Panel, trace: seq<VLine>, px: int, py: int): nat {
    if trace == [] then 0
    else
      var l := trace[|trace| - 1];
      ClipHits(g, trace[..|trace| - 1], px, py)
      + (if VClipped(g, I16(l.x), I16(l.y), I16(l.h)).Contains(px, py) then 1 else 0)
  }

  /** t is s with each pixel inverted once for each of those lines. */
  ghost predicate Toggled(g: Panel, s: seq<Byte>, t: seq<Byte>, trace: seq<VLine>) {
    && Fits(g, s) && Fits(g, t)
    && forall px: nat, py: nat | px < g.W && py < g.H ::
      Get(g, t, px, py) == (Get(g, s, px, py) != (ClipHits(g, trace, px, py) % 2 == 1))
  }

  lemma ToggledOnce(g: Panel, s: seq<Byte>, t: seq<Byte>, u: seq<Byte>, front: seq<VLine>, l: VLine)
    requires Toggled(g, s, t, front) && Painted(g, t, u, VClipped(g, I16(l.x), I16(l.y), I16(l.h)), Inverse)
    ensures Toggled(g, s, u, front + [l])
  {
    hide Get, VClipped, I16, Rect.Contains;
    assert (front + [l])[..|front|] == front;
    forall px: nat, py: nat | px < g.W && py < g.H
      ensures Get(g, u, px, py) == (Get(g, s, px, py) != (ClipHits(g, front + [l], px, py) % 2 == 1))
    {
      Flips(ClipHits(g, front, px, py));
    }
  }

  lemma NoneToggled(g: Panel, s: seq<Byte>)
    requires Fits(g, s)
    ensures Toggled(g, s, s, [])
  {
  }

  /** No column has a height so negative that the fast line wraps. */
  predicate NoneWraps(g: Panel, trace: seq<VLine>) {
    forall l | l in trace :: !VLineWraps(g, I16(l.x), I16(l.y), I16(l.h))
  }

  /** The calls go through the fast vertical line. */
  method DrawTrace(d: Display, trace: seq<VLine>, c: Color)
    requires d.Valid()
    modifies d.buffer
    ensures d.Valid()
    ensures NoneWraps(d.Geometry(), trace) ==>
      d.buffer[..] == Render(d.Geometry(), old(d.buffer[..]), Narrow(trace), c)
    ensures c == Inverse ==> Toggled(d.Geometry(), old(d.buffer[..]), d.buffer[..], trace)
  {
    hide Painted, Toggled, VClipped, VLineWraps, HLineWraps, VPixels;
    ghost var g := d.Geometry();
    NoneToggled(g, d.buffer[..]);
    for i := 0 to |trace|
      invariant d.Valid()
      invariant NoneWraps(d.Geometry(), trace) ==>
        d.buffer[..] == Render(d.Geometry(), old(d.buffer[..]), Narrow(trace)[..i], c)
      invariant c == Inverse ==> Toggled(g, old(d.buffer[..]), d.buffer[..], trace[..i])
    {
      ghost var t := d.buffer[..];
      assert trace[i] in trace && Narrow(trace)[..i + 1][..i] == Narrow(trace)[..i];
      d.DrawFastVLine(I16(trace[i].x), I16(trace[i].y), I16(trace[i].h), c);
      assert trace[..i] + [trace[i]] == trace[..i + 1];
      if c == Inverse {
        ToggledOnce(g, old(d.buffer[..]), t, d.buffer[..], trace[..i], trace[i]);
      }
    }
    assert Narrow(trace)[..|trace|] == Narrow(trace) && trace[..|trace|] == trace;
  }

  /** The pixel shown at a logical position. */
  function Lit(g: Panel, s: seq<Byte>, x: int, y: int): bool
    requires g.Valid() && Fits(g, s) && g.OnScreen(x, y)
  {
    Get(g, s, g.PhysX(x, y), g.PhysY(x, y))
  }

  /** How many lines of the trace touch a physical position. */
  function Hits(g: Panel, trace: seq<VLine>, px: int, py: int): nat {
    if trace == [] then 0
    else
      var l := trace[|trace| - 1];
      Hits(g, trace[..|trace| - 1], px, py) + (if VArea(g, l.x, l.y, l.h).Contains(px, py) then 1 else 0)
  }

  lemma LinePaints(g: Panel, s: seq<Byte>, l: VLine, c: Color, px: nat, py: nat)
    requires g.Valid() && Fits(g, s) && px < g.W && py < 8 * g.Pages()
    ensures var was := Get(g, s, px, py);
      Get(g, VPixels(g, s, l.x, l.y, l.h, c), px, py)
        == if py < g.H && VArea(g, l.x, l.y, l.h).Contains(px, py) then PaintPixel(was, c) else was
  {
    if l.h >= 0 {
      VPixelsPaint(g, s, l.x, l.y, l.h, c);
    } else {
      NothingPainted(g, s, VArea(g, l.x, l.y, l.h), c);
    }
  }

  /** One more touch flips the parity. */
  lemma Flips(n: nat)
    ensures (n + 1) % 2 == 1 <==> n % 2 != 1
  {
  }

  /** Inverting toggles a pixel once per line that touches it. */
  lemma {:induction false} InverseToggles(g: Panel, s: seq<Byte>, trace: seq<VLine>, px: nat, py: nat)
    requires g.Valid() && Fits(g, s) && px < g.W && py < 8 * g.Pages()
    ensures Get(g, Render(g, s, trace, Inverse), px, py)
      == (Get(g, s, px, py) != (py < g.H && Hits(g, trace, px, py) % 2 == 1))
  {
    hide Get, VPixels, VArea, Rect.Contains, Fits;
    if trace != [] {
      var front, l := trace[..|trace| - 1], trace[|trace| - 1];
      InverseToggles(g, s, front, px, py);
      LinePaints(g, Render(g, s, front, Inverse), l, Inverse, px, py);
      Flips(Hits(g, front, px, py));
    }
  }

  /** Drawing any trace in INVERSE a second time restores the whole buffer. */
  lemma InverseTwice(g: Panel, s: seq<Byte>, trace: seq<VLine>)
    requires g.Valid() && Fits(g, s)
    ensures Render(g, Render(g, s, trace, Inverse), trace, Inverse) == s
  {
    var t := Render(g, s, trace, Inverse);
    var u := Render(g, t, trace, Inverse);
    forall px: nat, py: nat | px < g.W && py < 8 * g.Pages() ensures Get(g, u, px, py) == Get(g, s, px, py) {
      InverseToggles(g, s, trace, px, py);
      InverseToggles(g, t, trace, px, py);
    }
    BufferExtensional(g, u, s);
  }

  lemma LogicalArea(g: Panel, l: VLine, x: int, y: int)
    requires g.Valid() && g.OnScreen(x, y)
    ensures VArea(g, l.x, l.y, l.h).Contains(g.PhysX(x, y), g.PhysY(x, y)) <==> l.Covers(x, y)
  {
  }

  /** A fill that draws each column at most once paints each covered pixel exactly once, in any colour. */
  lemma {:induction false} PaintsOnce(g: Panel, s: seq<Byte>, trace: seq<VLine>, c: Color, x: int, y: int)
    requires g.Valid() && Fits(g, s) && g.OnScreen(x, y) && OncePerColumn(trace)
    ensures Lit(g, Render(g, s, trace, c), x, y)
      == if Covered(trace, x, y) then PaintPixel(Lit(g, s, x, y), c) else Lit(g, s, x, y)
  {
    if trace != [] {
      var front, l := trace[..|trace| - 1], trace[|trace| - 1];
      PaintsOnce(g, s, front, c, x, y);
      LinePaints(g, Render(g, s, front, c), l, c, g.PhysX(x, y), g.PhysY(x, y));
      LogicalArea(g, l, x, y);
      LastLine(trace, x, y);
    }
  }

  lemma LastLine(trace: seq<VLine>, x: int, y: int)
    requires OncePerColumn(trace) && trace != []
    ensures var front, l := trace[..|trace| - 1], trace[|trace| - 1];
      && (Covered(trace, x, y) <==> l.Covers(x, y) || Covered(front, x, y))
      && !(l.Covers(x, y) && Covered(front, x, y))
  {
    var front, l := trace[..|trace| - 1], trace[|trace| - 1];
    assert trace == front + [l];
    assert forall m :: m in trace <==> m in front || m == l;
    forall m | m in front ensures m.x != l.x {
      var i :| 0 <= i < |front| && front[i] == m;
      assert trace[i].x != trace[|trace| - 1].x;
    }
  }

  lemma {:induction false} PaddingStays(g: Panel, s: seq<Byte>, trace: seq<VLine>, c: Color, px: nat, py: nat)
    requires g.Valid() && Fits(g, s) && px < g.W && g.H <= py < 8 * g.Pages()
    ensures Get(g, Render(g, s, trace, c), px, py) == Get(g, s, px, py)
  {
    hide Get, VPixels, VArea, Rect.Contains, Fits;
    if trace != [] {
      var front, l := trace[..|trace| - 1], trace[|trace| - 1];
      PaddingStays(g, s, front, c, px, py);
      LinePaints(g, Render(g, s, front, c), l, c, px, py);
    }
  }

  // ---------------------------------------------------------------- int16 coordinates on the panel

  /** A line for which no conversion to int16_t brings another screen position into it, or one out of it. */
  predicate Near(l: VLine) {
    && -65280 <= l.x < 65536 && -32768 <= l.h < 32768 && -65280 <= l.y < 98304 && l.y + l.h <= 65536
    && (l.y < -32768 ==> l.y + l.h <= 0)
  }

  lemma NarrowedCovers(l: VLine, x: int, y: int)
    requires Near(l) && 0 <= x < 256 && 0 <= y < 256
    ensures Narrowed(l).Covers(x, y) <==> l.Covers(x, y)
  {
  }

  lemma NarrowCovered(trace: seq<VLine>, x: int, y: int)
    requires 0 <= x < 256 && 0 <= y < 256 && forall l | l in trace :: Near(l)
    ensures Covered(Narrow(trace), x, y) <==> Covered(trace, x, y)
  {
    hide Narrowed, Near, VLine.Covers;
    forall i | 0 <= i < |trace|
      ensures Narrow(trace)[i].Covers(x, y) <==> trace[i].Covers(x, y)
    {
      assert trace[i] in trace;
      NarrowedCovers(trace[i], x, y);
    }
  }

  /** Columns less than 2^16 apart stay apart. */
  lemma NarrowOnce(trace: seq<VLine>, lo: int)
    requires OncePerColumn(trace) && forall l | l in trace :: lo <= l.x < lo + 65536
    ensures OncePerColumn(Narrow(trace))
  {
    hide I16;
    var t := Narrow(trace);
    forall i, j | 0 <= i < j < |t|
      ensures t[i].x != t[j].x
    {
      assert trace[i] in trace && trace[j] in trace;
      assert t[i].x == I16(trace[i].x) && t[j].x == I16(trace[j].x);
      StayApart(trace[i].x, trace[j].x);
    }
  }

  lemma StayApart(a: int, b: int)
    requires a != b && -65536 < a - b < 65536
    ensures I16(a) != I16(b)
  {
  }

  /** t is s with exactly the positions inside painted, each once, and nothing else changed, padding rows included. */
  ghost predicate PaintedExactly(g: Panel, s: seq<Byte>, t: seq<Byte>, inside: (int, int) -> bool, c: Color)
    requires g.Valid() && Fits(g, s) && Fits(g, t)
  {
    && (forall x, y | g.OnScreen(x, y) ::
          Lit(g, t, x, y) == if inside(x, y) then PaintPixel(Lit(g, s, x, y), c) else Lit(g, s, x, y))
    && (forall px: nat, py: nat | px < g.W && g.H <= py < 8 * g.Pages() :: Get(g, t, px, py) == Get(g, s, px, py))
  }

  /** Each physical pixel shows a logical position. */
  lemma PositionOf(g: Panel, px: nat, py: nat) returns (x: int, y: int)
    requires g.Valid() && px < g.W && py < g.H
    ensures g.OnScreen(x, y) && g.PhysX(x, y) == px && g.PhysY(x, y) == py
  {
    match g.rot
    case 0 => x, y := px, py;
    case 1 => x, y := py, g.W - px - 1;
    case 2 => x, y := g.W - px - 1, g.H - py - 1;
    case _ => x, y := g.H - py - 1, px;
  }

  /** Painting the same positions in INVERSE a second time restores the whole buffer. */
  lemma PaintedTwice(g: Panel, s: seq<Byte>, t: seq<Byte>, u: seq<Byte>, inside: (int, int) -> bool)
    requires g.Valid() && Fits(g, s) && Fits(g, t) && Fits(g, u)
    requires PaintedExactly(g, s, t, inside, Inverse) && PaintedExactly(g, t, u, inside, Inverse)
    ensures u == s
  {
    forall px: nat, py: nat | px < g.W && py < 8 * g.Pages()
      ensures Get(g, u, px, py) == Get(g, s, px, py)
    {
      if py < g.H {
        var x, y := PositionOf(g, px, py);
        assert Lit(g, u, x, y) == Lit(g, s, x, y);
      }
    }
    BufferExtensional(g, u, s);
  }

  /** What DrawTrace leaves, for lines that no conversion disturbs. */
  lemma TracePaints(g: Panel, s: seq<Byte>, trace: seq<VLine>, lo: int, inside: (int, int) -> bool, c: Color)
    requires g.Valid() && Fits(g, s) && OncePerColumn(trace)
    requires forall l | l in trace :: Near(l) && lo <= l.x < lo + 65536
    requires forall x, y :: Covered(trace, x, y) <==> inside(x, y)
    ensures PaintedExactly(g, s, Render(g, s, Narrow(trace), c), inside, c)
  {
    hide Render, Lit, Covered, OncePerColumn, Narrow, Near, Get;
    NarrowOnce(trace, lo);
    var t := Render(g, s, Narrow(trace), c);
    forall x, y | g.OnScreen(x, y)
      ensures Lit(g, t, x, y) == if inside(x, y) then PaintPixel(Lit(g, s, x, y), c) else Lit(g, s, x, y)
    {
      PaintsOnce(g, s, Narrow(trace), c, x, y);
      NarrowCovered(trace, x, y);
    }
    forall px: nat, py: nat | px < g.W && g.H <= py < 8 * g.Pages()
      ensures Get(g, t, px, py) == Get(g, s, px, py)
    {
      PaddingStays(g, s, Narrow(trace), c, px, py);
    }
  }

  /** The positions a circle of any radius fills: the disc, or the one pixel that a radius of zero stands for. */
  predicate InFilledCircle(x0: int, y0: int, r: nat, x: int, y: int) {
    if r == 0 then x == x0 && y == y0 else InDisc(r, x - x0, y - y0)
  }

  lemma DiscLines(g: Panel, trace: seq<VLine>, x0: int16, y0: int16, r: nat)
    requires r <= 16383
    requires r == 0 ==> trace == [VLine(x0, y0, 1)]
    requires r >= 1 ==> forall k :: k in Columns(trace) <==> x0 - r <= k <= x0 + r
    requires r >= 1 ==> forall l | l in trace :: l == ColumnLine(x0, y0, r, 1, l.x)
    ensures NoneWraps(g, trace)
    ensures forall l | l in trace :: Near(l) && x0 - r <= l.x < x0 - r + 65536
  {
    hide Reach;
    forall l | l in trace
      ensures Near(l) && x0 - r <= l.x <= x0 + r && 0 <= l.h < 32768
    {
      assert l.x in Columns(trace);
    }
  }

  /** fillCircle on the panel, for every centre: each pixel of the disc is painted exactly once, so that INVERSE
      toggles it, and nothing else changes. */
  method FillCircleOn(d: Display, x0: int16, y0: int16, r: nat, c: Color)
    requires d.Valid() && r <= 16383
    modifies d.buffer
    ensures d.Valid()
    ensures PaintedExactly(d.Geometry(), old(d.buffer[..]), d.buffer[..], (x, y) => InFilledCircle(x0, y0, r, x, y), c)
  {
    hide PaintedExactly, Columns, ColumnLine, InDisc, OncePerColumn, Near, NoneWraps, Render, Narrow;
    var trace := FillCircle(x0, y0, r);
    DiscLines(d.Geometry(), trace, x0, y0, r);
    TracePaints(d.Geometry(), d.buffer[..], trace, x0 - r, (x, y) => InFilledCircle(x0, y0, r, x, y), c);
    DrawTrace(d, trace, c);
  }

  predicate InRect(x: int, y: int, w: int, h: int, px: int, py: int) {
    x <= px < x + w && y <= py < y + h
  }

  /** The rectangle has a column on the screen, and a height so negative that the fast line wraps and draws there. */
  predicate RectWraps(g: Panel, x: int16, y: int16, w: int16, h: int16) {
    Max(x, 0) < x as int + w as int && VLineWraps(g, Max(x, 0), y, h)
  }

  /** Of the columns with the same rows, one at most is clipped to a given position. */
  lemma ColumnsApart(g: Panel, k: int16, k': int16, y: int16, h: int16, px: nat, py: nat)
    requires g.Valid() && 0 <= k < g.Width() && px < g.W && py < g.H
    requires VClipped(g, k, y, h).Contains(px, py) && VClipped(g, k', y, h).Contains(px, py)
    ensures k == k'
  {
    hide ClipStart, ClipEnd;
  }

  lemma {:induction false} HitOnce(g: Panel, trace: seq<VLine>, k: int16, y: int16, h: int16, px: nat, py: nat)
    requires g.Valid() && 0 <= k < g.Width() && px < g.W && py < g.H && VClipped(g, k, y, h).Contains(px, py)
    requires OncePerColumn(trace) && forall l | l in trace :: l == VLine(l.x, y, h) && -32768 <= l.x < 32768
    ensures ClipHits(g, trace, px, py) == if k in Columns(trace) then 1 else 0
  {
    hide VClipped, Rect.Contains;
    if trace != [] {
      var front, l := trace[..|trace| - 1], trace[|trace| - 1];
      assert trace == front + [l];
      HitOnce(g, front, k, y, h, px, py);
      LastColumn(front, l, k);
      if VClipped(g, l.x, y, h).Contains(px, py) {
        ColumnsApart(g, k, l.x, y, h, px, py);
      }
    }
  }

  lemma LastColumn(front: seq<VLine>, l: VLine, k: int)
    requires OncePerColumn(front + [l])
    ensures k in Columns(front + [l]) <==> k in Columns(front) || k == l.x
    ensures l.x !in Columns(front)
  {
    var trace := front + [l];
    assert forall m :: m in trace <==> m in front || m == l;
    assert l in trace;
    forall m | m in front
      ensures m.x != l.x
    {
      var i :| 0 <= i < |front| && front[i] == m;
      assert trace[i].x != trace[|trace| - 1].x;
    }
  }

  /** Then an empty rectangle does change the panel in INVERSE. */
  lemma WrapShows(g: Panel, s: seq<Byte>, t: seq<Byte>, trace: seq<VLine>, x: int16, y: int16, w: int16, h: int16,
      inside: (int, int) -> bool)
    requires g.Valid() && RectWraps(g, x, y, w, h) && Toggled(g, s, t, trace) && OncePerColumn(trace)
    requires forall l | l in trace :: l == VLine(l.x, y, h) && -32768 <= l.x < 32768
    requires forall k :: k in Columns(trace) <==> x <= k < x + w
    requires h < 0 ==> forall px, py :: !inside(px, py)
    ensures !PaintedExactly(g, s, t, inside, Inverse)
  {
    hide Get, Columns, OncePerColumn;
    var k: int16 := Max(x, 0);
    VClippedWraps(g, k, y, h);
    var area := VClipped(g, k, y, h);
    HitOnce(g, trace, k, y, h, area.l, area.t);
    var px, py := PositionOf(g, area.l, area.t);
    assert Lit(g, t, px, py) != Lit(g, s, px, py);
  }

  /** fillRect on the panel, wherever its loop ends: each pixel of the rectangle once, unless its height wraps. */
  method FillRectOn(d: Display, x: int16, y: int16, w: int16, h: int16, c: Color)
    requires d.Valid() && RectEnds(x, w)
    modifies d.buffer
    ensures d.Valid()
    ensures var painted :=
        PaintedExactly(d.Geometry(), old(d.buffer[..]), d.buffer[..], (px, py) => InRect(x, y, w, h, px, py), c);
      var wraps := RectWraps(d.Geometry(), x, y, w, h);
      (!wraps ==> painted) && (c == Inverse ==> (painted <==> !wraps))
  {
    hide PaintedExactly, OncePerColumn, Columns, Near, NoneWraps, Render, Narrow, RectWraps, Toggled, LineWithin;
    ghost var s := d.buffer[..];
    var trace := FillRect(x, y, w, h);
    RectCovered(trace, x, y, w, h);
    ghost var inside := (px, py) => InRect(x, y, w, h, px, py);
    if !RectWraps(d.Geometry(), x, y, w, h) {
      LinesWithin(d.Geometry(), trace, x, y, w, h);
      TracePaints(d.Geometry(), s, trace, x, inside, c);
    }
    DrawTrace(d, trace, c);
    if c == Inverse && RectWraps(d.Geometry(), x, y, w, h) {
      ColumnsInt16(trace, x, w);
      WrapShows(d.Geometry(), s, d.buffer[..], trace, x, y, w, h, inside);
    }
  }

  lemma ColumnsInt16(trace: seq<VLine>, x: int16, w: int16)
    requires RectEnds(x, w) && forall k :: k in Columns(trace) <==> x <= k < x + w
    ensures forall l | l in trace :: -32768 <= l.x < 32768
  {
    forall l | l in trace
      ensures -32768 <= l.x < 32768
    {
      assert l.x in Columns(trace);
    }
  }

  lemma RectCovered(trace: seq<VLine>, x: int, y: int, w: int, h: int)
    requires forall l | l in trace :: l == VLine(l.x, y, h)
    requires forall k :: k in Columns(trace) <==> x <= k < x + w
    ensures forall px, py :: Covered(trace, px, py) <==> InRect(x, y, w, h, px, py)
    ensures forall l | l in trace :: LineWithin(l, x, y, w, h)
  {
    forall l | l in trace
      ensures LineWithin(l, x, y, w, h)
    {
      assert l.x in Columns(trace);
    }
    forall px, py
      ensures Covered(trace, px, py) <==> InRect(x, y, w, h, px, py)
    {
      if InRect(x, y, w, h, px, py) {
        LineOf(trace, px);
      }
    }
  }

  lemma LinesWithin(g: Panel, trace: seq<VLine>, x: int16, y: int16, w: int16, h: int16)
    requires !RectWraps(g, x, y, w, h) && forall l | l in trace :: LineWithin(l, x, y, w, h)
    ensures NoneWraps(g, trace)
    ensures forall l | l in trace :: Near(l) && x as int <= l.x < x as int + 65536
  {
  }

  /** What fillRoundRect fills: a negative radius widens the rectangle instead, in int16_t. */
  predicate InFilledRoundRect(x: int16, y: int16, w: int16, h: int16, r: int, px: int, py: int) {
    if r >= 0 then InRoundRect(x, y, w, h, r, px, py) else InRect(I16(x + r), y, I16(w - 2 * r), h, px, py)
  }

  lemma ClippedFits(w: int16, h: int16, r0: int16)
    requires ClippedRadius(w, h, r0) >= 0
    ensures var r := ClippedRadius(w, h, r0);
      r <= 16383 && I16(w - 2 * r) == w - 2 * r && (r > 0 ==> I16(h - 2 * r - 1) == h - 2 * r - 1 >= -1)
  {
  }

  /** For a radius that is not negative, the calls fillRoundRect makes draw in int16_t the narrowed columns: its widths
      and heights fit, and the counter, the columns of the corners and their rows are sums that become int16_t early. */
  lemma RoundRectArguments(x: int16, y: int16, w: int16, h: int16, r0: int16, k: nat, d: int)
    requires ClippedRadius(w, h, r0) >= 0
    ensures var r := ClippedRadius(w, h, r0);
      && r <= 16383 && I16(w - 2 * r) == w - 2 * r && (r > 0 ==> I16(h - 2 * r - 1) == h - 2 * r - 1 >= -1)
      && Counter(I16(x + r), k) == I16(x + r + k)
      && I16(I16(x + w - r - 1) + d) == I16(x + w - r - 1 + d)
      && I16(I16(x + r) - d) == I16(x + r - d)
      && I16(I16(y + r) - d) == I16(y + r - d)
  {
    hide *;
    var r := ClippedRadius(w, h, r0);
    ClippedFits(w, h, r0);
    CounterNarrows(x + r, k);
    SumNarrows(x + w - r - 1, d);
    SumNarrows(x + r, -d);
    SumNarrows(y + r, -d);
  }

  /** fillRoundRect on the panel, wherever the loop of its middle part ends, in the same way. */
  method FillRoundRectOn(d: Display, x: int16, y: int16, w: int16, h: int16, r0: int16, c: Color)
    requires d.Valid()
    requires var r := ClippedRadius(w, h, r0); RectEnds(I16(x + r), I16(w - 2 * r))
    modifies d.buffer
    ensures d.Valid()
    ensures var r := ClippedRadius(w, h, r0);
      var painted := PaintedExactly(d.Geometry(), old(d.buffer[..]), d.buffer[..],
                                    (px, py) => InFilledRoundRect(x, y, w, h, r, px, py), c);
      var wraps := RectWraps(d.Geometry(), I16(x + r), y, I16(w - 2 * r), h);
      (!wraps ==> painted) && (c == Inverse ==> (painted <==> !wraps))
  {
    hide OncePerColumn, Near, NoneWraps, Render, Narrow, LineWithin, InRoundRect, InRect, RectEnds, RectWraps, Columns,
      Toggled, ClippedRadius;
    ghost var s := d.buffer[..];
    var r := ClippedRadius(w, h, r0);
    if r < 0 {
      FillRectOn(d, I16(x + r), y, I16(w - 2 * r), h, c);
    } else {
      ghost var inside := (px, py) => InFilledRoundRect(x, y, w, h, r, px, py);
      MiddleWraps(d.Geometry(), x, y, w, h, r0);
      var trace := FillRoundRect(x, y, w, h, r0);
      if !RectWraps(d.Geometry(), x, y, w, h) {
        LinesWithin(d.Geometry(), trace, x, y, w, h);
        TracePaints(d.Geometry(), s, trace, x, inside, c);
      }
      DrawTrace(d, trace, c);
      if c == Inverse && RectWraps(d.Geometry(), x, y, w, h) {
        ColumnsInt16(trace, x, w);
        FlatLines(trace, x, y, w, h);
        WrapShows(d.Geometry(), s, d.buffer[..], trace, x, y, w, h, inside);
      }
    }
  }

  /** The height can only be negative without a radius. */
  lemma MiddleWraps(g: Panel, x: int16, y: int16, w: int16, h: int16, r0: int16)
    requires ClippedRadius(w, h, r0) >= 0
    ensures var r := ClippedRadius(w, h, r0);
      && (RectWraps(g, I16(x + r), y, I16(w - 2 * r), h) <==> RectWraps(g, x, y, w, h))
      && (RectWraps(g, x, y, w, h) ==> r == 0 && h < 0)
      && (r == 0 ==> I16(x + r) == x && I16(w - 2 * r) == w)
  {
  }

  lemma FlatLines(trace: seq<VLine>, x: int, y: int, w: int, h: int)
    requires h < 0 && forall l | l in trace :: LineWithin(l, x, y, w, h)
    ensures forall l | l in trace :: l == VLine(l.x, y, h)
    ensures forall px, py :: !InRoundRect(x, y, w, h, 0, px, py)
  {
  }
}
