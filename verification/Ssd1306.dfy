/** The page-packed 1-bit frame buffer of the SSD1306 driver.

    One byte holds eight vertically stacked pixels of a column; a page is a row of such
    bytes. The driver draws single pixels, and re-implements horizontal and vertical lines
    with byte masks. Here both are proved to leave the same buffer. */
module Ssd1306 {
  import opened Machine

  datatype Color = Black | White | Inverse

  /** Panel dimensions (the constructors take them as uint8_t) and the current rotation. */
  datatype Panel = Panel(W: nat, H: nat, rot: nat) {
    predicate Valid() {
      W <= 255 && H <= 255 && rot < 4
    }

    function Pages(): nat {
      (H + 7) / 8
    }

    /** Logical size, as set by setRotation. */
    function Width(): nat {
      if rot % 2 == 0 then W else H
    }

    function Height(): nat {
      if rot % 2 == 0 then H else W
    }

    predicate OnScreen(x: int, y: int) {
      0 <= x < Width() && 0 <= y < Height()
    }

    /** Physical column and row of a logical position. */
    function PhysX(x: int, y: int): int {
      match rot
      case 0 => x
      case 1 => W - y - 1
      case 2 => W - x - 1
      case _ => y
    }

    function PhysY(x: int, y: int): int {
      match rot
      case 0 => y
      case 1 => x
      case 2 => H - y - 1
      case _ => H - x - 1
    }
  }

  /** Each rotation is a quarter turn from the one before: to the right now is where downward was, downward is where
      left was, and the upper left corner has moved to the next corner of the panel. */
  lemma RotationTurns(w: nat, h: nat, rot: nat, x: int, y: int)
    requires w > 0 && h > 0 && rot < 3
    ensures var (g, t) := (Panel(w, h, rot), Panel(w, h, rot + 1));
      && t.PhysX(x + 1, y) - t.PhysX(x, y) == g.PhysX(x, y + 1) - g.PhysX(x, y)
      && t.PhysY(x + 1, y) - t.PhysY(x, y) == g.PhysY(x, y + 1) - g.PhysY(x, y)
      && t.PhysX(x, y + 1) - t.PhysX(x, y) == g.PhysX(x, y) - g.PhysX(x + 1, y)
      && t.PhysY(x, y + 1) - t.PhysY(x, y) == g.PhysY(x, y) - g.PhysY(x + 1, y)
      && t.PhysX(0, 0) == g.PhysX(g.Width() - 1, 0) && t.PhysY(0, 0) == g.PhysY(g.Width() - 1, 0)
      && t.Width() == g.Height() && t.Height() == g.Width()
    ensures var g := Panel(w, h, 0); g.PhysX(x, y) == x && g.PhysY(x, y) == y && g.Width() == w && g.Height() == h
  {
  }

  // ---------------------------------------------------------------- bytes and masks

  /** A uint8_t as its eight bits, least significant first. */
  type Byte = b: seq<bool> | |b| == 8 witness [false, false, false, false, false, false, false, false]

  /** The byte with value n. */
  function Of(n: nat): (r: Byte)
    requires n < 256
  {
    [n % 2 == 1, n / 2 % 2 == 1, n / 4 % 2 == 1, n / 8 % 2 == 1,
     n / 16 % 2 == 1, n / 32 % 2 == 1, n / 64 % 2 == 1, n / 128 % 2 == 1]
  }

  function Or(a: Byte, b: Byte): (r: Byte) {
    seq(8, j requires 0 <= j < 8 => a[j] || b[j])
  }

  function And(a: Byte, b: Byte): (r: Byte) {
    seq(8, j requires 0 <= j < 8 => a[j] && b[j])
  }

  function Xor(a: Byte, b: Byte): (r: Byte) {
    seq(8, j requires 0 <= j < 8 => a[j] != b[j])
  }

  function Not(a: Byte): (r: Byte) {
    seq(8, j requires 0 <= j < 8 => !a[j])
  }

  /** a >> k */
  function Shr(a: Byte, k: nat): (r: Byte) {
    seq(8, j requires 0 <= j < 8 => j + k < 8 && a[j + k])
  }

  /** 1 << j */
  function Bit(j: nat): (r: Byte)
    requires j < 8
  {
    seq(8, i requires 0 <= i < 8 => i == j)
  }

  /** One byte written by the driver: |= mask, &= ~mask or ^= mask. */
  function Paint(b: Byte, mask: Byte, c: Color): (r: Byte) {
    match c
    case White => Or(b, mask)
    case Black => And(b, Not(mask))
    case Inverse => Xor(b, mask)
  }

  /** What painting does to one pixel. */
  function PaintPixel(was: bool, c: Color): bool {
    match c
    case White => true
    case Black => false
    case Inverse => !was
  }

  // ---------------------------------------------------------------- the buffer as a function of its pixels

  /** As few pages as hold all rows. */
  lemma EnoughPages(g: Panel)
    ensures g.H <= 8 * g.Pages() < g.H + 8
  {
  }

  /** Index of the byte of column x in page p. */
  function Idx(g: Panel, x: nat, p: nat): nat {
    x + p * g.W
  }

  lemma IdxInRange(g: Panel, x: nat, p: nat)
    requires x < g.W && p < g.Pages()
    ensures Idx(g, x, p) < g.W * g.Pages()
  {
    Apart(p, g.Pages(), g.W);
  }

  lemma NextPage(g: Panel, x: nat, p: nat)
    ensures Idx(g, x, p + 1) == Idx(g, x, p) + g.W
  {
  }

  lemma IdxInjective(g: Panel, x: nat, p: nat, x': nat, p': nat)
    requires x < g.W && x' < g.W
    requires Idx(g, x, p) == Idx(g, x', p')
    ensures x == x' && p == p'
  {
    Apart(p, p', g.W);
    Apart(p', p, g.W);
  }

  /** A buffer of the size begin() allocates. */
  predicate Fits(g: Panel, s: seq<Byte>) {
    |s| == g.W * g.Pages()
  }

  /** The bit stored for physical column x and row y; rows beyond H exist when H is not a multiple of 8. */
  function Get(g: Panel, s: seq<Byte>, x: nat, y: nat): bool
    requires Fits(g, s) && x < g.W && y < 8 * g.Pages()
  {
    IdxInRange(g, x, y / 8);
    s[Idx(g, x, y / 8)][y % 8]
  }

  lemma IdxOnto(g: Panel, i: nat)
    requires i < g.W * g.Pages()
    ensures var x, p := i % g.W, i / g.W; x < g.W && p < g.Pages() && Idx(g, x, p) == i
  {
    var p := i / g.W;
    assert i == p * g.W + i % g.W;
    MulMonotone(g.Pages(), p, g.W);
    hide Panel.Pages;
  }

  lemma BitOf(g: Panel, s: seq<Byte>, x: nat, p: nat, j: nat)
    requires Fits(g, s) && x < g.W && p < g.Pages() && j < 8
    ensures Idx(g, x, p) < |s| && Get(g, s, x, 8 * p + j) == s[Idx(g, x, p)][j]
  {
    IdxInRange(g, x, p);
    hide Idx, Panel.Pages;
    assert (8 * p + j) / 8 == p && (8 * p + j) % 8 == j;
  }

  lemma BufferExtensional(g: Panel, s: seq<Byte>, t: seq<Byte>)
    requires Fits(g, s) && Fits(g, t)
    requires forall x: nat, y: nat | x < g.W && y < 8 * g.Pages() :: Get(g, s, x, y) == Get(g, t, x, y)
    ensures s == t
  {
    hide Idx, Panel.Pages, Get;
    forall i | 0 <= i < |s| ensures s[i] == t[i] {
      var x, p := i % g.W, i / g.W;
      IdxOnto(g, i);
      forall j | 0 <= j < 8 ensures s[i][j] == t[i][j] {
        BitOf(g, s, x, p, j);
        BitOf(g, t, x, p, j);
      }
    }
  }

  /** Columns [l, r) and rows [t, b). */
  datatype Rect = Rect(l: int, r: int, t: int, b: int) {
    predicate Contains(x: int, y: int) {
      l <= x < r && t <= y < b
    }
  }

  /** t is s with the part of the rectangle that lies on the panel painted. */
  ghost predicate Painted(g: Panel, s: seq<Byte>, t: seq<Byte>, area: Rect, c: Color) {
    && Fits(g, s) && Fits(g, t)
    && forall x: nat, y: nat | x < g.W && y < 8 * g.Pages() ::
      Get(g, t, x, y) == if y < g.H && area.Contains(x, y) then PaintPixel(Get(g, s, x, y), c) else Get(g, s, x, y)
  }

  /** Writing one byte paints the rows its mask selects, and nothing else. */
  lemma ByteWritten(g: Panel, s: seq<Byte>, x: nat, p: nat, mask: Byte, ylo: nat, yhi: nat, c: Color)
    requires Fits(g, s) && x < g.W && p < g.Pages()
    requires 8 * p <= ylo && yhi <= 8 * p + 8 && yhi <= g.H
    requires forall j: nat | j < 8 :: mask[j] == (ylo <= 8 * p + j < yhi)
    ensures Idx(g, x, p) < |s|
    ensures Painted(g, s, s[Idx(g, x, p) := Paint(s[Idx(g, x, p)], mask, c)], Rect(x, x + 1, ylo, yhi), c)
  {
    IdxInRange(g, x, p);
    var i := Idx(g, x, p);
    var t: seq<Byte> := s[i := Paint(s[i], mask, c)];
    forall x': nat, y: nat | x' < g.W && y < 8 * g.Pages()
      ensures Get(g, t, x', y)
        == if y < g.H && Rect(x, x + 1, ylo, yhi).Contains(x', y) then PaintPixel(Get(g, s, x', y), c)
           else Get(g, s, x', y)
    {
      if Idx(g, x', y / 8) == i {
        IdxInjective(g, x', y / 8, x, p);
        assert y == 8 * p + y % 8;
      } else {
        IdxInRange(g, x', y / 8);
      }
    }
  }

  /** Two rectangles that share no pixel and make up a third. */
  ghost predicate Splits(a: Rect, b: Rect, area: Rect) {
    forall x: nat, y: nat ::
      !(a.Contains(x, y) && b.Contains(x, y)) && (area.Contains(x, y) <==> a.Contains(x, y) || b.Contains(x, y))
  }

  /** Painting two parts one after the other paints the whole. */
  lemma PaintedUnion(g: Panel, s: seq<Byte>, t: seq<Byte>, u: seq<Byte>, a: Rect, b: Rect, area: Rect, c: Color)
    requires Painted(g, s, t, a, c) && Painted(g, t, u, b, c)
    requires Splits(a, b, area)
    ensures Painted(g, s, u, area, c)
  {
    forall x: nat, y: nat | x < g.W && y < 8 * g.Pages()
      ensures Get(g, u, x, y)
        == if y < g.H && area.Contains(x, y) then PaintPixel(Get(g, s, x, y), c) else Get(g, s, x, y)
    {
      assert Get(g, u, x, y) == if y < g.H && b.Contains(x, y) then PaintPixel(Get(g, t, x, y), c) else Get(g, t, x, y);
      assert Get(g, t, x, y) == if y < g.H && a.Contains(x, y) then PaintPixel(Get(g, s, x, y), c) else Get(g, s, x, y);
    }
  }

  /** The painted pixels determine the buffer. */
  lemma PaintedUnique(g: Panel, s: seq<Byte>, t: seq<Byte>, u: seq<Byte>, a: Rect, b: Rect, c: Color)
    requires Painted(g, s, t, a, c) && Painted(g, s, u, b, c)
    requires forall x: nat, y: nat | x < g.W && y < g.H :: a.Contains(x, y) <==> b.Contains(x, y)
    ensures t == u
  {
    forall x: nat, y: nat | x < g.W && y < 8 * g.Pages() ensures Get(g, t, x, y) == Get(g, u, x, y) {
    }
    BufferExtensional(g, t, u);
  }

  lemma NothingPainted(g: Panel, s: seq<Byte>, area: Rect, c: Color)
    requires Fits(g, s)
    requires area.l >= area.r || area.t >= area.b || area.l >= g.W || area.r <= 0 || area.t >= g.H || area.b <= 0
    ensures Painted(g, s, s, area, c)
  {
  }

  // ---------------------------------------------------------------- one pixel, and lines of pixels

  /** The effect of drawPixel on the buffer. */
  function PixelDrawn(g: Panel, s: seq<Byte>, x: int, y: int, c: Color): (t: seq<Byte>)
    requires g.Valid() && Fits(g, s)
    ensures Fits(g, t)
  {
    if g.OnScreen(x, y) then
      var px, py := g.PhysX(x, y), g.PhysY(x, y);
      IdxInRange(g, px, py / 8);
      var i := Idx(g, px, py / 8);
      s[i := Paint(s[i], Bit(py % 8), c)]
    else s
  }

  /** drawPixel once per pixel of a horizontal line of n pixels, left to right. */
  function HPixels(g: Panel, s: seq<Byte>, x: int, y: int, n: int, c: Color): (t: seq<Byte>)
    requires g.Valid() && Fits(g, s)
    ensures Fits(g, t)
    decreases n
  {
    if n <= 0 then s else PixelDrawn(g, HPixels(g, s, x, y, n - 1, c), x + n - 1, y, c)
  }

  /** drawPixel once per pixel of a vertical line of n pixels, top to bottom. */
  function VPixels(g: Panel, s: seq<Byte>, x: int, y: int, n: int, c: Color): (t: seq<Byte>)
    requires g.Valid() && Fits(g, s)
    ensures Fits(g, t)
    decreases n
  {
    if n <= 0 then s else PixelDrawn(g, VPixels(g, s, x, y, n - 1, c), x, y + n - 1, c)
  }

  /** The physical rectangle a logical horizontal line of n pixels covers. */
  function HArea(g: Panel, x: int, y: int, n: int): Rect {
    match g.rot
    case 0 => Rect(x, x + n, y, y + 1)
    case 1 => Rect(g.W - y - 1, g.W - y, x, x + n)
    case 2 => Rect(g.W - x - n, g.W - x, g.H - y - 1, g.H - y)
    case _ => Rect(y, y + 1, g.H - x - n, g.H - x)
  }

  /** The physical rectangle a logical vertical line of n pixels covers. */
  function VArea(g: Panel, x: int, y: int, n: int): Rect {
    match g.rot
    case 0 => Rect(x, x + 1, y, y + n)
    case 1 => Rect(g.W - y - n, g.W - y, x, x + 1)
    case 2 => Rect(g.W - x - 1, g.W - x, g.H - y - n, g.H - y)
    case _ => Rect(y, y + n, g.H - x - 1, g.H - x)
  }

  lemma PixelPaints(g: Panel, s: seq<Byte>, x: int, y: int, c: Color)
    requires g.Valid() && Fits(g, s)
    ensures HArea(g, x, y, 1) == VArea(g, x, y, 1)
    ensures Painted(g, s, PixelDrawn(g, s, x, y, c), HArea(g, x, y, 1), c)
  {
    var px, py := g.PhysX(x, y), g.PhysY(x, y);
    assert HArea(g, x, y, 1) == Rect(px, px + 1, py, py + 1);
    if g.OnScreen(x, y) {
      assert px < g.W && py < g.H;
      ByteWritten(g, s, px, py / 8, Bit(py % 8), py, py + 1, c);
    } else {
      NothingPainted(g, s, Rect(px, px + 1, py, py + 1), c);
    }
  }

  /** A pixel that is on the screen shows what was painted there, and no other position changes. */
  lemma PixelShows(g: Panel, s: seq<Byte>, x: int, y: int, c: Color, x': int, y': int)
    requires g.Valid() && Fits(g, s) && g.OnScreen(x, y) && g.OnScreen(x', y')
    ensures var t := PixelDrawn(g, s, x, y, c);
      var (was, now) := (Get(g, s, g.PhysX(x', y'), g.PhysY(x', y')), Get(g, t, g.PhysX(x', y'), g.PhysY(x', y')));
      if x' == x && y' == y then now == (if c == White then true else if c == Black then false else !was)
      else now == was
  {
    hide PixelDrawn, Get;
    PixelPaints(g, s, x, y, c);
  }

  lemma HLineGrows(g: Panel, x: int, y: int, n: nat)
    requires n > 0
    ensures Splits(HArea(g, x, y, n - 1), HArea(g, x + n - 1, y, 1), HArea(g, x, y, n))
  {
  }

  lemma VLineGrows(g: Panel, x: int, y: int, n: nat)
    requires n > 0
    ensures Splits(VArea(g, x, y, n - 1), VArea(g, x, y + n - 1, 1), VArea(g, x, y, n))
  {
  }

  lemma NoArea(g: Panel, x: int, y: int)
    ensures HArea(g, x, y, 0).l >= HArea(g, x, y, 0).r || HArea(g, x, y, 0).t >= HArea(g, x, y, 0).b
    ensures VArea(g, x, y, 0).l >= VArea(g, x, y, 0).r || VArea(g, x, y, 0).t >= VArea(g, x, y, 0).b
  {
  }

  lemma {:induction false} HPixelsPaint(g: Panel, s: seq<Byte>, x: int, y: int, n: nat, c: Color)
    requires g.Valid() && Fits(g, s)
    ensures Painted(g, s, HPixels(g, s, x, y, n, c), HArea(g, x, y, n), c)
    decreases n
  {
    hide Painted, PixelDrawn, HArea;
    if n == 0 {
      NoArea(g, x, y);
      NothingPainted(g, s, HArea(g, x, y, 0), c);
    } else {
      HPixelsPaint(g, s, x, y, n - 1, c);
      HLineGrows(g, x, y, n);
      var u := HPixels(g, s, x, y, n - 1, c);
      PixelPaints(g, u, x + n - 1, y, c);
      PaintedUnion(g, s, u, HPixels(g, s, x, y, n, c), HArea(g, x, y, n - 1), HArea(g, x + n - 1, y, 1),
        HArea(g, x, y, n), c);
    }
  }

  lemma {:induction false} VPixelsPaint(g: Panel, s: seq<Byte>, x: int, y: int, n: nat, c: Color)
    requires g.Valid() && Fits(g, s)
    ensures Painted(g, s, VPixels(g, s, x, y, n, c), VArea(g, x, y, n), c)
    decreases n
  {
    hide Painted, PixelDrawn, VArea;
    if n == 0 {
      NoArea(g, x, y);
      NothingPainted(g, s, VArea(g, x, y, 0), c);
    } else {
      VPixelsPaint(g, s, x, y, n - 1, c);
      VLineGrows(g, x, y, n);
      var u := VPixels(g, s, x, y, n - 1, c);
      PixelPaints(g, u, x, y + n - 1, c);
      PaintedUnion(g, s, u, VPixels(g, s, x, y, n, c), VArea(g, x, y, n - 1), VArea(g, x, y + n - 1, 1),
        VArea(g, x, y, n), c);
    }
  }

  // ---------------------------------------------------------------- where int16 arithmetic gives the fast lines away

  /** A negative length so extreme that the clipping arithmetic wraps to a positive one,
      when the line is drawn in the direction of the physical axis. */
  predicate WrapsForward(size: nat, u: int16, n: int16) {
    n < 0 && u + n < -32768 && u + n != -65536 && size > 0
  }

  /** The same when rotation reverses the axis. */
  predicate WrapsBackward(size: nat, u: int16, n: int16) {
    n < 0 && 32768 <= size - u - n < 65536 && size - 32768 < u < size && size > 0
  }

  predicate HLineWraps(g: Panel, x: int16, y: int16, n: int16) {
    && 0 <= y < g.Height()
    && if g.rot < 2 then WrapsForward(g.Width(), x, n) else WrapsBackward(g.Width(), x, n)
  }

  predicate VLineWraps(g: Panel, x: int16, y: int16, n: int16) {
    && 0 <= x < g.Width()
    && if g.rot == 0 || g.rot == 3 then WrapsForward(g.Height(), y, n) else WrapsBackward(g.Height(), y, n)
  }

  // ---------------------------------------------------------------- clipping, in int16 arithmetic

  /** Start and length after the clipping both internal line routines begin with. */
  function ClipStart(u: int16): int {
    if u < 0 then 0 else u
  }

  function ClipLength(size: nat, u: int16, n: int16): int {
    var m := if u < 0 then I16(n + u) else n;
    if ClipStart(u) + m > size then I16(size - ClipStart(u)) else m
  }

  /** The extent along the axis that an internal line routine draws. */
  function ClipEnd(size: nat, u: int16, n: int16): int {
    if ClipLength(size, u, n) > 0 then ClipStart(u) + ClipLength(size, u, n) else ClipStart(u)
  }

  /** Outside the wrapping domain clipping keeps exactly the on-panel part of [u, u + n);
      inside it something is drawn although n is negative. */
  lemma ClipForward(size: nat, u: int16, n: int16, k: nat)
    requires size <= 255 && k < size
    ensures !WrapsForward(size, u, n) ==> (ClipStart(u) <= k < ClipEnd(size, u, n) <==> u <= k < u + n)
    ensures WrapsForward(size, u, n) ==> ClipStart(u) == 0 < ClipEnd(size, u, n) <= size && n < 0
  {
  }

  lemma ShiftedStart(size: nat, u: int16, n: int16)
    requires size <= 255
    ensures I16(I16(size - u - 1) - (n - 1)) == I16(size - u - n)
  {
  }

  /** The same after rotation has replaced u by size - u - n, itself computed in int16. */
  lemma ClipBackward(size: nat, u: int16, n: int16, k: nat)
    requires size <= 255 && k < size
    ensures var v := I16(size - u - n);
      && (!WrapsBackward(size, u, n) ==> (ClipStart(v) <= k < ClipEnd(size, v, n) <==> size - u - n <= k < size - u))
      && (WrapsBackward(size, u, n) ==> ClipStart(v) == 0 < ClipEnd(size, v, n) <= size && n < 0)
  {
  }

  lemma Crossed(size: nat, v: int16, k: nat)
    requires size <= 255 && k < size
    ensures k == I16(size - v - 1) <==> k == size - v - 1
  {
  }

  lemma ClipInside(size: nat, u: int16, n: int16)
    requires size <= 255
    ensures 0 <= ClipStart(u) <= ClipEnd(size, u, n)
    ensures ClipStart(u) < ClipEnd(size, u, n)
      ==> ClipEnd(size, u, n) <= size && ClipLength(size, u, n) == ClipEnd(size, u, n) - ClipStart(u)
  {
  }

  /** A byte written next to what is painted so far, one column on or further down. */
  lemma ByteAppended(g: Panel, s: seq<Byte>, t: seq<Byte>, area: Rect, x: nat, p: nat, mask: Byte, ylo: nat, yhi: nat,
      whole: Rect, c: Color)
    requires Painted(g, s, t, area, c)
    requires x < g.W && p < g.Pages()
    requires 8 * p <= ylo && yhi <= 8 * p + 8 && yhi <= g.H
    requires forall j: nat | j < 8 :: mask[j] == (ylo <= 8 * p + j < yhi)
    requires Splits(area, Rect(x, x + 1, ylo, yhi), whole)
    ensures Idx(g, x, p) < |t|
    ensures Painted(g, s, t[Idx(g, x, p) := Paint(t[Idx(g, x, p)], mask, c)], whole, c)
  {
    ByteWritten(g, t, x, p, mask, ylo, yhi, c);
    PaintedUnion(g, s, t, t[Idx(g, x, p) := Paint(t[Idx(g, x, p)], mask, c)], area, Rect(x, x + 1, ylo, yhi), whole, c);
  }

  /** The rectangle the fast horizontal line paints: rotation and clipping in int16 arithmetic. */
  function HClipped(g: Panel, x: int16, y: int16, n: int16): Rect {
    match g.rot
    case 0 => Rect(ClipStart(x), ClipEnd(g.W, x, n), y, y + 1)
    case 1 => var px := I16(g.W - y - 1); Rect(px, px + 1, ClipStart(x), ClipEnd(g.H, x, n))
    case 2 => var u, py := I16(g.W - x - n), I16(g.H - y - 1); Rect(ClipStart(u), ClipEnd(g.W, u, n), py, py + 1)
    case _ => var u := I16(g.H - x - n); Rect(y, y + 1, ClipStart(u), ClipEnd(g.H, u, n))
  }

  function VClipped(g: Panel, x: int16, y: int16, n: int16): Rect {
    match g.rot
    case 0 => Rect(x, x + 1, ClipStart(y), ClipEnd(g.H, y, n))
    case 1 => var u := I16(g.W - y - n); Rect(ClipStart(u), ClipEnd(g.W, u, n), x, x + 1)
    case 2 => var px, u := I16(g.W - x - 1), I16(g.H - y - n); Rect(px, px + 1, ClipStart(u), ClipEnd(g.H, u, n))
    case _ => var py := I16(g.H - x - 1); Rect(ClipStart(y), ClipEnd(g.W, y, n), py, py + 1)
  }

  lemma HClippedAt(g: Panel, x: int16, y: int16, n: int16, px: nat, py: nat)
    requires g.Valid() && px < g.W && py < g.H
    ensures !HLineWraps(g, x, y, n) ==> (HClipped(g, x, y, n).Contains(px, py) <==> HArea(g, x, y, n).Contains(px, py))
  {
    hide ClipStart, ClipEnd, I16, WrapsForward, WrapsBackward;
    match g.rot
    case 0 => ClipForward(g.W, x, n, px);
    case 1 => ClipForward(g.H, x, n, py); Crossed(g.W, y, px);
    case 2 => ClipBackward(g.W, x, n, px); Crossed(g.H, y, py);
    case _ => ClipBackward(g.H, x, n, py);
  }

  lemma HClippedWraps(g: Panel, x: int16, y: int16, n: int16)
    requires g.Valid() && HLineWraps(g, x, y, n)
    ensures var area := HClipped(g, x, y, n);
      n < 0 && 0 <= area.l < g.W && 0 <= area.t < g.H && area.Contains(area.l, area.t)
  {
    match g.rot
    case 0 => ClipForward(g.W, x, n, 0);
    case 1 => ClipForward(g.H, x, n, 0); Crossed(g.W, y, g.W - y - 1);
    case 2 => ClipBackward(g.W, x, n, 0); Crossed(g.H, y, g.H - y - 1);
    case _ => ClipBackward(g.H, x, n, 0);
  }

  lemma VClippedAt(g: Panel, x: int16, y: int16, n: int16, px: nat, py: nat)
    requires g.Valid() && px < g.W && py < g.H
    ensures !VLineWraps(g, x, y, n) ==> (VClipped(g, x, y, n).Contains(px, py) <==> VArea(g, x, y, n).Contains(px, py))
  {
    hide ClipStart, ClipEnd, I16, WrapsForward, WrapsBackward;
    match g.rot
    case 0 => ClipForward(g.H, y, n, py);
    case 1 => ClipBackward(g.W, y, n, px);
    case 2 => ClipBackward(g.H, y, n, py); Crossed(g.W, x, px);
    case _ => ClipForward(g.W, y, n, px); Crossed(g.H, x, py);
  }

  lemma VClippedWraps(g: Panel, x: int16, y: int16, n: int16)
    requires g.Valid() && VLineWraps(g, x, y, n)
    ensures var area := VClipped(g, x, y, n);
      n < 0 && 0 <= area.l < g.W && 0 <= area.t < g.H && area.Contains(area.l, area.t)
  {
    match g.rot
    case 0 => ClipForward(g.H, y, n, 0);
    case 1 => ClipBackward(g.W, y, n, 0);
    case 2 => ClipBackward(g.H, y, n, 0); Crossed(g.W, x, g.W - x - 1);
    case _ => ClipForward(g.W, y, n, 0); Crossed(g.H, x, g.H - x - 1);
  }

  /** The clipped rectangle gives the buffer of the pixel loop, except exactly where int16 wraps. */
  lemma HLineMatches(g: Panel, s: seq<Byte>, t: seq<Byte>, x: int16, y: int16, n: int16, c: Color)
    requires g.Valid() && Painted(g, s, t, HClipped(g, x, y, n), c)
    ensures !HLineWraps(g, x, y, n) ==> t == HPixels(g, s, x, y, n, c)
    ensures HLineWraps(g, x, y, n) && c == Inverse ==> t != HPixels(g, s, x, y, n, c)
  {
    if HLineWraps(g, x, y, n) {
      HClippedWraps(g, x, y, n);
      var area := HClipped(g, x, y, n);
      assert Get(g, t, area.l, area.t) == PaintPixel(Get(g, s, area.l, area.t), c);
    } else {
      if n >= 0 {
        HPixelsPaint(g, s, x, y, n, c);
      } else {
        NothingPainted(g, s, HArea(g, x, y, n), c);
      }
      forall px: nat, py: nat | px < g.W && py < g.H
        ensures HClipped(g, x, y, n).Contains(px, py) <==> HArea(g, x, y, n).Contains(px, py)
      {
        HClippedAt(g, x, y, n, px, py);
      }
      PaintedUnique(g, s, t, HPixels(g, s, x, y, n, c), HClipped(g, x, y, n), HArea(g, x, y, n), c);
    }
  }

  lemma VLineMatches(g: Panel, s: seq<Byte>, t: seq<Byte>, x: int16, y: int16, n: int16, c: Color)
    requires g.Valid() && Painted(g, s, t, VClipped(g, x, y, n), c)
    ensures !VLineWraps(g, x, y, n) ==> t == VPixels(g, s, x, y, n, c)
    ensures VLineWraps(g, x, y, n) && c == Inverse ==> t != VPixels(g, s, x, y, n, c)
  {
    if VLineWraps(g, x, y, n) {
      VClippedWraps(g, x, y, n);
      var area := VClipped(g, x, y, n);
      assert Get(g, t, area.l, area.t) == PaintPixel(Get(g, s, area.l, area.t), c);
    } else {
      if n >= 0 {
        VPixelsPaint(g, s, x, y, n, c);
      } else {
        NothingPainted(g, s, VArea(g, x, y, n), c);
      }
      forall px: nat, py: nat | px < g.W && py < g.H
        ensures VClipped(g, x, y, n).Contains(px, py) <==> VArea(g, x, y, n).Contains(px, py)
      {
        VClippedAt(g, x, y, n, px, py);
      }
      PaintedUnique(g, s, t, VPixels(g, s, x, y, n, c), VClipped(g, x, y, n), VArea(g, x, y, n), c);
    }
  }

  // ---------------------------------------------------------------- the driver

  /** premask and postmask of drawFastVLineInternal */
  const PREMASK: seq<nat> := [0x00, 0x80, 0xC0, 0xE0, 0xF0, 0xF8, 0xFC, 0xFE]
  const POSTMASK: seq<nat> := [0x00, 0x01, 0x03, 0x07, 0x0F, 0x1F, 0x3F, 0x7F]

  lemma PremaskBits(mod: nat)
    requires 0 < mod < 8
    ensures forall j: nat | j < 8 :: Of(PREMASK[mod])[j] == (8 - mod <= j)
  {
    match mod
    case 1 => assert Of(PREMASK[1]) == [false, false, false, false, false, false, false, true];
    case 2 => assert Of(PREMASK[2]) == [false, false, false, false, false, false, true, true];
    case 3 => assert Of(PREMASK[3]) == [false, false, false, false, false, true, true, true];
    case 4 => assert Of(PREMASK[4]) == [false, false, false, false, true, true, true, true];
    case 5 => assert Of(PREMASK[5]) == [false, false, false, true, true, true, true, true];
    case 6 => assert Of(PREMASK[6]) == [false, false, true, true, true, true, true, true];
    case _ => assert Of(PREMASK[7]) == [false, true, true, true, true, true, true, true];
  }

  lemma PostmaskBits(mod: nat)
    requires 0 < mod < 8
    ensures forall j: nat | j < 8 :: Of(POSTMASK[mod])[j] == (j < mod)
  {
    match mod
    case 1 => assert Of(POSTMASK[1]) == [true, false, false, false, false, false, false, false];
    case 2 => assert Of(POSTMASK[2]) == [true, true, false, false, false, false, false, false];
    case 3 => assert Of(POSTMASK[3]) == [true, true, true, false, false, false, false, false];
    case 4 => assert Of(POSTMASK[4]) == [true, true, true, true, false, false, false, false];
    case 5 => assert Of(POSTMASK[5]) == [true, true, true, true, true, false, false, false];
    case 6 => assert Of(POSTMASK[6]) == [true, true, true, true, true, true, false, false];
    case _ => assert Of(POSTMASK[7]) == [true, true, true, true, true, true, true, false];
  }

  /** The mask of the first byte: its high mod bits, cut short when the line ends within it. */
  method FirstMask(mod: nat, h: nat) returns (mask: Byte)
    requires 0 < mod < 8
    ensures forall j: nat | j < 8 :: mask[j] == (8 - mod <= j && (h < mod ==> j < 8 - mod + h))
  {
    mask := Of(PREMASK[mod]);
    PremaskBits(mod);
    if h < mod {
      assert Of(0xFF) == [true, true, true, true, true, true, true, true];
      mask := And(mask, Shr(Of(0xFF), mod - h));
    }
  }

  /** The mask of the last byte: its low h bits. */
  method LastMask(h: nat) returns (mask: Byte)
    requires 0 < h < 8
    ensures forall j: nat | j < 8 :: mask[j] == (j < h)
  {
    PostmaskBits(h);
    mask := Of(POSTMASK[h % 8]);
  }

  lemma WholeByte(b: Byte, c: Color)
    ensures Paint(b, Of(0xFF), c) == if c == Inverse then Xor(b, Of(0xFF)) else if c != Black then Of(255) else Of(0)
  {
    assert Of(0xFF) == [true, true, true, true, true, true, true, true];
    assert Of(0) == [false, false, false, false, false, false, false, false];
  }

  class Display {
    const WIDTH: nat
    const HEIGHT: nat
    const buffer: array<Byte>
    var rotation: nat

    ghost function Geometry(): Panel
      reads this
    {
      Panel(WIDTH, HEIGHT, rotation)
    }

    ghost predicate Valid()
      reads this, buffer
    {
      Geometry().Valid() && Fits(Geometry(), buffer[..])
    }

    /** After begin() and clearDisplay(): every pixel off. */
    constructor (w: nat, h: nat)
      requires w <= 255 && h <= 255
      ensures Valid() && fresh(buffer) && Geometry() == Panel(w, h, 0)
      ensures forall i | 0 <= i < buffer.Length :: buffer[i] == Of(0)
    {
      WIDTH, HEIGHT, rotation := w, h, 0;
      buffer := new Byte[w * ((h + 7) / 8)](_ => Of(0));
    }

    method SetRotation(x: nat)
      requires Valid()
      modifies this`rotation
      ensures Valid() && Geometry() == Panel(WIDTH, HEIGHT, x % 4)
    {
      rotation := x % 4;
    }

    /** The coordinate switch shared by drawPixel and getPixel. */
    method Rotated(x: int16, y: int16) returns (on: bool, px: int, py: int)
      requires Valid()
      ensures on == Geometry().OnScreen(x, y)
      ensures on ==> px == Geometry().PhysX(x, y) && py == Geometry().PhysY(x, y)
    {
      var width := if rotation % 2 == 0 then WIDTH else HEIGHT;
      var height := if rotation % 2 == 0 then HEIGHT else WIDTH;
      on, px, py := 0 <= x < width && 0 <= y < height, x, y;
      match rotation
      case 0 =>
      case 1 => px, py := WIDTH - y - 1, x;
      case 2 => px, py := WIDTH - x - 1, HEIGHT - y - 1;
      case _ => px, py := y, HEIGHT - x - 1;
    }

    method DrawPixel(x: int16, y: int16, c: Color)
      requires Valid()
      modifies buffer
      ensures Valid()
      ensures buffer[..] == PixelDrawn(Geometry(), old(buffer[..]), x, y, c)
    {
      var on, px, py := Rotated(x, y);
      if on {
        IdxInRange(Geometry(), px, py / 8);
        var i := px + py / 8 * WIDTH;
        buffer[i] := Paint(buffer[i], Bit(py % 8), c);
        assert buffer[..] == old(buffer[..])[i := Paint(old(buffer[i]), Bit(py % 8), c)];
      }
    }

    method GetPixel(x: int16, y: int16) returns (on: bool)
      requires Valid()
      ensures var g := Geometry();
        on == (g.OnScreen(x, y) && Get(g, buffer[..], g.PhysX(x, y), g.PhysY(x, y)))
    {
      var inside, px, py := Rotated(x, y);
      if !inside {
        return false;
      }
      IdxInRange(Geometry(), px, py / 8);
      on := buffer[px + py / 8 * WIDTH][py % 8];
    }

    method DrawFastHLineInternal(x0: int16, y: int16, w0: int16, c: Color)
      requires Valid()
      modifies buffer
      ensures Valid()
      ensures Painted(Geometry(), old(buffer[..]), buffer[..], Rect(ClipStart(x0), ClipEnd(WIDTH, x0, w0), y, y + 1), c)
    {
      ghost var g := Geometry();
      ghost var s := buffer[..];
      var x, w := x0, w0;
      if 0 <= y < HEIGHT {
        if x < 0 {
          w := I16(w + x);
          x := 0;
        }
        if x + w > WIDTH {
          w := I16(WIDTH - x);
        }
        assert x == ClipStart(x0) && w == ClipLength(WIDTH, x0, w0);
        ClipInside(WIDTH, x0, w0);
        if w > 0 {
          DrawRow(x, y, w, c);
          return;
        }
      }
      NothingPainted(g, s, Rect(ClipStart(x0), ClipEnd(WIDTH, x0, w0), y, y + 1), c);
    }

    /** The clipped line: the same bit of w successive bytes. */
    method DrawRow(x: nat, y: nat, w0: nat, c: Color)
      requires Valid() && y < HEIGHT && x + w0 <= WIDTH
      modifies buffer
      ensures Valid()
      ensures Painted(Geometry(), old(buffer[..]), buffer[..], Rect(x, x + w0, y, y + 1), c)
    {
      ghost var s := buffer[..];
      var w: nat, pBuf: nat, mask := w0, y / 8 * WIDTH + x, Bit(y % 8);
      ghost var k: nat := x;
      NothingPainted(Geometry(), s, Rect(x, x, y, y + 1), c);
      while w > 0
        invariant Valid() && k + w == x + w0 && x <= k
        invariant pBuf == Idx(Geometry(), k, y / 8)
        invariant Painted(Geometry(), s, buffer[..], Rect(x, k, y, y + 1), c)
      {
        ghost var t := buffer[..];
        ByteAppended(Geometry(), s, t, Rect(x, k, y, y + 1), k, y / 8, mask, y, y + 1, Rect(x, k + 1, y, y + 1), c);
        buffer[pBuf] := Paint(buffer[pBuf], mask, c);
        assert buffer[..] == t[pBuf := Paint(t[pBuf], mask, c)];
        pBuf, w, k := pBuf + 1, w - 1, k + 1;
      }
    }

    method DrawFastVLineInternal(x: int16, y0: int16, h0: int16, c: Color)
      requires Valid()
      modifies buffer
      ensures Valid()
      ensures var column := Rect(x, x + 1, ClipStart(y0), ClipEnd(HEIGHT, y0, h0));
        Painted(Geometry(), old(buffer[..]), buffer[..], column, c)
    {
      ghost var g := Geometry();
      ghost var s := buffer[..];
      var y, h := y0, h0;
      if 0 <= x < WIDTH {
        if y < 0 {
          h := I16(h + y);
          y := 0;
        }
        if y + h > HEIGHT {
          h := I16(HEIGHT - y);
        }
        assert y == ClipStart(y0) && h == ClipLength(HEIGHT, y0, h0);
        ClipInside(HEIGHT, y0, h0);
        if h > 0 {
          DrawColumn(x, y, h, c);
          return;
        }
      }
      NothingPainted(g, s, Rect(x, x + 1, ClipStart(y0), ClipEnd(HEIGHT, y0, h0)), c);
    }

    /** One masked read-modify-write through pBuf, which points at page p of column x. */
    method WriteByte(pBuf: nat, mask: Byte, c: Color, ghost s: seq<Byte>, ghost x: nat, ghost p: nat, ghost top: nat,
        ghost ylo: nat, ghost yhi: nat)
      requires Valid() && x < WIDTH && p < Geometry().Pages() && pBuf == Idx(Geometry(), x, p)
      requires Painted(Geometry(), s, buffer[..], Rect(x, x + 1, top, ylo), c)
      requires top <= ylo <= yhi <= HEIGHT && 8 * p <= ylo && yhi <= 8 * p + 8
      requires forall j: nat | j < 8 :: mask[j] == (ylo <= 8 * p + j < yhi)
      modifies buffer
      ensures Valid()
      ensures Painted(Geometry(), s, buffer[..], Rect(x, x + 1, top, yhi), c)
    {
      ghost var t := buffer[..];
      ByteAppended(Geometry(), s, t, Rect(x, x + 1, top, ylo), x, p, mask, ylo, yhi, Rect(x, x + 1, top, yhi), c);
      buffer[pBuf] := Paint(buffer[pBuf], mask, c);
      assert buffer[..] == t[pBuf := Paint(t[pBuf], mask, c)];
    }

    method WriteWholeByte(pBuf: nat, val: Byte, c: Color, ghost s: seq<Byte>, ghost x: nat, ghost p: nat,
        ghost top: nat)
      requires Valid() && x < WIDTH && p < Geometry().Pages() && pBuf == Idx(Geometry(), x, p)
      requires Painted(Geometry(), s, buffer[..], Rect(x, x + 1, top, 8 * p), c)
      requires top <= 8 * p && 8 * p + 8 <= HEIGHT
      requires val == if c != Black then Of(255) else Of(0)
      modifies buffer
      ensures Valid()
      ensures Painted(Geometry(), s, buffer[..], Rect(x, x + 1, top, 8 * p + 8), c)
    {
      ghost var t := buffer[..];
      ByteAppended(Geometry(), s, t, Rect(x, x + 1, top, 8 * p), x, p, Of(0xFF), 8 * p, 8 * p + 8,
        Rect(x, x + 1, top, 8 * p + 8), c);
      WholeByte(buffer[pBuf], c);
      buffer[pBuf] := if c == Inverse then Xor(buffer[pBuf], Of(0xFF)) else val;
      assert buffer[..] == t[pBuf := Paint(t[pBuf], Of(0xFF), c)];
    }

    /** The clipped line: a partial byte, whole bytes, and another partial byte. */
    method DrawColumn(x: nat, y: nat, h0: nat, c: Color)
      requires Valid() && x < WIDTH && 0 < h0 && y + h0 <= HEIGHT
      modifies buffer
      ensures Valid()
      ensures Painted(Geometry(), old(buffer[..]), buffer[..], Rect(x, x + 1, y, y + h0), c)
    {
      ghost var s := buffer[..];
      var h: nat, pBuf: nat, mod: nat := h0, y / 8 * WIDTH + x, y % 8;
      ghost var p: nat := y / 8;
      assert pBuf == Idx(Geometry(), x, p);
      NothingPainted(Geometry(), s, Rect(x, x + 1, y, y), c);
      if mod != 0 {
        mod := 8 - mod;
        var mask := FirstMask(mod, h);
        WriteByte(pBuf, mask, c, s, x, p, y, y, if h < mod then y + h else y + mod);
        NextPage(Geometry(), x, p);
        pBuf, p := pBuf + WIDTH, p + 1;
      }
      if h >= mod {
        DrawFromByteBoundary(pBuf, h - mod, c, s, x, p, y);
      }
    }

    /** What follows the first partial byte. */
    method DrawFromByteBoundary(pBuf0: nat, h0: nat, c: Color, ghost s: seq<Byte>, ghost x: nat, ghost p0: nat,
        ghost top: nat)
      requires Valid() && x < WIDTH && pBuf0 == Idx(Geometry(), x, p0)
      requires top <= 8 * p0 && 8 * p0 + h0 <= HEIGHT
      requires Painted(Geometry(), s, buffer[..], Rect(x, x + 1, top, 8 * p0), c)
      modifies buffer
      ensures Valid()
      ensures Painted(Geometry(), s, buffer[..], Rect(x, x + 1, top, 8 * p0 + h0), c)
    {
      var h, pBuf, p := DrawWholeBytes(pBuf0, h0, c, s, x, p0, top);
      if h != 0 {
        var mask := LastMask(h);
        WriteByte(pBuf, mask, c, s, x, p, top, 8 * p, 8 * p + h);
      }
    }

    /** Solid bytes while eight rows or more remain, starting at the top of page p0. */
    method DrawWholeBytes(pBuf0: nat, h0: nat, c: Color, ghost s: seq<Byte>, ghost x: nat, ghost p0: nat,
        ghost top: nat)
      returns (h: nat, pBuf: nat, ghost p: nat)
      requires Valid() && x < WIDTH && pBuf0 == Idx(Geometry(), x, p0)
      requires top <= 8 * p0 && 8 * p0 + h0 <= HEIGHT
      requires Painted(Geometry(), s, buffer[..], Rect(x, x + 1, top, 8 * p0), c)
      modifies buffer
      ensures Valid() && h < 8 && p0 <= p && 8 * p + h == 8 * p0 + h0
      ensures pBuf == Idx(Geometry(), x, p)
      ensures Painted(Geometry(), s, buffer[..], Rect(x, x + 1, top, 8 * p), c)
    {
      h, pBuf, p := h0, pBuf0, p0;
      var val := if c != Black then Of(255) else Of(0);
      while h >= 8
        invariant Valid() && p0 <= p && 8 * p + h == 8 * p0 + h0
        invariant pBuf == Idx(Geometry(), x, p)
        invariant Painted(Geometry(), s, buffer[..], Rect(x, x + 1, top, 8 * p), c)
      {
        WriteWholeByte(pBuf, val, c, s, x, p, top);
        NextPage(Geometry(), x, p);
        h, pBuf, p := h - 8, pBuf + WIDTH, p + 1;
      }
    }

    /** The byte-masked line leaves the buffer that drawPixel, called once per pixel, would:
        for every rotation, position and colour, and every length that does not wrap. */
    method DrawFastHLine(x: int16, y: int16, w: int16, c: Color)
      requires Valid()
      modifies buffer
      ensures Valid()
      ensures !HLineWraps(Geometry(), x, y, w) ==> buffer[..] == HPixels(Geometry(), old(buffer[..]), x, y, w, c)
      ensures HLineWraps(Geometry(), x, y, w) && c == Inverse
        ==> buffer[..] != HPixels(Geometry(), old(buffer[..]), x, y, w, c)
    {
      hide Painted, ClipStart, ClipEnd, I16, HPixels, VPixels, HLineWraps, VLineWraps, Fits, Panel.Pages;
      match rotation {
        case 0 => DrawFastHLineInternal(x, y, w, c);
        case 1 => DrawFastVLineInternal(I16(WIDTH - y - 1), x, w, c);
        case 2 =>
          ShiftedStart(WIDTH, x, w);
          DrawFastHLineInternal(I16(I16(WIDTH - x - 1) - (w - 1)), I16(HEIGHT - y - 1), w, c);
        case _ => ShiftedStart(HEIGHT, x, w); DrawFastVLineInternal(y, I16(I16(HEIGHT - x - 1) - (w - 1)), w, c);
      }
      HLineMatches(Geometry(), old(buffer[..]), buffer[..], x, y, w, c);
    }

    method DrawFastVLine(x: int16, y: int16, h: int16, c: Color)
      requires Valid()
      modifies buffer
      ensures Valid()
      ensures Painted(Geometry(), old(buffer[..]), buffer[..], VClipped(Geometry(), x, y, h), c)
      ensures !VLineWraps(Geometry(), x, y, h) ==> buffer[..] == VPixels(Geometry(), old(buffer[..]), x, y, h, c)
      ensures VLineWraps(Geometry(), x, y, h) && c == Inverse
        ==> buffer[..] != VPixels(Geometry(), old(buffer[..]), x, y, h, c)
    {
      hide Painted, ClipStart, ClipEnd, I16, HPixels, VPixels, HLineWraps, VLineWraps, Fits, Panel.Pages;
      match rotation {
        case 0 => DrawFastVLineInternal(x, y, h, c);
        case 1 => ShiftedStart(WIDTH, y, h); DrawFastHLineInternal(I16(I16(WIDTH - y - 1) - (h - 1)), x, h, c);
        case 2 =>
          ShiftedStart(HEIGHT, y, h);
          DrawFastVLineInternal(I16(WIDTH - x - 1), I16(I16(HEIGHT - y - 1) - (h - 1)), h, c);
        case _ => DrawFastHLineInternal(y, I16(HEIGHT - x - 1), h, c);
      }
      VLineMatches(Geometry(), old(buffer[..]), buffer[..], x, y, h, c);
    }
  }
}
