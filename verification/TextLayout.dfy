/** Text drawing and text measuring in Adafruit_GFX: write and drawChar against charBounds and
    getTextBounds. */
module TextLayout {
  import opened Machine

  /** w by h pixels with upper left corner (x, y). */
  datatype Box = Box(x: int, y: int, w: int, h: int) {
    predicate Within(b: Box) {
      b.x <= x && x + w <= b.x + b.w && b.y <= y && y + h <= b.y + b.h
    }

    predicate Empty() {
      w <= 0 || h <= 0
    }

    predicate Has(px: int, py: int) {
      x <= px < x + w && y <= py < y + h
    }
  }

  /** Bytes that hold a number of bits. */
  function BytesFor(bits: nat): nat {
    (bits + 7) / 8
  }

  lemma BytesMonotone(a: nat, b: nat)
    requires a <= b
    ensures BytesFor(a) <= BytesFor(b)
  {
  }

  datatype Glyph = Glyph(bitmapOffset: nat, width: nat, height: nat, xAdvance: nat, xOffset: int, yOffset: int)

  /** A custom font: glyphs for the characters from first to last, and their bitmaps. */
  datatype Font = Font(bitmap: seq<nat>, glyphs: seq<Glyph>, first: nat, last: nat, yAdvance: nat) {
    predicate Valid() {
      && first <= last < 256 && |glyphs| == last - first + 1
      && (forall g | g in glyphs :: g.width < 256 && g.height < 256)
      && (forall g | g in glyphs :: g.bitmapOffset + BytesFor(g.width * g.height) <= |bitmap|)
    }

    predicate Has(c: nat) {
      first <= c <= last
    }

    function At(c: nat): Glyph
      requires Valid() && Has(c)
    {
      glyphs[c - first]
    }
  }

  datatype FontChoice = Classic(columns: seq<nat>) | Custom(font: Font)

  /** The settings text drawing depends on; sizes are positive (setTextSize). */
  datatype Style = Style(font: FontChoice, sx: nat, sy: nat, wrap: bool, cp437: bool, width: int, height: int) {
    predicate Valid() {
      && sx > 0 && sy > 0
      && match font
         case Classic(columns) => |columns| == 256 * 5
         case Custom(f) => f.Valid()
    }
  }

  datatype Pen = Pen(x: int, y: int)

  const NEWLINE: nat := 10
  const RETURN: nat := 13

  /** Whether c moves the pen as a character (not newline, carriage return or absent from the font). */
  predicate Printable(s: Style, c: nat) {
    c != NEWLINE && c != RETURN && (s.font.Custom? ==> s.font.font.Has(c))
  }

  /** Distance to the next line. */
  function LineFeed(s: Style): int {
    match s.font
    case Classic(_) => s.sy * 8
    case Custom(f) => s.sy * f.yAdvance
  }

  /** Right end of the cell of c when the pen is at x. */
  function CellRight(s: Style, x: int, c: nat): int
    requires s.Valid() && Printable(s, c)
  {
    match s.font
    case Classic(_) => x + s.sx * 6
    case Custom(f) => x + s.sx * (f.At(c).xOffset + f.At(c).width)
  }

  /** A glyph without a bitmap, such as a space. */
  predicate Blank(s: Style, c: nat)
    requires s.Valid() && Printable(s, c)
  {
    s.font.Custom? && (s.font.font.At(c).width == 0 || s.font.font.At(c).height == 0)
  }

  /** The pen after the wrap test: at the start of the next line if the cell would not fit. */
  function Wrapped(s: Style, p: Pen, c: nat): Pen
    requires s.Valid() && Printable(s, c)
  {
    if s.wrap && CellRight(s, p.x, c) > s.width then Pen(0, p.y + LineFeed(s)) else p
  }

  /** The cell a character occupies when the pen stands at p. */
  function Cell(s: Style, p: Pen, c: nat): Box
    requires s.Valid() && Printable(s, c)
  {
    match s.font
    case Classic(_) => Box(p.x, p.y, s.sx * 6, s.sy * 8)
    case Custom(f) => GlyphCell(s, p, f.At(c))
  }

  function GlyphCell(s: Style, p: Pen, g: Glyph): Box {
    Box(p.x + g.xOffset * s.sx, p.y + g.yOffset * s.sy, g.width * s.sx, g.height * s.sy)
  }

  function Advance(s: Style, c: nat): int
    requires s.Valid() && Printable(s, c)
  {
    match s.font
    case Classic(_) => s.sx * 6
    case Custom(f) => f.At(c).xAdvance * s.sx
  }

  /** Where measuring places character c: it always applies the wrap test. */
  function MeasuredAt(s: Style, p: Pen, c: nat): Pen
    requires s.Valid() && Printable(s, c)
  {
    Wrapped(s, p, c)
  }

  /** Where drawing places it: a blank glyph is not tested for wrapping. */
  function DrawnAt(s: Style, p: Pen, c: nat): Pen
    requires s.Valid() && Printable(s, c)
  {
    if Blank(s, c) then p else Wrapped(s, p, c)
  }

  function MeasuredPen(s: Style, p: Pen, c: nat): Pen
    requires s.Valid()
  {
    if c == NEWLINE then Pen(0, p.y + LineFeed(s))
    else if !Printable(s, c) then p
    else var q := MeasuredAt(s, p, c); Pen(q.x + Advance(s, c), q.y)
  }

  function DrawnPen(s: Style, p: Pen, c: nat): Pen
    requires s.Valid()
  {
    if c == NEWLINE then Pen(0, p.y + LineFeed(s))
    else if !Printable(s, c) then p
    else var q := DrawnAt(s, p, c); Pen(q.x + Advance(s, c), q.y)
  }

  // ---------------------------------------------------------------- drawing

  /** C's unsigned char increment for the characters the classic font table misses. */
  function ClassicIndex(s: Style, c: nat): (index: nat)
    ensures c < 256 ==> index < 256
  {
    if !s.cp437 && c >= 176 then (c + 1) % 256 else c
  }

  /** A rectangle filled in the text colour or, when ink is false, in the background colour. */
  datatype Dot = Dot(area: Box, ink: bool)

  const POW2: seq<nat> := [1, 2, 4, 8, 16, 32, 64, 128, 256]

  function Shifted(n: nat, k: nat): nat
    requires k <= 8
  {
    n / POW2[k]
  }

  predicate Bit(n: nat, k: nat)
    requires k < 8
  {
    Shifted(n, k) % 2 == 1
  }

  lemma ShiftedRight(n: nat, k: nat)
    requires k < 8
    ensures Shifted(n, k) / 2 == Shifted(n, k + 1) && Shifted(n, 0) == n
  {
    match k {
      case 0 => case 1 => case 2 => case 3 => case 4 => case 5 => case 6 => case _ =>
    }
  }

  /** Is row k % 8 of column k / 8 of the classic character set? */
  predicate ColumnBit(columns: seq<nat>, c: nat, k: nat)
    requires k < 40 && c < 256 && |columns| == 256 * 5
  {
    Bit(columns[c * 5 + k / 8], k % 8)
  }

  function Unit(s: Style, p: Pen, i: int, j: int): Box {
    Box(p.x + i * s.sx, p.y + j * s.sy, s.sx, s.sy)
  }

  /** The first k rectangles of a classic character, column by column. */
  function ClassicDots(s: Style, columns: seq<nat>, p: Pen, c: nat, opaqueBg: bool, k: nat): seq<Dot>
    requires k <= 40 && c < 256 && |columns| == 256 * 5
  {
    if k == 0 then []
    else ClassicDots(s, columns, p, c, opaqueBg, k - 1) +
         (var bit := ColumnBit(columns, c, k - 1);
          if bit || opaqueBg then [Dot(Unit(s, p, (k - 1) / 8, (k - 1) % 8), bit)] else [])
  }

  predicate OffScreen(s: Style, p: Pen) {
    p.x >= s.width || p.y >= s.height || p.x + 6 * s.sx - 1 < 0 || p.y + 8 * s.sy - 1 < 0
  }

  /** A whole classic character: an opaque background fills all 6 by 8 units. */
  function ClassicChar(s: Style, columns: seq<nat>, p: Pen, c: nat, opaqueBg: bool): seq<Dot>
    requires c < 256 && |columns| == 256 * 5
  {
    if OffScreen(s, p) then []
    else ClassicDots(s, columns, p, ClassicIndex(s, c), opaqueBg, 40) +
         (if opaqueBg then [Dot(Box(p.x + 5 * s.sx, p.y, s.sx, 8 * s.sy), false)] else [])
  }

  /** The branches of the inner loop of drawChar. */
  function DrawUnit(s: Style, p: Pen, i: int, j: int, line: nat, opaqueBg: bool): seq<Dot> {
    if line % 2 == 1 then [Dot(Unit(s, p, i, j), true)]
    else if opaqueBg then [Dot(Unit(s, p, i, j), false)]
    else []
  }

  lemma NoColumns(s: Style, columns: seq<nat>, p: Pen, c: nat, opaqueBg: bool)
    requires c < 256 && |columns| == 256 * 5
    ensures ClassicDots(s, columns, p, c, opaqueBg, 0) == []
  {
  }

  lemma ClassicStep(s: Style, columns: seq<nat>, p: Pen, c: nat, opaqueBg: bool, i: nat, j: nat)
    requires c < 256 && |columns| == 256 * 5 && i < 5 && j < 8
    ensures ClassicDots(s, columns, p, c, opaqueBg, 8 * i + j + 1)
      == ClassicDots(s, columns, p, c, opaqueBg, 8 * i + j)
         + DrawUnit(s, p, i, j, Shifted(columns[c * 5 + i], j), opaqueBg)
  {
    hide Unit, Shifted;
    var k := 8 * i + j;
    assert k / 8 == i && k % 8 == j;
  }

  /** drawChar for the classic font; rectangles written, in order. */
  method DrawClassic(s: Style, columns: seq<nat>, x: int, y: int, c: nat, opaqueBg: bool) returns (trace: seq<Dot>)
    requires |columns| == 256 * 5 && c < 256
    ensures trace == ClassicChar(s, columns, Pen(x, y), c, opaqueBg)
    ensures s.sx > 0 && s.sy > 0 ==> ClassicShown(s, columns, x, y, c, opaqueBg, trace)
  {
    hide ClassicDots, DrawUnit, Shifted, ClassicIndex, ClassicShown;
    if s.sx > 0 && s.sy > 0 {
      ClassicPixels(s, columns, x, y, c, opaqueBg);
    }
    trace := [];
    if x >= s.width || y >= s.height || x + 6 * s.sx - 1 < 0 || y + 8 * s.sy - 1 < 0 {
      return;
    }
    var index := ClassicIndex(s, c);
    assert ClassicDots(s, columns, Pen(x, y), index, opaqueBg, 0) == [] by {
      NoColumns(s, columns, Pen(x, y), index, opaqueBg);
    }
    for i := 0 to 5
      invariant trace == ClassicDots(s, columns, Pen(x, y), index, opaqueBg, 8 * i)
    {
      var line := columns[index * 5 + i];
      ShiftedRight(line, 0);
      for j := 0 to 8
        invariant line == Shifted(columns[index * 5 + i], j)
        invariant trace == ClassicDots(s, columns, Pen(x, y), index, opaqueBg, 8 * i + j)
      {
        ClassicStep(s, columns, Pen(x, y), index, opaqueBg, i, j);
        trace := trace + DrawUnit(s, Pen(x, y), i, j, line, opaqueBg);
        ShiftedRight(columns[index * 5 + i], j);
        line := line / 2;
      }
    }
    if opaqueBg {
      trace := trace + [Dot(Box(x + 5 * s.sx, y, s.sx, 8 * s.sy), false)];
    }
  }

  // ---------------------------------------------------------------- which pixels a character shows

  function Pow2(k: nat): (n: nat)
    ensures n > 0
  {
    if k == 0 then 1 else 2 * Pow2(k - 1)
  }

  lemma BitIs(n: nat, k: nat)
    requires k < 8
    ensures Bit(n, k) <==> n / Pow2(k) % 2 == 1
  {
    match k {
      case 0 => case 1 => case 2 => case 3 => case 4 => case 5 => case 6 => case _ =>
    }
  }

  /** A rectangle of the trace, in ink or in the background colour, has this pixel. */
  ghost predicate Shown(trace: seq<Dot>, ink: bool, px: int, py: int) {
    exists d :: d in trace && d.ink == ink && d.area.Has(px, py)
  }

  /** Which of the magnified units a pixel lies in. */
  lemma UnitOf(a: int, size: nat, i: int, n: nat)
    requires size > 0
    ensures i * size <= a < i * size + size <==> a / size == i
    ensures 0 <= a < n * size <==> 0 <= a / size < n
  {
    var q := a / size;
    assert a == q * size + a % size;
    Ordered(q, i, size);
    Ordered(i, q, size);
    Ordered(q, 0, size);
    Ordered(0, q, size);
    Ordered(q, n, size);
    Ordered(n, q, size);
  }

  lemma Ordered(a: int, b: int, size: nat)
    ensures a < b ==> a * size + size <= b * size
  {
    MulMonotone(a + 1, b, size);
  }

  /** The ink of a classic character: bit (py - y) / sy of column (px - x) / sx, the least significant bit on top. */
  predicate ClassicInk(s: Style, columns: seq<nat>, x: int, y: int, c: nat, px: int, py: int)
    requires s.sx > 0 && s.sy > 0 && |columns| == 256 * 5 && c < 256
  {
    var index := if c >= 176 && !s.cp437 then (if c == 255 then 0 else c + 1) else c;
    var (i, j) := ((px - x) / s.sx, (py - y) / s.sy);
    0 <= i < 5 && 0 <= j < 8 && columns[5 * index + i] / Pow2(j) % 2 == 1
  }

  /** On the screen, the trace shows exactly that ink, and an opaque background in the rest of the 6 by 8 units. */
  ghost predicate ClassicShown(s: Style, columns: seq<nat>, x: int, y: int, c: nat, opaqueBg: bool, trace: seq<Dot>)
    requires s.sx > 0 && s.sy > 0 && |columns| == 256 * 5 && c < 256
  {
    if x < s.width && y < s.height && x + 6 * s.sx > 0 && y + 8 * s.sy > 0 then
      forall px, py ::
        && (Shown(trace, true, px, py) <==> ClassicInk(s, columns, x, y, c, px, py))
        && (Shown(trace, false, px, py) <==>
            opaqueBg && 0 <= px - x < 6 * s.sx && 0 <= py - y < 8 * s.sy && !ClassicInk(s, columns, x, y, c, px, py))
    else trace == []
  }

  lemma UnitHas(s: Style, p: Pen, i: nat, j: nat, px: int, py: int)
    requires s.sx > 0 && s.sy > 0
    ensures Unit(s, p, i, j).Has(px, py) <==> (px - p.x) / s.sx == i && (py - p.y) / s.sy == j
  {
    UnitOf(px - p.x, s.sx, i, 0);
    UnitOf(py - p.y, s.sy, j, 0);
  }

  lemma ShownAppend(a: seq<Dot>, b: seq<Dot>, ink: bool, px: int, py: int)
    ensures Shown(a + b, ink, px, py) <==> Shown(a, ink, px, py) || Shown(b, ink, px, py)
    ensures !Shown([], ink, px, py)
  {
  }

  lemma ShownOne(d: Dot, ink: bool, px: int, py: int)
    ensures Shown([d], ink, px, py) <==> d.ink == ink && d.area.Has(px, py)
  {
    assert d in [d];
  }

  /** Among the first k units. */
  predicate UnitShown(s: Style, columns: seq<nat>, p: Pen, index: nat, opaqueBg: bool, k: nat, ink: bool, px: int,
                      py: int)
    requires s.sx > 0 && s.sy > 0 && |columns| == 256 * 5 && index < 256 && k <= 40
  {
    var i, j := (px - p.x) / s.sx, (py - p.y) / s.sy;
    && 0 <= i && 0 <= j < 8 && 8 * i + j < k
    && ColumnBit(columns, index, 8 * i + j) == ink && (ink || opaqueBg)
  }

  lemma UnitAt(k: nat, i: int, j: int)
    ensures 0 <= i && 0 <= j < 8 ==> (8 * i + j == k <==> i == k / 8 && j == k % 8)
    ensures i == k / 8 && j == k % 8 ==> 0 <= i && 0 <= j < 8
  {
  }

  lemma {:induction false} UnitsShown(s: Style, columns: seq<nat>, p: Pen, index: nat, opaqueBg: bool, k: nat,
      ink: bool, px: int, py: int)
    requires s.sx > 0 && s.sy > 0 && |columns| == 256 * 5 && index < 256 && k <= 40
    ensures Shown(ClassicDots(s, columns, p, index, opaqueBg, k), ink, px, py)
      <==> UnitShown(s, columns, p, index, opaqueBg, k, ink, px, py)
  {
    hide Unit, ColumnBit, Shown, Box.Has;
    if k == 0 {
      ShownAppend([], [], ink, px, py);
    } else {
      UnitsShown(s, columns, p, index, opaqueBg, k - 1, ink, px, py);
      var bit := ColumnBit(columns, index, k - 1);
      var last := if bit || opaqueBg then [Dot(Unit(s, p, (k - 1) / 8, (k - 1) % 8), bit)] else [];
      ShownAppend(ClassicDots(s, columns, p, index, opaqueBg, k - 1), last, ink, px, py);
      ShownAppend([], [], ink, px, py);
      UnitHas(s, p, (k - 1) / 8, (k - 1) % 8, px, py);
      ShownOne(Dot(Unit(s, p, (k - 1) / 8, (k - 1) % 8), bit), ink, px, py);
      UnitAt(k - 1, (px - p.x) / s.sx, (py - p.y) / s.sy);
    }
  }

  lemma ColumnIs(columns: seq<nat>, index: nat, i: nat, j: nat)
    requires |columns| == 256 * 5 && index < 256 && i < 5 && j < 8
    ensures ColumnBit(columns, index, 8 * i + j) <==> columns[5 * index + i] / Pow2(j) % 2 == 1
  {
    assert (8 * i + j) / 8 == i && (8 * i + j) % 8 == j;
    BitIs(columns[5 * index + i], j);
    hide Bit, Pow2;
  }

  /** All units together: the ink, and the background of the five columns that have some. */
  lemma AllUnits(s: Style, columns: seq<nat>, x: int, y: int, c: nat, opaqueBg: bool, px: int, py: int)
    requires s.sx > 0 && s.sy > 0 && |columns| == 256 * 5 && c < 256
    ensures UnitShown(s, columns, Pen(x, y), ClassicIndex(s, c), opaqueBg, 40, true, px, py)
      <==> ClassicInk(s, columns, x, y, c, px, py)
    ensures UnitShown(s, columns, Pen(x, y), ClassicIndex(s, c), opaqueBg, 40, false, px, py)
      <==> opaqueBg && 0 <= px - x < 5 * s.sx && 0 <= py - y < 8 * s.sy && !ClassicInk(s, columns, x, y, c, px, py)
  {
    hide ColumnBit, ClassicInk, ClassicIndex;
    UnitOf(px - x, s.sx, 0, 5);
    UnitOf(py - y, s.sy, 0, 8);
    InkIs(s, columns, x, y, c, px, py);
  }

  lemma InkIs(s: Style, columns: seq<nat>, x: int, y: int, c: nat, px: int, py: int)
    requires s.sx > 0 && s.sy > 0 && |columns| == 256 * 5 && c < 256
    ensures var (i, j) := ((px - x) / s.sx, (py - y) / s.sy);
      ClassicInk(s, columns, x, y, c, px, py)
      <==> 0 <= i < 5 && 0 <= j < 8 && ColumnBit(columns, ClassicIndex(s, c), 8 * i + j)
  {
    hide ColumnBit, Pow2;
    var (i, j) := ((px - x) / s.sx, (py - y) / s.sy);
    if 0 <= i < 5 && 0 <= j < 8 {
      ColumnIs(columns, ClassicIndex(s, c), i, j);
    }
  }

  lemma ClassicPixels(s: Style, columns: seq<nat>, x: int, y: int, c: nat, opaqueBg: bool)
    requires s.sx > 0 && s.sy > 0 && |columns| == 256 * 5 && c < 256
    ensures ClassicShown(s, columns, x, y, c, opaqueBg, ClassicChar(s, columns, Pen(x, y), c, opaqueBg))
  {
    hide ClassicDots, ClassicInk, UnitShown, Shown, ClassicIndex;
    var trace := ClassicChar(s, columns, Pen(x, y), c, opaqueBg);
    if x < s.width && y < s.height && x + 6 * s.sx > 0 && y + 8 * s.sy > 0 {
      var dots := ClassicDots(s, columns, Pen(x, y), ClassicIndex(s, c), opaqueBg, 40);
      var last := Dot(Box(x + 5 * s.sx, y, s.sx, 8 * s.sy), false);
      forall px, py
        ensures Shown(trace, true, px, py) <==> ClassicInk(s, columns, x, y, c, px, py)
        ensures Shown(trace, false, px, py) <==>
          opaqueBg && 0 <= px - x < 6 * s.sx && 0 <= py - y < 8 * s.sy && !ClassicInk(s, columns, x, y, c, px, py)
      {
        AllShown(s, columns, x, y, c, opaqueBg, dots, true, px, py);
        AllShown(s, columns, x, y, c, opaqueBg, dots, false, px, py);
        InkInColumns(s, columns, x, y, c, px, py);
        ShownOne(last, true, px, py);
        ShownOne(last, false, px, py);
      }
    }
  }

  lemma InkInColumns(s: Style, columns: seq<nat>, x: int, y: int, c: nat, px: int, py: int)
    requires s.sx > 0 && s.sy > 0 && |columns| == 256 * 5 && c < 256
    ensures ClassicInk(s, columns, x, y, c, px, py) ==> 0 <= px - x < 5 * s.sx && 0 <= py - y < 8 * s.sy
  {
    hide Pow2;
    UnitOf(px - x, s.sx, 0, 5);
    UnitOf(py - y, s.sy, 0, 8);
  }

  lemma AllShown(s: Style, columns: seq<nat>, x: int, y: int, c: nat, opaqueBg: bool, dots: seq<Dot>, ink: bool,
      px: int, py: int)
    requires s.sx > 0 && s.sy > 0 && |columns| == 256 * 5 && c < 256
    requires dots == ClassicDots(s, columns, Pen(x, y), ClassicIndex(s, c), opaqueBg, 40)
    ensures Shown(dots, ink, px, py) <==>
      if ink then ClassicInk(s, columns, x, y, c, px, py)
      else opaqueBg && 0 <= px - x < 5 * s.sx && 0 <= py - y < 8 * s.sy && !ClassicInk(s, columns, x, y, c, px, py)
    ensures var last := [Dot(Box(x + 5 * s.sx, y, s.sx, 8 * s.sy), false)];
      && (Shown(dots + last, ink, px, py) <==> Shown(dots, ink, px, py) || Shown(last, ink, px, py))
      && (Shown(dots + [], ink, px, py) <==> Shown(dots, ink, px, py))
  {
    hide *;
    UnitsShown(s, columns, Pen(x, y), ClassicIndex(s, c), opaqueBg, 40, ink, px, py);
    AllUnits(s, columns, x, y, c, opaqueBg, px, py);
    ShownAppend(dots, [Dot(Box(x + 5 * s.sx, y, s.sx, 8 * s.sy), false)], ink, px, py);
    ShownAppend(dots, [], ink, px, py);
  }

  /** Bit k of a glyph's bitmap, the most significant bit of each byte first. */
  predicate BitmapBit(f: Font, g: Glyph, k: nat)
    requires g.bitmapOffset + BytesFor(k + 1) <= |f.bitmap|
  {
    Bit(f.bitmap[g.bitmapOffset + k / 8], 7 - k % 8)
  }

  function GlyphPixel(s: Style, p: Pen, g: Glyph, xx: int, yy: int): Box {
    Box(p.x + (g.xOffset + xx) * s.sx, p.y + (g.yOffset + yy) * s.sy, s.sx, s.sy)
  }

  /** The first k pixels of a glyph that are set, row by row. */
  function GlyphDots(s: Style, f: Font, p: Pen, g: Glyph, k: nat): seq<Dot>
    requires g.bitmapOffset + BytesFor(k) <= |f.bitmap| && (k > 0 ==> g.width > 0)
  {
    if k == 0 then []
    else GlyphDots(s, f, p, g, k - 1) +
         (if BitmapBit(f, g, k - 1) then [Dot(GlyphPixel(s, p, g, (k - 1) % g.width, (k - 1) / g.width), true)] else [])
  }

  /** The bit of a glyph with which a row begins. */
  function RowStart(yy: nat, w: nat): nat {
    yy * w
  }

  lemma RowEnds(yy: nat, h: nat, w: nat)
    ensures yy < h ==> RowStart(yy, w) + w == RowStart(yy + 1, w) <= w * h
    ensures RowStart(0, w) == 0 && RowStart(h, w) == w * h
  {
    Apart(yy, h, w);
  }

  /** The register that is shifted left shows the bits of its byte from the top. */
  lemma TopBit(n: nat, k: nat)
    requires k < 8
    ensures n * POW2[k] % 256 / 0x80 % 2 == 1 <==> Bit(n, 7 - k)
    ensures n * POW2[k] % 256 * 2 % 256 == n * POW2[k + 1] % 256
  {
    HighBit(n * POW2[k]);
    Cancelled(n, k);
    assert n * POW2[k] * 2 == n * POW2[k + 1];
  }

  lemma HighBit(m: nat)
    ensures m % 256 / 0x80 % 2 == m / 0x80 % 2
    ensures m % 256 * 2 % 256 == m * 2 % 256
  {
    var q: nat, r: nat := m / 256, m % 256;
    var top: nat, low: nat := r / 0x80, r % 0x80;
    DivUnique(m, 0x80, 2 * q + top);
    DivUnique(2 * q + top, 2, q);
    DivUnique(m * 2, 256, 2 * q + top);
    DivUnique(r * 2, 256, top);
  }

  lemma Cancelled(n: nat, k: nat)
    requires k < 8
    ensures n * POW2[k] / 0x80 == Shifted(n, 7 - k)
  {
    match k {
      case 0 => case 1 => case 2 => case 3 => case 4 => case 5 => case 6 => case _ =>
    }
  }

  lemma NoDots(s: Style, f: Font, p: Pen, g: Glyph, bits: nat)
    requires g.bitmapOffset <= |f.bitmap|
    ensures BytesFor(0) == 0 && GlyphDots(s, f, p, g, 0) == [] && RegisterHolds(f, g, 0, bits)
  {
  }

  lemma GlyphStep(s: Style, f: Font, p: Pen, g: Glyph, xx: nat, yy: nat)
    requires xx < g.width && yy < g.height && g.bitmapOffset + BytesFor(yy * g.width + xx + 1) <= |f.bitmap|
    ensures var k := yy * g.width + xx;
      GlyphDots(s, f, p, g, k + 1)
        == GlyphDots(s, f, p, g, k) + (if BitmapBit(f, g, k) then [Dot(GlyphPixel(s, p, g, xx, yy), true)] else [])
  {
    hide BitmapBit, GlyphPixel;
    DivUnique(yy * g.width + xx, g.width, yy);
    var k := yy * g.width + xx;
    assert k / g.width == yy && k % g.width == xx;
  }

  /** The ink of a glyph: bit number yy * width + xx of its bitmap, the most significant bit of each byte first, at
      column xx and row yy of the magnified units. */
  predicate GlyphInk(s: Style, f: Font, g: Glyph, x: int, y: int, px: int, py: int)
    requires s.sx > 0 && s.sy > 0 && g.bitmapOffset + BytesFor(g.width * g.height) <= |f.bitmap|
  {
    var (dx, dy) := (px - x - g.xOffset * s.sx, py - y - g.yOffset * s.sy);
    var (xx, yy) := (dx / s.sx, dy / s.sy);
    && 0 <= xx < g.width && 0 <= yy < g.height
    && var k := yy * g.width + xx;
    BitInGlyph(xx, yy, g.width, g.height);
    f.bitmap[g.bitmapOffset + k / 8] / Pow2(7 - k % 8) % 2 == 1
  }

  lemma BitInGlyph(xx: nat, yy: nat, w: nat, h: nat)
    requires xx < w && yy < h
    ensures yy * w + xx < w * h && (yy * w + xx) / 8 < BytesFor(w * h)
    ensures (yy * w + xx) / w == yy && (yy * w + xx) % w == xx
  {
    Ordered(yy, h, w);
    DivUnique(yy * w + xx, w, yy);
    BytesMonotone(yy * w + xx + 1, w * h);
  }

  /** The trace shows exactly that ink and no background. */
  ghost predicate GlyphShown(s: Style, f: Font, g: Glyph, x: int, y: int, trace: seq<Dot>)
    requires s.sx > 0 && s.sy > 0 && g.bitmapOffset + BytesFor(g.width * g.height) <= |f.bitmap|
  {
    forall px, py :: (Shown(trace, true, px, py) <==> GlyphInk(s, f, g, x, y, px, py)) && !Shown(trace, false, px, py)
  }

  lemma GlyphHas(s: Style, p: Pen, g: Glyph, xx: int, yy: int, px: int, py: int)
    requires s.sx > 0 && s.sy > 0
    ensures var (dx, dy) := (px - p.x - g.xOffset * s.sx, py - p.y - g.yOffset * s.sy);
      GlyphPixel(s, p, g, xx, yy).Has(px, py) <==> dx / s.sx == xx && dy / s.sy == yy
  {
    UnitOf(px - p.x - g.xOffset * s.sx, s.sx, xx, 0);
    UnitOf(py - p.y - g.yOffset * s.sy, s.sy, yy, 0);
    assert (g.xOffset + xx) * s.sx == g.xOffset * s.sx + xx * s.sx;
    assert (g.yOffset + yy) * s.sy == g.yOffset * s.sy + yy * s.sy;
  }

  /** Among the first k bits. */
  predicate BitShown(f: Font, g: Glyph, k: nat, xx: int, yy: int)
    requires g.bitmapOffset + BytesFor(k) <= |f.bitmap|
  {
    && 0 <= xx < g.width && 0 <= yy && yy * g.width + xx < k
    && (BytesMonotone(yy * g.width + xx + 1, k); BitmapBit(f, g, yy * g.width + xx))
  }

  lemma BitAt(k: nat, w: nat, xx: int, yy: int)
    requires w > 0
    ensures 0 <= xx < w && 0 <= yy ==> (yy * w + xx == k <==> xx == k % w && yy == k / w)
    ensures xx == k % w && yy == k / w ==> 0 <= xx < w && 0 <= yy
  {
    if 0 <= xx < w && 0 <= yy {
      Ordered(0, yy, w);
      DivUnique(yy * w + xx, w, yy);
    }
    assert k == k / w * w + k % w;
  }

  lemma BitShownNext(f: Font, g: Glyph, k: nat, xx: int, yy: int)
    requires g.bitmapOffset + BytesFor(k + 1) <= |f.bitmap| && g.width > 0
    ensures g.bitmapOffset + BytesFor(k) <= |f.bitmap|
    ensures BitShown(f, g, k + 1, xx, yy)
      <==> BitShown(f, g, k, xx, yy) || (BitmapBit(f, g, k) && xx == k % g.width && yy == k / g.width)
  {
    hide BitmapBit, BytesFor;
    BytesMonotone(k, k + 1);
    BitAt(k, g.width, xx, yy);
  }

  lemma {:induction false} BitsShown(s: Style, f: Font, p: Pen, g: Glyph, k: nat, px: int, py: int)
    requires s.sx > 0 && s.sy > 0
    requires g.bitmapOffset + BytesFor(k) <= |f.bitmap| && (k > 0 ==> g.width > 0)
    ensures var (dx, dy) := (px - p.x - g.xOffset * s.sx, py - p.y - g.yOffset * s.sy);
      Shown(GlyphDots(s, f, p, g, k), true, px, py) <==> BitShown(f, g, k, dx / s.sx, dy / s.sy)
    ensures !Shown(GlyphDots(s, f, p, g, k), false, px, py)
  {
    hide GlyphPixel, BitmapBit, Shown, Box.Has, BitShown;
    ShownAppend([], [], true, px, py);
    ShownAppend([], [], false, px, py);
    var (dx, dy) := (px - p.x - g.xOffset * s.sx, py - p.y - g.yOffset * s.sy);
    if k == 0 {
      NoBits(f, g, dx / s.sx, dy / s.sy);
    } else {
      BitShownNext(f, g, k - 1, dx / s.sx, dy / s.sy);
      BitsShown(s, f, p, g, k - 1, px, py);
      var pixel := Dot(GlyphPixel(s, p, g, (k - 1) % g.width, (k - 1) / g.width), true);
      var last := if BitmapBit(f, g, k - 1) then [pixel] else [];
      ShownAppend(GlyphDots(s, f, p, g, k - 1), last, true, px, py);
      ShownAppend(GlyphDots(s, f, p, g, k - 1), last, false, px, py);
      ShownOne(pixel, true, px, py);
      ShownOne(pixel, false, px, py);
      GlyphHas(s, p, g, (k - 1) % g.width, (k - 1) / g.width, px, py);
    }
  }

  lemma NoBits(f: Font, g: Glyph, xx: int, yy: int)
    requires g.bitmapOffset <= |f.bitmap|
    ensures !BitShown(f, g, 0, xx, yy)
  {
    if 0 <= xx && 0 <= yy {
      Ordered(0, yy, g.width);
    }
  }

  lemma AllBits(f: Font, g: Glyph, xx: int, yy: int)
    requires g.bitmapOffset + BytesFor(g.width * g.height) <= |f.bitmap|
    ensures BitShown(f, g, g.width * g.height, xx, yy)
      <==> 0 <= xx < g.width && 0 <= yy < g.height
           && (BitInGlyph(xx, yy, g.width, g.height); BitmapBit(f, g, yy * g.width + xx))
  {
    hide BitmapBit, BytesFor;
    if 0 <= xx < g.width && 0 <= yy {
      Ordered(g.height, yy, g.width);
      Ordered(yy, g.height, g.width);
    }
  }

  lemma GlyphPixels(s: Style, f: Font, g: Glyph, x: int, y: int)
    requires s.sx > 0 && s.sy > 0 && g.bitmapOffset + BytesFor(g.width * g.height) <= |f.bitmap|
    requires g.width * g.height > 0 ==> g.width > 0
    ensures GlyphShown(s, f, g, x, y, GlyphDots(s, f, Pen(x, y), g, g.width * g.height))
  {
    hide GlyphDots, Shown, BitShown, Pow2, Bit;
    forall px, py
      ensures var trace := GlyphDots(s, f, Pen(x, y), g, g.width * g.height);
        (Shown(trace, true, px, py) <==> GlyphInk(s, f, g, x, y, px, py)) && !Shown(trace, false, px, py)
    {
      var (dx, dy) := (px - x - g.xOffset * s.sx, py - y - g.yOffset * s.sy);
      BitsShown(s, f, Pen(x, y), g, g.width * g.height, px, py);
      AllBits(f, g, dx / s.sx, dy / s.sy);
      if 0 <= dx / s.sx < g.width && 0 <= dy / s.sy < g.height {
        var k := dy / s.sy * g.width + dx / s.sx;
        BitInGlyph(dx / s.sx, dy / s.sy, g.width, g.height);
        BitIs(f.bitmap[g.bitmapOffset + k / 8], 7 - k % 8);
      }
    }
  }

  predicate TopSet(bits: nat) {
    bits / 0x80 % 2 == 1
  }

  function ShiftLeft(bits: nat): nat {
    bits * 2 % 256
  }

  /** The inner loop of drawChar for a custom font: one row of the glyph. */
  method DrawRow(s: Style, f: Font, x: int, y: int, glyph: Glyph, yy: nat, bo0: nat, bits0: nat, bit0: nat,
      ghost dots: seq<Dot>)
    returns (row: seq<Dot>, bo: nat, bits: nat, bit: nat)
    requires yy < glyph.height && bit0 == RowStart(yy, glyph.width)
    requires glyph.bitmapOffset + BytesFor(bit0 + glyph.width) <= |f.bitmap|
    requires bo0 == glyph.bitmapOffset + BytesFor(bit0) <= |f.bitmap| && RegisterHolds(f, glyph, bit0, bits0)
    requires dots == GlyphDots(s, f, Pen(x, y), glyph, bit0)
    ensures bit == bit0 + glyph.width
    ensures bo == glyph.bitmapOffset + BytesFor(bit) && RegisterHolds(f, glyph, bit, bits)
    ensures dots + row == GlyphDots(s, f, Pen(x, y), glyph, bit)
  {
    hide GlyphDots, BitmapBit, RegisterHolds, BytesFor, TopSet, ShiftLeft;
    row, bo, bits, bit := [], bo0, bits0, bit0;
    for xx := 0 to glyph.width
      invariant bit == bit0 + xx
      invariant bo == glyph.bitmapOffset + BytesFor(bit) <= |f.bitmap|
      invariant dots + row == GlyphDots(s, f, Pen(x, y), glyph, bit) && RegisterHolds(f, glyph, bit, bits)
    {
      BytesMonotone(bit + 1, bit0 + glyph.width);
      GlyphStep(s, f, Pen(x, y), glyph, xx, yy);
      bo, bits := FetchBits(f, glyph, bo, bits, bit);
      bit := bit + 1;
      if TopSet(bits) {
        row := row + [Dot(Box(x + (glyph.xOffset + xx) * s.sx, y + (glyph.yOffset + yy) * s.sy, s.sx, s.sy), true)];
      }
      bits := ShiftLeft(bits);
    }
  }

  lemma BitmapSuffices(f: Font, c: nat)
    requires f.Valid() && f.Has(c)
    ensures f.At(c) == f.glyphs[c - f.first]
    ensures var g := f.At(c); g.bitmapOffset + BytesFor(g.width * g.height) <= |f.bitmap|
  {
    hide BytesFor;
    assert f.At(c) in f.glyphs;
  }

  /** drawChar for a custom font: the set pixels, in order. */
  method DrawCustom(s: Style, f: Font, x: int, y: int, c: nat) returns (trace: seq<Dot>)
    requires f.Valid() && f.Has(c)
    ensures trace == GlyphDots(s, f, Pen(x, y), f.At(c), f.At(c).width * f.At(c).height)
    ensures s.sx > 0 && s.sy > 0 ==> GlyphShown(s, f, f.glyphs[c - f.first], x, y, trace)
  {
    hide *;
    var glyph := f.At(c);
    BitmapSuffices(f, c);
    if s.sx > 0 && s.sy > 0 {
      GlyphPixels(s, f, glyph, x, y);
    }
    var bo, bits, bit, row := glyph.bitmapOffset, 0, 0, [];
    NoDots(s, f, Pen(x, y), glyph, bits);
    RowEnds(0, glyph.height, glyph.width);
    trace := [];
    for yy := 0 to glyph.height
      invariant bit == RowStart(yy, glyph.width) <= glyph.width * glyph.height
      invariant bo == glyph.bitmapOffset + BytesFor(bit) <= |f.bitmap|
      invariant trace == GlyphDots(s, f, Pen(x, y), glyph, bit) && RegisterHolds(f, glyph, bit, bits)
    {
      RowEnds(yy, glyph.height, glyph.width);
      BytesMonotone(bit + glyph.width, glyph.width * glyph.height);
      row, bo, bits, bit := DrawRow(s, f, x, y, glyph, yy, bo, bits, bit, trace);
      trace := trace + row;
    }
  }

  /** Between pixels the register holds the rest of the current byte, unless a new byte is due. */
  predicate RegisterHolds(f: Font, g: Glyph, bit: nat, bits: nat)
    requires g.bitmapOffset + BytesFor(bit) <= |f.bitmap|
  {
    bit % 8 != 0 ==> bits == f.bitmap[g.bitmapOffset + bit / 8] * POW2[bit % 8] % 256
  }

  /** Reads the next byte of the bitmap on every eighth pixel. */
  method FetchBits(f: Font, ghost g: Glyph, bo0: nat, bits0: nat, bit: nat) returns (bo: nat, bits: nat)
    requires g.bitmapOffset + BytesFor(bit + 1) <= |f.bitmap| && bo0 == g.bitmapOffset + BytesFor(bit)
    requires RegisterHolds(f, g, bit, bits0)
    ensures bo == g.bitmapOffset + BytesFor(bit + 1)
    ensures TopSet(bits) <==> BitmapBit(f, g, bit)
    ensures RegisterHolds(f, g, bit + 1, ShiftLeft(bits))
  {
    bo, bits := bo0, bits0;
    if bit % 8 == 0 {
      bits := f.bitmap[bo];
      bo := bo + 1;
    }
    TopBit(f.bitmap[g.bitmapOffset + bit / 8], bit % 8);
  }

  /** What a character draws when the pen stands at p. */
  function CharDots(s: Style, p: Pen, c: nat, opaqueBg: bool): seq<Dot>
    requires s.Valid() && Printable(s, c) && c < 256
  {
    match s.font
    case Classic(columns) => ClassicChar(s, columns, p, c, opaqueBg)
    case Custom(f) =>
      var g := f.At(c);
      assert g in f.glyphs;
      if Blank(s, c) then [] else GlyphDots(s, f, p, g, g.width * g.height)
  }

  /** One magnified pixel of a glyph lies in its cell. */
  lemma GlyphPixelInside(s: Style, p: Pen, g: Glyph, xx: nat, yy: nat)
    requires xx < g.width && yy < g.height
    ensures GlyphPixel(s, p, g, xx, yy).Within(GlyphCell(s, p, g))
  {
    Apart(xx, g.width, s.sx);
    Apart(yy, g.height, s.sy);
    assert (g.xOffset + xx) * s.sx == g.xOffset * s.sx + xx * s.sx;
    assert (g.yOffset + yy) * s.sy == g.yOffset * s.sy + yy * s.sy;
  }

  lemma {:induction false} GlyphDotsInside(s: Style, f: Font, p: Pen, g: Glyph, k: nat)
    requires g.bitmapOffset + BytesFor(k) <= |f.bitmap| && k <= g.width * g.height && (k > 0 ==> g.width > 0)
    ensures forall d <- GlyphDots(s, f, p, g, k) :: d.area.Within(GlyphCell(s, p, g))
  {
    hide BitmapBit, BytesFor, GlyphPixel, GlyphCell, Box.Within;
    if k > 0 {
      BytesMonotone(k - 1, k);
      GlyphDotsInside(s, f, p, g, k - 1);
      RowInGlyph(k - 1, g.width, g.height);
      GlyphPixelInside(s, p, g, (k - 1) % g.width, (k - 1) / g.width);
    }
  }

  lemma RowInGlyph(k: nat, w: nat, h: nat)
    requires w > 0 && k < w * h
    ensures k / w < h
  {
    var q := k / w;
    assert k == q * w + k % w && h * w == w * h;
    MulMonotone(h, q, w);
  }

  lemma {:induction false} ClassicDotsInside(s: Style, columns: seq<nat>, p: Pen, c: nat, opaqueBg: bool, k: nat)
    requires k <= 40 && c < 256 && |columns| == 256 * 5
    ensures forall d <- ClassicDots(s, columns, p, c, opaqueBg, k) :: d.area.Within(Box(p.x, p.y, s.sx * 6, s.sy * 8))
  {
    hide ColumnBit;
    if k > 0 {
      ClassicDotsInside(s, columns, p, c, opaqueBg, k - 1);
      Apart((k - 1) / 8, 6, s.sx);
      Apart((k - 1) % 8, 8, s.sy);
    }
  }

  /** A character never draws outside its cell. */
  lemma CharDotsInside(s: Style, p: Pen, c: nat, opaqueBg: bool)
    requires s.Valid() && Printable(s, c) && c < 256
    ensures forall d <- CharDots(s, p, c, opaqueBg) :: d.area.Within(Cell(s, p, c))
  {
    match s.font
    case Classic(columns) =>
      hide ClassicDots;
      ClassicDotsInside(s, columns, p, ClassicIndex(s, c), opaqueBg, 40);
    case Custom(f) =>
      hide GlyphDots;
      assert f.At(c) in f.glyphs;
      if !Blank(s, c) {
        GlyphDotsInside(s, f, p, f.At(c), f.At(c).width * f.At(c).height);
      }
  }

  class Text {
    const style: Style
    var cursorX: int
    var cursorY: int

    constructor (s: Style, p: Pen)
      ensures style == s && Cursor() == p
    {
      style, cursorX, cursorY := s, p.x, p.y;
    }

    function Cursor(): Pen
      reads this
    {
      Pen(cursorX, cursorY)
    }

    /** One character: moves the cursor and returns what was drawn. */
    method Write(c: nat, opaqueBg: bool) returns (trace: seq<Dot>)
      requires style.Valid() && c < 256
      modifies this
      ensures Cursor() == DrawnPen(style, old(Cursor()), c)
      ensures trace
        == if Printable(style, c) then CharDots(style, DrawnAt(style, old(Cursor()), c), c, opaqueBg) else []
      ensures c == 10 || c == 13 ==> trace == []
    {
      hide ClassicChar, GlyphDots;
      trace := [];
      match style.font
      case Classic(columns) =>
        if c == NEWLINE {
          cursorX := 0;
          cursorY := cursorY + style.sy * 8;
        } else if c != RETURN {
          if style.wrap && cursorX + style.sx * 6 > style.width {
            cursorX := 0;
            cursorY := cursorY + style.sy * 8;
          }
          trace := DrawClassic(style, columns, cursorX, cursorY, c, opaqueBg);
          cursorX := cursorX + style.sx * 6;
        }
      case Custom(f) =>
        if c == NEWLINE {
          cursorX := 0;
          cursorY := cursorY + style.sy * f.yAdvance;
        } else if c != RETURN {
          if c >= f.first && c <= f.last {
            var glyph := f.glyphs[c - f.first];
            var w, h := glyph.width, glyph.height;
            if w > 0 && h > 0 {
              var xo := glyph.xOffset;
              if style.wrap && cursorX + style.sx * (xo + w) > style.width {
                cursorX := 0;
                cursorY := cursorY + style.sy * f.yAdvance;
              }
              trace := DrawCustom(style, f, cursorX, cursorY, c);
            }
            cursorX := cursorX + glyph.xAdvance * style.sx;
          }
        }
    }
  }

  /** The corners charBounds accumulates. */
  datatype Extent = Extent(minx: int, miny: int, maxx: int, maxy: int) {
    function Including(b: Box): Extent {
      Extent(if b.x < minx then b.x else minx,
             if b.y < miny then b.y else miny,
             if b.x + b.w - 1 > maxx then b.x + b.w - 1 else maxx,
             if b.y + b.h - 1 > maxy then b.y + b.h - 1 else maxy)
    }
  }

  /** The four comparisons that close charBounds. */
  method Stretch(e0: Extent, x1: int, y1: int, x2: int, y2: int) returns (e: Extent)
    ensures e == e0.Including(Box(x1, y1, x2 - x1 + 1, y2 - y1 + 1))
  {
    var minx, miny, maxx, maxy := e0.minx, e0.miny, e0.maxx, e0.maxy;
    if x1 < minx { minx := x1; }
    if y1 < miny { miny := y1; }
    if x2 > maxx { maxx := x2; }
    if y2 > maxy { maxy := y2; }
    e := Extent(minx, miny, maxx, maxy);
  }

  /** The branch of charBounds for a character the custom font has. */
  method GlyphBounds(s: Style, f: Font, c: nat, x0: int, y0: int, e0: Extent) returns (x: int, y: int, e: Extent)
    requires s.Valid() && s.font == Custom(f) && f.Has(c) && c != NEWLINE && c != RETURN
    ensures Pen(x, y) == MeasuredPen(s, Pen(x0, y0), c)
    ensures e == e0.Including(Cell(s, MeasuredAt(s, Pen(x0, y0), c), c))
  {
    hide Extent.Including;
    x, y := x0, y0;
    var glyph := f.glyphs[c - f.first];
    var gw, gh, xa, xo, yo := glyph.width, glyph.height, glyph.xAdvance, glyph.xOffset, glyph.yOffset;
    if s.wrap && x + (xo + gw) * s.sx > s.width {
      x := 0;
      y := y + s.sy * f.yAdvance;
    }
    var x1, y1 := x + xo * s.sx, y + yo * s.sy;
    var x2, y2 := x1 + gw * s.sx - 1, y1 + gh * s.sy - 1;
    e := Stretch(e0, x1, y1, x2, y2);
    x := x + xa * s.sx;
  }

  method CharBounds(s: Style, c: nat, x0: int, y0: int, e0: Extent) returns (x: int, y: int, e: Extent)
    requires s.Valid() && c < 256
    ensures Pen(x, y) == MeasuredPen(s, Pen(x0, y0), c)
    ensures e == if Printable(s, c) then e0.Including(Cell(s, MeasuredAt(s, Pen(x0, y0), c), c)) else e0
  {
    hide Extent.Including, Font.Valid;
    x, y, e := x0, y0, e0;
    match s.font
    case Custom(f) =>
      if c == NEWLINE {
        x := 0;
        y := y + s.sy * f.yAdvance;
      } else if c != RETURN {
        if c >= f.first && c <= f.last {
          x, y, e := GlyphBounds(s, f, c, x, y, e);
        }
      }
    case Classic(_) =>
      if c == NEWLINE {
        x := 0;
        y := y + s.sy * 8;
      } else if c != RETURN {
        if s.wrap && x + s.sx * 6 > s.width {
          x := 0;
          y := y + s.sy * 8;
        }
        var x2, y2 := x + s.sx * 6 - 1, y + s.sy * 8 - 1;
        e := Stretch(e0, x, y, x2, y2);
        x := x + s.sx * 6;
      }
  }

  // ---------------------------------------------------------------- whole strings

  predicate CharCodes(text: seq<nat>) {
    forall i | 0 <= i < |text| :: text[i] < 256
  }

  /** The pen after drawing a string. */
  function DrawnEnd(s: Style, p: Pen, text: seq<nat>): Pen
    requires s.Valid()
  {
    if text == [] then p else DrawnPen(s, DrawnEnd(s, p, text[..|text| - 1]), text[|text| - 1])
  }

  function MeasuredEnd(s: Style, p: Pen, text: seq<nat>): Pen
    requires s.Valid()
  {
    if text == [] then p else MeasuredPen(s, MeasuredEnd(s, p, text[..|text| - 1]), text[|text| - 1])
  }

  // ---------------------------------------------------------------- where characters go

  /** The height of a line, in pixels of the display. */
  function LineHeight(s: Style): int {
    s.sy * (match s.font case Classic(_) => 8 case Custom(f) => f.yAdvance)
  }

  /** A character goes to the start of the next line exactly when its cell would stick out on the right, except that
      drawing leaves empty cells where they are. */
  lemma WrapsExactly(s: Style, p: Pen, c: nat)
    requires s.Valid() && Printable(s, c)
    ensures var (cell, next) := (Cell(s, p, c), Pen(0, p.y + LineHeight(s)));
      && MeasuredAt(s, p, c) == (if s.wrap && cell.x + cell.w > s.width then next else p)
      && DrawnAt(s, p, c) == (if cell.Empty() then p else MeasuredAt(s, p, c))
  {
    if s.font.Custom? {
      var g := s.font.font.At(c);
      assert s.sx * (g.xOffset + g.width) == g.xOffset * s.sx + g.width * s.sx;
      assert g in s.font.font.glyphs;
      Ordered(0, g.width, s.sx);
      Ordered(0, g.height, s.sy);
    } else {
      Ordered(0, 6, s.sx);
      Ordered(0, 8, s.sy);
    }
  }

  /** A newline goes to the start of the next line, a return and a character outside the font go nowhere. */
  lemma ControlCharacters(s: Style, p: Pen, c: nat)
    requires s.Valid()
    ensures DrawnPen(s, p, 10) == MeasuredPen(s, p, 10) == Pen(0, p.y + LineHeight(s))
    ensures DrawnPen(s, p, 13) == MeasuredPen(s, p, 13) == p
    ensures Printable(s, c) <==> c != 10 && c != 13 && (s.font.Custom? ==> s.font.font.first <= c <= s.font.font.last)
    ensures !Printable(s, c) && c != 10 ==> DrawnPen(s, p, c) == MeasuredPen(s, p, c) == p
  {
  }

  /** The widths of the characters of a text, in pixels of the font. */
  function Widths(s: Style, text: seq<nat>): int
    requires s.Valid()
  {
    if text == [] then 0
    else
      var c := text[|text| - 1];
      Widths(s, text[..|text| - 1]) +
      match s.font
      case Classic(_) => if c == 13 then 0 else 6
      case Custom(f) => if c != 13 && f.first <= c <= f.last then f.glyphs[c - f.first].xAdvance else 0
  }

  /** Without wrapping, a text without newlines moves the pen by its width, measured or drawn. */
  lemma {:induction false} PenWithoutWrap(s: Style, p: Pen, text: seq<nat>)
    requires s.Valid() && !s.wrap && 10 !in text
    ensures DrawnEnd(s, p, text) == MeasuredEnd(s, p, text) == Pen(p.x + s.sx * Widths(s, text), p.y)
  {
    if text != [] {
      var front, c := text[..|text| - 1], text[|text| - 1];
      PenWithoutWrap(s, p, front);
      var w := Widths(s, text) - Widths(s, front);
      assert s.sx * (Widths(s, front) + w) == s.sx * Widths(s, front) + s.sx * w;
      assert w * s.sx == s.sx * w;
      hide Widths, DrawnEnd, MeasuredEnd, MeasuredPen;
      assert DrawnPen(s, DrawnEnd(s, p, front), c).x == DrawnEnd(s, p, front).x + s.sx * w;
    }
  }

  /** Where character n of a classic text stands, when cells fit in a line of the display cols at a time. */
  function GridPen(s: Style, y: int, cols: nat, n: nat): Pen
    requires cols > 0
  {
    Pen(n % cols * (6 * s.sx), y + n / cols * (8 * s.sy))
  }

  predicate AllPrintable(s: Style, text: seq<nat>) {
    forall c | c in text :: Printable(s, c)
  }

  lemma GridNext(n: nat, cols: nat, cell: nat, width: int)
    requires cell > 0 && width >= cell && cols == width / cell
    ensures cols > 0
    ensures var m := n % cols;
      if (m + 1) * cell + cell > width then (n + 1) % cols == 0 && (n + 1) / cols == n / cols + 1
      else (n + 1) % cols == m + 1 && (n + 1) / cols == n / cols
  {
    UnitOf(width, cell, 1, 1);
    Ordered(cols, 1, cell);
    var (m, q) := (n % cols, n / cols);
    UnitOf(width, cell, 0, m + 2);
    assert (m + 1) * cell + cell == (m + 2) * cell;
    NextColumn(n, cols, q, m);
  }

  lemma NextColumn(n: nat, cols: nat, q: nat, m: nat)
    requires cols > 0 && q == n / cols && m == n % cols
    ensures m + 2 > cols ==> (n + 1) % cols == 0 && (n + 1) / cols == q + 1
    ensures m + 2 <= cols ==> (n + 1) % cols == m + 1 && (n + 1) / cols == q
  {
    assert n == q * cols + m;
    if m + 1 < cols {
      DivUnique(n + 1, cols, q);
    } else {
      assert (q + 1) * cols == q * cols + cols;
      DivUnique(n + 1, cols, q + 1);
    }
  }

  /** A classic text that begins at the left edge of a display with wrapping is set in a grid: character n, measured or
      drawn, stands in column n % cols and line n / cols, as many columns as whole cells fit. */
  lemma {:induction false} ClassicGrid(s: Style, y: int, text: seq<nat>, c: nat)
    requires s.Valid() && s.font.Classic? && s.wrap && s.width >= 6 * s.sx
    requires AllPrintable(s, text + [c])
    ensures s.width / (6 * s.sx) > 0 && Printable(s, c)
    ensures var cols := s.width / (6 * s.sx);
      && DrawnAt(s, DrawnEnd(s, Pen(0, y), text), c) == GridPen(s, y, cols, |text|)
      && MeasuredAt(s, MeasuredEnd(s, Pen(0, y), text), c) == GridPen(s, y, cols, |text|)
  {
    hide Style.Valid;
    var (n, cell) := (|text|, 6 * s.sx);
    assert c in text + [c];
    GridPositive(s);
    var cols := s.width / cell;
    if text == [] {
      DivUnique(0, cols, 0);
      GridStart(s, y, c);
    } else {
      var front, b := text[..n - 1], text[n - 1];
      assert forall x | x in front + [b] :: x in text + [c];
      ClassicGrid(s, y, front, b);
      GridNext(n - 1, cols, cell, s.width);
      GridStep(s, y, cols, n - 1, b, c);
    }
  }

  lemma GridPositive(s: Style)
    requires s.Valid() && s.width >= 6 * s.sx
    ensures s.sx > 0 && s.width / (6 * s.sx) > 0
  {
    UnitOf(s.width, 6 * s.sx, 1, 1);
    Ordered(s.width / (6 * s.sx), 1, 6 * s.sx);
  }

  lemma GridStart(s: Style, y: int, c: nat)
    requires s.Valid() && s.font.Classic? && s.width >= 6 * s.sx && Printable(s, c)
    ensures DrawnAt(s, Pen(0, y), c) == MeasuredAt(s, Pen(0, y), c) == Pen(0, y)
  {
  }

  lemma GridStep(s: Style, y: int, cols: nat, n: nat, b: nat, c: nat)
    requires s.Valid() && s.font.Classic? && s.wrap && cols > 0 && Printable(s, b) && Printable(s, c)
    requires var (m, cell) := (n % cols, 6 * s.sx);
      if (m + 1) * cell + cell > s.width then (n + 1) % cols == 0 && (n + 1) / cols == n / cols + 1
      else (n + 1) % cols == m + 1 && (n + 1) / cols == n / cols
    ensures var p := GridPen(s, y, cols, n);
      && (forall q: Pen :: DrawnAt(s, q, b) == p ==> DrawnAt(s, DrawnPen(s, q, b), c) == GridPen(s, y, cols, n + 1))
      && (forall q: Pen :: MeasuredAt(s, q, b) == p ==>
            MeasuredAt(s, MeasuredPen(s, q, b), c) == GridPen(s, y, cols, n + 1))
  {
    var (m, cell) := (n % cols, 6 * s.sx);
    assert (m + 1) * cell == m * cell + cell;
    assert (n / cols + 1) * (8 * s.sy) == n / cols * (8 * s.sy) + 8 * s.sy;
  }

  /** A blank glyph never stands where measuring would wrap it and drawing would not. */
  predicate BlanksFit(s: Style, p: Pen, text: seq<nat>)
    requires s.Valid()
  {
    text != [] ==>
      var front, c := text[..|text| - 1], text[|text| - 1];
      && BlanksFit(s, p, front)
      && (Printable(s, c) && Blank(s, c) ==> Wrapped(s, DrawnEnd(s, p, front), c) == DrawnEnd(s, p, front))
  }

  /** The cells measuring visits. */
  function Cells(s: Style, p: Pen, text: seq<nat>): seq<Box>
    requires s.Valid()
  {
    if text == [] then []
    else
      var front, c := text[..|text| - 1], text[|text| - 1];
      Cells(s, p, front) + if Printable(s, c) then [Cell(s, MeasuredAt(s, MeasuredEnd(s, p, front), c), c)] else []
  }

  function ExtentOf(start: Extent, cells: seq<Box>): Extent {
    if cells == [] then start else ExtentOf(start, cells[..|cells| - 1]).Including(cells[|cells| - 1])
  }

  /** What getTextBounds reports for a string starting at p. */
  function TextBox(s: Style, p: Pen, text: seq<nat>): Box
    requires s.Valid()
  {
    var e := ExtentOf(Extent(s.width, s.height, -1, -1), Cells(s, p, text));
    var (x, w) := if e.maxx >= e.minx then (e.minx, e.maxx - e.minx + 1) else (p.x, 0);
    var (y, h) := if e.maxy >= e.miny then (e.miny, e.maxy - e.miny + 1) else (p.y, 0);
    Box(x, y, w, h)
  }

  method GetTextBounds(s: Style, text: seq<nat>, x0: int, y0: int) returns (x1: int, y1: int, w: int, h: int)
    requires s.Valid() && CharCodes(text) && 0 !in text
    ensures Box(x1, y1, w, h) == TextBox(s, Pen(x0, y0), text)
  {
    var x, y := x0, y0;
    x1, y1, w, h := x, y, 0, 0;
    var e := Extent(s.width, s.height, -1, -1);
    hide Cell, MeasuredPen, MeasuredAt, Printable, Extent.Including;
    for i := 0 to |text|
      invariant Pen(x, y) == MeasuredEnd(s, Pen(x0, y0), text[..i])
      invariant e == ExtentOf(Extent(s.width, s.height, -1, -1), Cells(s, Pen(x0, y0), text[..i]))
    {
      assert text[i] in text && text[..i + 1][..i] == text[..i];
      x, y, e := CharBounds(s, text[i], x, y, e);
      ghost var before := Cells(s, Pen(x0, y0), text[..i]);
      ghost var after := Cells(s, Pen(x0, y0), text[..i + 1]);
      assert after != before ==> after[..|after| - 1] == before;
    }
    assert text[..|text|] == text;
    if e.maxx >= e.minx {
      x1 := e.minx;
      w := e.maxx - e.minx + 1;
    }
    if e.maxy >= e.miny {
      y1 := e.miny;
      h := e.maxy - e.miny + 1;
    }
  }

  lemma {:induction false} ExtentIncludes(start: Extent, cells: seq<Box>, b: Box)
    requires b in cells
    ensures var e := ExtentOf(start, cells);
      e.minx <= b.x && e.miny <= b.y && b.x + b.w - 1 <= e.maxx && b.y + b.h - 1 <= e.maxy
  {
    var front := cells[..|cells| - 1];
    assert cells == front + [cells[|cells| - 1]];
    if b in front {
      ExtentIncludes(start, front, b);
    }
  }

  /** Each side of the extent is the starting value or touches a cell: no larger box is reported. */
  lemma {:induction false} ExtentTight(start: Extent, cells: seq<Box>)
    ensures var e := ExtentOf(start, cells);
      && (e.minx == start.minx || exists b :: b in cells && b.x == e.minx)
      && (e.miny == start.miny || exists b :: b in cells && b.y == e.miny)
      && (e.maxx == start.maxx || exists b :: b in cells && b.x + b.w - 1 == e.maxx)
      && (e.maxy == start.maxy || exists b :: b in cells && b.y + b.h - 1 == e.maxy)
  {
    if cells != [] {
      var front, l := cells[..|cells| - 1], cells[|cells| - 1];
      ExtentTight(start, front);
      assert l in cells && forall b :: b in front ==> b in cells;
    }
  }

  /** An empty text has an empty box where it begins. A reported side touches a cell, or else the display's edge on
      which the search for it began. */
  lemma TextBoxTight(s: Style, p: Pen, text: seq<nat>)
    requires s.Valid()
    ensures var (box, cells) := (TextBox(s, p, text), Cells(s, p, text));
      && (box.w == 0 ==> box.x == p.x) && (box.h == 0 ==> box.y == p.y)
      && (cells == [] && s.width >= 0 && s.height >= 0 ==> box.w == box.h == 0)
      && (box.w > 0 ==>
            && (box.x == s.width || exists b :: b in cells && b.x == box.x)
            && (box.x + box.w == 0 || exists b :: b in cells && b.x + b.w == box.x + box.w))
      && (box.h > 0 ==>
            && (box.y == s.height || exists b :: b in cells && b.y == box.y)
            && (box.y + box.h == 0 || exists b :: b in cells && b.y + b.h == box.y + box.h))
  {
    hide Cells;
    assert ExtentOf(Extent(s.width, s.height, -1, -1), []) == Extent(s.width, s.height, -1, -1);
    hide ExtentOf;
    ExtentTight(Extent(s.width, s.height, -1, -1), Cells(s, p, text));
  }

  /** The reported box contains every cell that is not empty. */
  lemma TextBoxContains(s: Style, p: Pen, text: seq<nat>, b: Box)
    requires s.Valid() && b in Cells(s, p, text) && !b.Empty()
    ensures b.Within(TextBox(s, p, text))
  {
    ExtentIncludes(Extent(s.width, s.height, -1, -1), Cells(s, p, text), b);
  }

  /** Measuring and drawing agree after every prefix. */
  predicate PensAgree(s: Style, p: Pen, text: seq<nat>)
    requires s.Valid()
  {
    forall k | 0 <= k <= |text| :: MeasuredEnd(s, p, text[..k]) == DrawnEnd(s, p, text[..k])
  }

  lemma PensAgreeNext(s: Style, p: Pen, front: seq<nat>, c: nat)
    requires s.Valid()
    ensures PensAgree(s, p, front + [c])
      <==> PensAgree(s, p, front) && MeasuredEnd(s, p, front + [c]) == DrawnEnd(s, p, front + [c])
    ensures PensAgree(s, p, front) ==> MeasuredEnd(s, p, front) == DrawnEnd(s, p, front)
  {
    hide MeasuredEnd, DrawnEnd, Style.Valid;
    var text, n := front + [c], |front|;
    assert text[..n + 1] == text && front[..n] == front;
    assert forall k | 0 <= k <= n :: text[..k] == front[..k];
  }

  /** Measuring moves the pen exactly as drawing moves the cursor, through the whole string, if and
      only if no blank glyph would be wrapped. */
  lemma {:induction false} PensAgreeExactly(s: Style, p: Pen, text: seq<nat>)
    requires s.Valid()
    ensures BlanksFit(s, p, text) <==> PensAgree(s, p, text)
  {
    hide Wrapped, Printable, Blank, MeasuredPen, DrawnPen, Style.Valid;
    if text == [] {
      assert text[..0] == text;
    } else {
      hide PensAgree;
      var front, c := text[..|text| - 1], text[|text| - 1];
      PensAgreeExactly(s, p, front);
      assert text == front + [c];
      PensAgreeNext(s, p, front, c);
      CharPensAgree(s, DrawnEnd(s, p, front), c);
    }
  }

  /** A style in which measuring and drawing cannot come apart, whatever is written wherever. */
  ghost predicate NoBlankWraps(s: Style)
    requires s.Valid()
  {
    !s.wrap || forall c: nat | Printable(s, c) :: !Blank(s, c)
  }

  lemma {:induction false} BlanksAlwaysFit(s: Style, p: Pen, text: seq<nat>)
    requires s.Valid() && NoBlankWraps(s)
    ensures BlanksFit(s, p, text)
  {
    if text != [] {
      BlanksAlwaysFit(s, p, text[..|text| - 1]);
    }
  }

  /** A blank glyph far enough to the right is wrapped when it is measured and not when it is drawn. */
  lemma BlankComesApart(s: Style, c: nat)
    requires s.Valid() && s.wrap && Printable(s, c) && Blank(s, c)
    ensures exists p: Pen :: !PensAgree(s, p, [c])
  {
    var right := s.sx * (s.font.font.At(c).xOffset + s.font.font.At(c).width);
    var p := Pen(if s.width - right >= 0 then s.width - right + 1 else 1, 0);
    assert CellRight(s, p.x, c) == p.x + right;
    assert Wrapped(s, p, c) != p;
    CharPensAgree(s, p, c);
    assert [c][..0] == [] && [c][..1] == [c];
    assert MeasuredEnd(s, p, [c][..1]) != DrawnEnd(s, p, [c][..1]);
    assert !PensAgree(s, p, [c]);
  }

  /** The pens agree on every string from every position exactly with wrapping off or without blank glyphs: with the
      classic font always. */
  lemma StylesAgreeExactly(s: Style)
    requires s.Valid()
    ensures (forall p: Pen, text: seq<nat> :: PensAgree(s, p, text)) <==> NoBlankWraps(s)
    ensures s.font.Classic? ==> NoBlankWraps(s)
  {
    hide PensAgree;
    if NoBlankWraps(s) {
      forall p: Pen, text: seq<nat>
        ensures PensAgree(s, p, text)
      {
        BlanksAlwaysFit(s, p, text);
        PensAgreeExactly(s, p, text);
      }
    } else {
      var c: nat :| Printable(s, c) && Blank(s, c);
      BlankComesApart(s, c);
    }
  }

  /** A display ten pixels wide, and a font with a blank, a glyph of 3 by 1 and one of 5 by 1 pixels. */
  const NARROW: Style := Style(
    Custom(Font([0xE0, 0xF8], [Glyph(0, 0, 0, 4, 0, 0), Glyph(0, 3, 1, 3, 0, 0), Glyph(1, 5, 1, 5, 0, 0)], 32, 34, 8)),
    1, 1, true, false, 10, 20)

  /** A blank at the right edge leaves the two pens on different lines. */
  lemma BlankWrapDiffers()
    ensures NARROW.Valid()
    ensures MeasuredPen(NARROW, Pen(11, 0), 32) == Pen(4, 8) && DrawnPen(NARROW, Pen(11, 0), 32) == Pen(15, 0)
  {
  }

  lemma CharPensAgree(s: Style, q: Pen, c: nat)
    requires s.Valid()
    ensures MeasuredPen(s, q, c) == DrawnPen(s, q, c) <==> (Printable(s, c) && Blank(s, c) ==> Wrapped(s, q, c) == q)
  {
  }

  /** Everything drawing a string draws. */
  function TextDots(s: Style, p: Pen, text: seq<nat>, opaqueBg: bool): seq<Dot>
    requires s.Valid() && CharCodes(text)
  {
    if text == [] then []
    else
      var front, c := text[..|text| - 1], text[|text| - 1];
      TextDots(s, p, front, opaqueBg) +
      (if Printable(s, c) then CharDots(s, DrawnAt(s, DrawnEnd(s, p, front), c), c, opaqueBg) else [])
  }

  method WriteString(t: Text, text: seq<nat>, opaqueBg: bool) returns (trace: seq<Dot>)
    requires t.style.Valid() && CharCodes(text)
    modifies t
    ensures t.Cursor() == DrawnEnd(t.style, old(t.Cursor()), text)
    ensures trace == TextDots(t.style, old(t.Cursor()), text, opaqueBg)
  {
    trace := [];
    ghost var s, p := t.style, t.Cursor();
    hide CharDots, DrawnPen, DrawnAt, Printable, Style.Valid;
    for i := 0 to |text|
      invariant t.Cursor() == DrawnEnd(s, p, text[..i])
      invariant trace == TextDots(s, p, text[..i], opaqueBg)
    {
      assert text[i] in text && text[..i + 1][..i] == text[..i];
      var dots := t.Write(text[i], opaqueBg);
      trace := trace + dots;
    }
    assert text[..|text|] == text;
  }

  /** Each rectangle drawn lies in a cell that measuring visits. */
  lemma {:induction false} TextDotsInCells(s: Style, p: Pen, text: seq<nat>, opaqueBg: bool)
    requires s.Valid() && CharCodes(text) && BlanksFit(s, p, text)
    ensures forall d <- TextDots(s, p, text, opaqueBg) ::
      exists cell <- Cells(s, p, text) :: !cell.Empty() && d.area.Within(cell)
  {
    hide CharDots, Cell, Box.Within, Box.Empty, Style.Valid;
    if text != [] {
      var front, c := text[..|text| - 1], text[|text| - 1];
      TextDotsInCells(s, p, front, opaqueBg);
      PensAgreeExactly(s, p, front);
      PensAgreeNext(s, p, front, c);
      forall d | d in TextDots(s, p, text, opaqueBg)
        ensures exists cell <- Cells(s, p, text) :: !cell.Empty() && d.area.Within(cell)
      {
        if d in TextDots(s, p, front, opaqueBg) {
          var cell :| cell in Cells(s, p, front) && !cell.Empty() && d.area.Within(cell);
          assert cell in Cells(s, p, text);
        } else {
          NewDot(s, MeasuredEnd(s, p, front), c, opaqueBg, d);
          assert Cell(s, MeasuredAt(s, MeasuredEnd(s, p, front), c), c) in Cells(s, p, text);
        }
      }
    }
  }

  /** What one more character draws lies in the cell measuring adds for it. */
  lemma NewDot(s: Style, q: Pen, c: nat, opaqueBg: bool, d: Dot)
    requires s.Valid() && Printable(s, c) && c < 256 && d in CharDots(s, DrawnAt(s, q, c), c, opaqueBg)
    ensures var cell := Cell(s, MeasuredAt(s, q, c), c); !cell.Empty() && d.area.Within(cell)
  {
    CharDotsInside(s, DrawnAt(s, q, c), c, opaqueBg);
    assert !Blank(s, c);
    PositiveCell(s, MeasuredAt(s, q, c), c);
  }

  /** A string drawn through write stays inside the box getTextBounds reports for it. */
  lemma TextStaysInBox(s: Style, p: Pen, text: seq<nat>, opaqueBg: bool)
    requires s.Valid() && CharCodes(text) && BlanksFit(s, p, text)
    ensures forall d <- TextDots(s, p, text, opaqueBg) :: d.area.Within(TextBox(s, p, text))
  {
    hide TextBox, TextDots, Cells, CharDots;
    TextDotsInCells(s, p, text, opaqueBg);
    forall d | d in TextDots(s, p, text, opaqueBg)
      ensures d.area.Within(TextBox(s, p, text))
    {
      var cell :| cell in Cells(s, p, text) && !cell.Empty() && d.area.Within(cell);
      TextBoxContains(s, p, text, cell);
    }
  }

  /** Where nothing blank is ever wrapped, every string stays inside its box, from every position. */
  lemma NoBlankWrapStays(s: Style, p: Pen, text: seq<nat>, opaqueBg: bool)
    requires s.Valid() && NoBlankWraps(s) && CharCodes(text)
    ensures forall d <- TextDots(s, p, text, opaqueBg) :: d.area.Within(TextBox(s, p, text))
  {
    BlanksAlwaysFit(s, p, text);
    TextStaysInBox(s, p, text, opaqueBg);
  }

  lemma OneMore(s: Style, p: Pen, front: seq<nat>, c: nat)
    requires s.Valid() && Printable(s, c)
    ensures var at := MeasuredAt(s, MeasuredEnd(s, p, front), c);
      && MeasuredEnd(s, p, front + [c]) == MeasuredPen(s, MeasuredEnd(s, p, front), c)
      && Cells(s, p, front + [c]) == Cells(s, p, front) + [Cell(s, at, c)]
    ensures DrawnEnd(s, p, front + [c]) == DrawnPen(s, DrawnEnd(s, p, front), c)
    ensures MeasuredEnd(s, p, []) == DrawnEnd(s, p, []) == p && Cells(s, p, []) == []
  {
    hide MeasuredPen, DrawnPen, Cell, MeasuredAt, Printable, Style.Valid;
    assert (front + [c])[..|front|] == front;
  }

  lemma OneMoreCell(start: Extent, cells: seq<Box>, b: Box)
    ensures ExtentOf(start, cells + [b]) == ExtentOf(start, cells).Including(b)
    ensures ExtentOf(start, []) == start
  {
    assert (cells + [b])[..|cells|] == cells;
  }

  /** Without that condition text does leave its box: pixel (7, 8) is drawn, and columns 0 to 6 are reported. */
  lemma TextEscapesBox()
    ensures NARROW.Valid()
    ensures var text, p := [32, 33, 34], Pen(11, 0);
      && CharCodes(text) && TextBox(NARROW, p, text) == Box(0, 8, 7, 9)
      && Dot(Box(7, 8, 1, 1), true) in TextDots(NARROW, p, text, false)
      && !Box(7, 8, 1, 1).Within(TextBox(NARROW, p, text))
  {
    hide *;
    BlankWrapDiffers();
    EscapeMeasured();
    EscapeDrawn();
  }

  lemma NarrowMeasured()
    ensures NARROW.Valid() && Printable(NARROW, 32) && Printable(NARROW, 33) && Printable(NARROW, 34)
    ensures NARROW.width == 10 && NARROW.height == 20
    ensures MeasuredPen(NARROW, Pen(11, 0), 32) == Pen(4, 8)
    ensures MeasuredPen(NARROW, Pen(4, 8), 33) == Pen(7, 8)
  {
  }

  lemma NarrowAt()
    ensures NARROW.Valid() && Printable(NARROW, 32) && Printable(NARROW, 33) && Printable(NARROW, 34)
    ensures MeasuredAt(NARROW, Pen(11, 0), 32) == Pen(0, 8)
    ensures MeasuredAt(NARROW, Pen(4, 8), 33) == Pen(4, 8)
    ensures MeasuredAt(NARROW, Pen(7, 8), 34) == Pen(0, 16)
  {
  }

  lemma NarrowCells()
    requires NARROW.Valid() && Printable(NARROW, 32) && Printable(NARROW, 33) && Printable(NARROW, 34)
    ensures Cell(NARROW, Pen(0, 8), 32) == Box(0, 8, 0, 0)
    ensures Cell(NARROW, Pen(4, 8), 33) == Box(4, 8, 3, 1)
    ensures Cell(NARROW, Pen(0, 16), 34) == Box(0, 16, 5, 1)
  {
  }

  lemma EscapeMeasured()
    requires NARROW.Valid()
    ensures var box := TextBox(NARROW, Pen(11, 0), [32, 33, 34]); box == Box(0, 8, 7, 9) && !Box(7, 8, 1, 1).Within(box)
  {
    hide MeasuredPen, Cell, MeasuredAt, Printable, Style.Valid, MeasuredEnd, DrawnEnd, Cells, ExtentOf, NARROW;
    var p, e := Pen(11, 0), Extent(10, 20, -1, -1);
    var c1, c2, c3 := Box(0, 8, 0, 0), Box(4, 8, 3, 1), Box(0, 16, 5, 1);
    NarrowMeasured();
    NarrowAt();
    NarrowCells();
    OneMore(NARROW, p, [], 32);
    assert [] + [32] == [32] && [32] + [33] == [32, 33] && [32, 33] + [34] == [32, 33, 34];
    OneMore(NARROW, p, [32], 33);
    OneMore(NARROW, p, [32, 33], 34);
    assert Cells(NARROW, p, [32, 33, 34]) == [c1] + [c2] + [c3];
    assert [] + [c1] == [c1];
    OneMoreCell(e, [], c1);
    OneMoreCell(e, [c1], c2);
    OneMoreCell(e, [c1] + [c2], c3);
  }

  lemma NarrowDrawn()
    ensures NARROW.Valid() && Printable(NARROW, 32) && Printable(NARROW, 33) && Printable(NARROW, 34)
    ensures DrawnPen(NARROW, Pen(11, 0), 32) == Pen(15, 0)
    ensures DrawnPen(NARROW, Pen(15, 0), 33) == Pen(3, 8)
    ensures DrawnAt(NARROW, Pen(3, 8), 34) == Pen(3, 8)
  {
  }

  lemma EscapeDrawn()
    requires NARROW.Valid()
    ensures var text := [32, 33, 34];
      CharCodes(text) && Dot(Box(7, 8, 1, 1), true) in TextDots(NARROW, Pen(11, 0), text, false)
  {
    hide DrawnPen, CharDots, DrawnAt, Printable, Style.Valid, MeasuredEnd, DrawnEnd, Cells, NARROW;
    var p := Pen(11, 0);
    NarrowDrawn();
    OneMore(NARROW, p, [], 32);
    assert [] + [32] == [32] && [32] + [33] == [32, 33] && [32, 33, 34][..2] == [32, 33];
    OneMore(NARROW, p, [32], 33);
    LastChar();
  }

  lemma LastChar()
    requires NARROW.Valid() && Printable(NARROW, 34)
    ensures Dot(Box(7, 8, 1, 1), true) in CharDots(NARROW, Pen(3, 8), 34, false)
  {
    hide GlyphDots;
    LastPixel(NARROW.font.font, Glyph(1, 5, 1, 5, 0, 0));
  }

  lemma LastPixel(f: Font, g: Glyph)
    requires f == NARROW.font.font && g == Glyph(1, 5, 1, 5, 0, 0)
    ensures BytesFor(5) == 1
    ensures Dot(Box(7, 8, 1, 1), true) in GlyphDots(NARROW, f, Pen(3, 8), g, 5)
  {
    assert f.bitmap[1 + 4 / 8] == 0xF8 && POW2[3] == 8;
    assert BitmapBit(f, g, 4);
  }

  lemma PositiveCell(s: Style, q: Pen, c: nat)
    requires s.Valid() && Printable(s, c) && !Blank(s, c)
    ensures !Cell(s, q, c).Empty()
  {
    if s.font.Custom? {
      Apart(0, s.font.font.At(c).width, s.sx);
      Apart(0, s.font.font.At(c).height, s.sy);
    }
  }
}
