/** BLE UUIDs: the three widths, their common 128-bit form, the text form, and equality. */
module Uuid {

  import opened Machine

  /** Whether it is set, its width and its value; byte 0 of a 128-bit value is the least significant. */
  datatype UUID = Unset | U16(v16: uint16) | U32(v32: uint32) | U128(bytes: seq<byte>) {
    predicate Valid() {
      U128? ==> |bytes| == 16
    }

    function BitSize(): nat {
      match this
      case Unset => 0
      case U16(_) => 16
      case U32(_) => 32
      case U128(_) => 128
    }
  }

  // ---------------------------------------------------------------- the 128-bit form

  /** The Bluetooth base UUID without its top four bytes. */
  const BASE: seq<byte> := [0xfb, 0x34, 0x9b, 0x5f, 0x80, 0x00, 0x00, 0x80, 0x00, 0x10, 0x00, 0x00]

  function Le16(v: uint16): (b: seq<byte>) {
    [v % 256, v / 256]
  }

  function Le32(v: uint32): (b: seq<byte>) {
    [v % 256, v / 0x100 % 256, v / 0x1_0000 % 256, v / 0x100_0000]
  }

  function OfLe16(b: seq<byte>): uint16
    requires |b| >= 2
  {
    b[0] as int + 256 * b[1] as int
  }

  function OfLe32(b: seq<byte>): uint32
    requires |b| >= 4
  {
    b[0] as int + 0x100 * b[1] as int + 0x1_0000 * b[2] as int + 0x100_0000 * b[3] as int
  }

  lemma LittleEndian(v: uint16, w: uint32)
    ensures OfLe16(Le16(v)) == v && OfLe32(Le32(w)) == w
  {
    var w1, w2 := w / 0x100, w / 0x1_0000;
    assert w1 / 0x100 == w2 && w2 / 0x100 == w / 0x100_0000;
    assert w == 0x100 * w1 + w % 0x100 && w1 == 0x100 * w2 + w1 % 0x100 && w2 == 0x100 * (w2 / 0x100) + w2 % 0x100;
  }

  function Full(u: UUID): (f: UUID)
    requires u.Valid()
    ensures f.Valid() && (f.Unset? <==> u.Unset?) && (!f.Unset? ==> f.U128?)
  {
    match u
    case Unset => Unset
    case U16(v) => U128(BASE + Le16(v) + [0, 0])
    case U32(v) => U128(BASE + Le32(v))
    case U128(_) => u
  }

  /** memrcpy: the source reversed into the target. */
  method Memrcpy(target: array<byte>, source: seq<byte>)
    requires |source| == target.Length > 0
    modifies target
    ensures forall i | 0 <= i < target.Length :: target[i] == source[target.Length - 1 - i]
  {
    var size, t, s := |source|, |source| - 1, 0;
    while size > 0
      invariant 0 <= size && s + size == |source| && t == size - 1
      invariant forall i | t < i < target.Length :: target[i] == source[target.Length - 1 - i]
    {
      target[t] := source[s];
      t, s, size := t - 1, s + 1, size - 1;
    }
  }

  class BLEUUID {
    var uuid: UUID

    constructor (u: UUID)
      requires u.Valid()
      ensures uuid == u
    {
      uuid := u;
    }

    /** BLEUUID(uint8_t* pData, 16, msbFirst) */
    constructor FromBytes(data: seq<byte>, msbFirst: bool)
      requires |data| == 16
      ensures uuid.U128? && uuid.Valid()
      ensures forall i | 0 <= i < 16 :: uuid.bytes[i] == if msbFirst then data[15 - i] else data[i]
    {
      var target := new byte[16](_ => 0);
      if msbFirst {
        Memrcpy(target, data);
        uuid := U128(target[..]);
      } else {
        uuid := U128(data);
      }
    }

    /** Widens this UUID in place to its 128-bit form. */
    method To128()
      requires uuid.Valid()
      modifies this
      ensures uuid == Full(old(uuid))
    {
      if uuid.Unset? || uuid.U128? {
        return;
      }
      var b15: byte, b14: byte, b13: byte, b12: byte := 0, 0, 0, 0;
      if uuid.U16? {
        var temp := uuid.v16;
        b13, b12 := temp / 0x100 % 0x100, temp % 0x100;
      } else {
        var temp := uuid.v32;
        b15, b14, b13, b12 := temp / 0x100_0000 % 0x100, temp / 0x1_0000 % 0x100, temp / 0x100 % 0x100, temp % 0x100;
      }
      uuid := U128([0xfb, 0x34, 0x9b, 0x5f, 0x80, 0x00, 0x00, 0x80, 0x00, 0x10, 0x00, 0x00, b12, b13, b14, b15]);
    }
  }

  // ---------------------------------------------------------------- text

  function Digit(d: nat): (c: char)
    requires d < 16
  {
    "0123456789abcdef"[d]
  }

  function DigitValue(c: char): (d: int)
    ensures -1 <= d < 16
  {
    if '0' <= c <= '9' then c as int - 48
    else if 'a' <= c <= 'f' then c as int - 87
    else if 'A' <= c <= 'F' then c as int - 55
    else -1
  }

  lemma DigitInverse(d: nat)
    requires d < 16
    ensures DigitValue(Digit(d)) == d
  {
  }

  /** Digits are read in upper and in lower case, and nothing else is one. */
  lemma DigitsRead(c: char)
    ensures var d := DigitValue(c); if d >= 0 then c == "0123456789abcdef"[d] || c == "0123456789ABCDEF"[d] else d == -1
    ensures forall d: nat | d < 16 :: DigitValue("0123456789abcdef"[d]) == DigitValue("0123456789ABCDEF"[d]) == d
  {
  }

  /** std::hex output: the shortest hexadecimal form. */
  function Hex(n: nat): (s: string) {
    if n < 16 then [Digit(n)] else Hex(n / 16) + [Digit(n % 16)]
  }

  function Zeros(n: int): string {
    if n <= 0 then "" else Zeros(n - 1) + "0"
  }

  /** std::setfill('0') << std::setw(w) */
  function Padded(s: string, w: nat): string {
    Zeros(w - |s|) + s
  }

  /** Exactly w hexadecimal digits. */
  function Fixed(n: nat, w: nat): (s: string)
    ensures |s| == w
  {
    if w == 0 then "" else Fixed(n / 16, w - 1) + [Digit(n % 16)]
  }

  lemma {:induction false} FixedZero(w: nat)
    ensures Fixed(0, w) == Zeros(w)
  {
    if w > 0 {
      FixedZero(w - 1);
    }
  }

  function Pow16(w: nat): nat {
    if w == 0 then 1 else 16 * Pow16(w - 1)
  }

  /** Padding gives the fixed-width form of every number that fits. */
  lemma {:induction false} PaddedIsFixed(n: nat, w: nat)
    requires w > 0 && n < Pow16(w)
    ensures Padded(Hex(n), w) == Fixed(n, w) && |Hex(n)| <= w
  {
    hide Digit;
    if n < 16 {
      FixedZero(w - 1);
    } else {
      assert w > 1;
      PaddedIsFixed(n / 16, w - 1);
      ConcatAssoc(Zeros(w - |Hex(n)|), Hex(n / 16), [Digit(n % 16)]);
    }
  }

  function HexByte(b: byte): (s: string)
    ensures |s| == 2
  {
    [Digit(b / 16), Digit(b % 16)]
  }

  lemma FixedByByte(n: nat, w: nat)
    ensures Fixed(n, w + 2) == Fixed(n / 0x100, w) + HexByte(n % 0x100)
    ensures Fixed(n, 0) == ""
  {
    assert n / 16 / 16 == n / 0x100 && n / 16 % 16 == n % 0x100 / 16 && n % 16 == n % 0x100 % 16;
  }

  lemma FixedWord(v: uint16)
    ensures Fixed(v, 4) == HexByte(v / 0x100) + HexByte(v % 0x100)
  {
    hide *;
    FixedByByte(v, 2);
    FixedByByte(v / 0x100, 0);
    assert v / 0x100 % 0x100 == v / 0x100;
  }

  lemma FixedLong(w: uint32)
    ensures Fixed(w, 8) == Fixed(w / 0x1_0000, 4) + Fixed(w % 0x1_0000, 4)
  {
    hide *;
    FixedByByte(w, 6);
    FixedByByte(w / 0x100, 4);
    FixedByByte(w % 0x1_0000, 2);
    FixedByByte(w % 0x1_0000 / 0x100, 0);
    assert w / 0x100 / 0x100 == w / 0x1_0000 && w / 0x100 % 0x100 == w % 0x1_0000 / 0x100;
    assert w % 0x1_0000 % 0x100 == w % 0x100 && w % 0x1_0000 / 0x100 % 0x100 == w % 0x1_0000 / 0x100;
  }

  lemma Pow16Values()
    ensures Pow16(4) == 0x1_0000 && Pow16(8) == 0x1_0000_0000
  {
    assert Pow16(4) == 0x1_0000;
  }

  /** The padded hexadecimal forms are the bytes, most significant first. */
  lemma WordHex(v: uint16)
    ensures Padded(Hex(v), 4) == HexByte(v / 0x100) + HexByte(v % 0x100)
  {
    hide *;
    Pow16Values();
    PaddedIsFixed(v, 4);
    FixedWord(v);
  }

  lemma LongHex(w: uint32)
    ensures Padded(Hex(w), 8)
      == HexByte(w / 0x100_0000) + HexByte(w / 0x1_0000 % 0x100) + (HexByte(w / 0x100 % 0x100) + HexByte(w % 0x100))
  {
    hide *;
    Pow16Values();
    PaddedIsFixed(w, 8);
    FixedLong(w);
    FixedWord(w / 0x1_0000);
    FixedWord(w % 0x1_0000);
    assert w / 0x1_0000 / 0x100 == w / 0x100_0000;
    var hi, lo := w / 0x1_0000, w % 0x1_0000;
    assert w / 0x100 == 0x100 * hi + lo / 0x100;
    assert lo / 0x100 == w / 0x100 % 0x100 && lo % 0x100 == w % 0x100;
  }

  /** "-0000-1000-8000-00805f9b34fb" */
  const SUFFIX: string := "-0000-1000-8000-00805f9b34fb"

  /** toString */
  function Text(u: UUID): string
    requires u.Valid()
  {
    match u
    case Unset => "<NULL>"
    case U16(v) => "0000" + Padded(Hex(v), 4) + SUFFIX
    case U32(v) => Padded(Hex(v), 8) + SUFFIX
    case U128(b) => Text128(b)
  }

  /** The text from the first dash on. */
  function TextRest(b: seq<byte>): (s: string)
    requires |b| == 16
    ensures |s| == 28
  {
    "-" + HexByte(b[11]) + HexByte(b[10]) + "-" + HexByte(b[9]) + HexByte(b[8]) + "-" + HexByte(b[7]) + HexByte(b[6])
        + "-" +
    HexByte(b[5]) + HexByte(b[4]) + HexByte(b[3]) + HexByte(b[2]) + HexByte(b[1]) + HexByte(b[0])
  }

  /** Bytes as two digits each, most significant first, with the four dashes. */
  function Text128(b: seq<byte>): (s: string)
    requires |b| == 16
    ensures |s| == 36
  {
    HexByte(b[15]) + HexByte(b[14]) + (HexByte(b[13]) + HexByte(b[12])) + TextRest(b)
  }

  /** Where the digits of byte i stand in the text. */
  function At(i: nat): (at: nat)
    requires i < 16
    ensures at <= 34 && (i < 12 ==> at >= 8)
  {
    [34, 32, 30, 28, 26, 24, 21, 19, 16, 14, 11, 9, 6, 4, 2, 0][i]
  }

  lemma RestDigits(b: seq<byte>, i: nat)
    requires |b| == 16 && i < 12
    ensures TextRest(b)[At(i) - 8] == Digit(b[i] / 16) && TextRest(b)[At(i) - 7] == Digit(b[i] % 16)
  {
    hide Digit;
    match i
    case 0 => case 1 => case 2 => case 3 => case 4 => case 5 =>
    case 6 => case 7 => case 8 => case 9 => case 10 => case _ =>
  }

  lemma TextDigits(b: seq<byte>, i: nat)
    requires |b| == 16 && i < 16
    ensures Text128(b)[At(i)] == Digit(b[i] / 16) && Text128(b)[At(i) + 1] == Digit(b[i] % 16)
  {
    hide Digit, TextRest;
    if i < 12 {
      RestDigits(b, i);
    }
  }

  /** The four literal dashes of the format. */
  predicate Dashed(s: string)
    requires |s| == 36
  {
    s[8] == '-' && s[13] == '-' && s[18] == '-' && s[23] == '-'
  }

  /** sscanf with sixteen %2x fields and the dashes between them, on a string that matches them; Unset stands for the
      indeterminate bytes a string that does not match leaves behind. */
  function FromText(s: string): (u: UUID)
    requires |s| == 36
    ensures u.Valid()
  {
    if Dashed(s) && forall i | 0 <= i < 16 :: DigitValue(s[At(i)]) >= 0 && DigitValue(s[At(i) + 1]) >= 0 then
      U128(seq(16, i requires 0 <= i < 16 => (16 * DigitValue(s[At(i)]) + DigitValue(s[At(i) + 1])) % 256))
    else Unset
  }

  lemma TextDashed(b: seq<byte>)
    requires |b| == 16
    ensures Dashed(Text128(b))
  {
    hide HexByte;
    var r := TextRest(b);
    assert r[0] == '-' && r[5] == '-' && r[10] == '-' && r[15] == '-';
    hide TextRest;
  }

  lemma DigitsBack(b: seq<byte>, i: nat)
    requires |b| == 16 && i < 16
    ensures var s := Text128(b); DigitValue(s[At(i)]) == b[i] / 16 && DigitValue(s[At(i) + 1]) == b[i] % 16
  {
    hide Text128, Digit, DigitValue;
    TextDigits(b, i);
    DigitInverse(b[i] / 16);
    DigitInverse(b[i] % 16);
  }

  /** Reading the text of a 128-bit UUID gives it back. */
  lemma TextRoundTrip(b: seq<byte>)
    requires |b| == 16
    ensures FromText(Text128(b)) == U128(b)
  {
    hide Text128, DigitValue, At, Dashed;
    TextDashed(b);
    forall i | 0 <= i < 16
      ensures var s := Text128(b); DigitValue(s[At(i)]) == b[i] / 16 && DigitValue(s[At(i) + 1]) == b[i] % 16
    {
      DigitsBack(b, i);
    }
    assert FromText(Text128(b)).U128? && FromText(Text128(b)).bytes == b;
  }

  lemma BaseHex()
    ensures HexByte(0x00) == "00" && HexByte(0x10) == "10" && HexByte(0x80) == "80" && HexByte(0x5f) == "5f"
    ensures HexByte(0x9b) == "9b" && HexByte(0x34) == "34" && HexByte(0xfb) == "fb"
  {
  }

  lemma BaseText(b: seq<byte>)
    requires |b| == 16 && b[..12] == BASE
    ensures Text128(b) == HexByte(b[15]) + HexByte(b[14]) + (HexByte(b[13]) + HexByte(b[12])) + SUFFIX
  {
    hide HexByte, TextRest;
    BaseRest(b);
  }

  lemma BaseRest(b: seq<byte>)
    requires |b| == 16 && b[..12] == BASE
    ensures TextRest(b) == SUFFIX
  {
    hide HexByte;
    BaseHex();
    assert forall i | 0 <= i < 12 :: b[i] == b[..12][i];
    var s := "-" + HexByte(b[11]) + HexByte(b[10]) + "-";
    assert s == "-0000-";
    assert s + HexByte(b[9]) + HexByte(b[8]) + "-" == "-0000-1000-";
    assert "-0000-1000-" + HexByte(b[7]) + HexByte(b[6]) + "-" == "-0000-1000-8000-";
    assert "-0000-1000-8000-" + HexByte(b[5]) + HexByte(b[4]) + HexByte(b[3]) == "-0000-1000-8000-00805f";
    assert "-0000-1000-8000-00805f" + HexByte(b[2]) + HexByte(b[1]) + HexByte(b[0]) == SUFFIX;
  }

  /** All widths print as their 128-bit form does. */
  lemma TextIsFull(u: UUID)
    requires u.Valid() && !u.Unset?
    ensures Text(u) == Text128(Full(u).bytes)
  {
    hide Hex, Padded, HexByte, Text128;
    var b := Full(u).bytes;
    if u.U16? {
      BaseText(b);
      BaseHex();
      WordHex(u.v16);
    } else if u.U32? {
      BaseText(b);
      LongHex(u.v32);
    }
  }

  lemma TextInjective(a: seq<byte>, b: seq<byte>)
    requires |a| == 16 && |b| == 16 && Text128(a) == Text128(b)
    ensures a == b
  {
    TextRoundTrip(a);
    TextRoundTrip(b);
  }

  /** Any UUID survives being printed and read back, as its 128-bit form. */
  lemma PrintedReadsBack(u: UUID)
    requires u.Valid() && !u.Unset?
    ensures |Text(u)| == 36 && FromText(Text(u)) == Full(u)
  {
    TextIsFull(u);
    TextRoundTrip(Full(u).bytes);
  }

  lemma HexBytes()
    ensures HexByte(0x01) == "01" && HexByte(0x23) == "23" && HexByte(0x45) == "45" && HexByte(0x67) == "67"
    ensures HexByte(0x89) == "89" && HexByte(0xab) == "ab" && HexByte(0xcd) == "cd" && HexByte(0xef) == "ef"
    ensures HexByte(0x18) == "18" && HexByte(0x0f) == "0f"
  {
  }

  lemma Join4(a: string, b: string, c: string, d: string, abcd: string)
    requires |a| == |b| == |c| == |d| == 2 && |abcd| == 8
    requires a == abcd[..2] && b == abcd[2..4] && c == abcd[4..6] && d == abcd[6..]
    ensures a + b + (c + d) == abcd
  {
  }

  lemma ShortText()
    ensures Padded(Hex(0x180f), 4) == "180f"
    ensures Padded(Hex(0x0123_4567), 8) == "01234567" && Padded(Hex(0x89ab_cdef), 8) == "89abcdef"
  {
    hide Hex, Padded, HexByte;
    HexBytes();
    WordHex(0x180f);
    LongHex(0x0123_4567);
    LongHex(0x89ab_cdef);
    Join4("01", "23", "45", "67", "01234567");
    Join4("89", "ab", "cd", "ef", "89abcdef");
  }

  /** The text form of the standard: lower case, most significant byte first, in the Bluetooth base UUID. */
  lemma StandardText()
    ensures Text(U16(0x180f)) == "0000" + "180f" + "-0000-1000-8000-00805f9b34fb"
    ensures Text(U32(0x0123_4567)) == "01234567" + "-0000-1000-8000-00805f9b34fb"
    ensures Text(U32(0x89ab_cdef)) == "89abcdef" + "-0000-1000-8000-00805f9b34fb"
    ensures Text(Unset) == "<NULL>"
  {
    hide Hex, Padded;
    ShortText();
  }

  // ---------------------------------------------------------------- equality

  /** equals: by value at the same width, by text at different widths. */
  predicate Equals(a: UUID, b: UUID)
    requires a.Valid() && b.Valid()
  {
    if a.Unset? || b.Unset? then false
    else if a.BitSize() != b.BitSize() then Text(b) == Text(a)
    else if b.U16? then b.v16 == a.v16
    else if b.U32? then b.v32 == a.v32
    else b.bytes == a.bytes
  }

  lemma FullInjective(a: UUID, b: UUID)
    requires a.Valid() && b.Valid() && a.BitSize() == b.BitSize() && Full(a) == Full(b)
    ensures a == b
  {
    match a
    case U16(v) => LittleEndian(v, 0); LittleEndian(b.v16, 0); assert Full(a).bytes[12..14] == Le16(v)
        && Full(b).bytes[12..14] == Le16(b.v16);
    case U32(v) => LittleEndian(0, v); LittleEndian(0, b.v32); assert Full(a).bytes[12..] == Le32(v)
        && Full(b).bytes[12..] == Le32(b.v32);
    case _ =>
  }

  /** Two UUIDs are equal exactly when both are set and have the same 128-bit form. */
  lemma EqualsIsFull(a: UUID, b: UUID)
    requires a.Valid() && b.Valid()
    ensures Equals(a, b) <==> !a.Unset? && !b.Unset? && Full(a) == Full(b)
  {
    hide Text, Text128, Full;
    if !a.Unset? && !b.Unset? {
      if a.BitSize() != b.BitSize() {
        TextIsFull(a);
        TextIsFull(b);
        if Text(a) == Text(b) {
          TextInjective(Full(a).bytes, Full(b).bytes);
        }
      } else if Full(a) == Full(b) {
        FullInjective(a, b);
      }
    }
  }
}
