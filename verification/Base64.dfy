/** Base 64 (section 4 of RFC 4648) as GeneralUtils encodes and decodes it. */
module Base64 {

  import opened Machine

  const PAD: byte := 61

  /** The 64 characters of kBase64Alphabet, in order. */
  function Letter(d: nat): (c: byte)
    requires d < 64
  {
    if d < 26 then 'A' as int + d
    else if d < 52 then 'a' as int + d - 26
    else if d < 62 then '0' as int + d - 52
    else if d == 62 then '+' as int else '/' as int
  }

  /** b64_lookup */
  function Lookup(c: byte): byte {
    if 'A' as int <= c <= 'Z' as int then c - 'A' as int
    else if 'a' as int <= c <= 'z' as int then c - 71
    else if '0' as int <= c <= '9' as int then c + 4
    else if c == '+' as int then 62
    else if c == '/' as int then 63
    else 255
  }

  lemma LookupLetter(d: nat)
    requires d < 64
    ensures Lookup(Letter(d)) == d && Letter(d) != PAD
  {
  }

  /** The characters that are looked up are the letters; the others give 255. */
  lemma LookupExactly(c: byte)
    ensures Lookup(c) < 64 ==> Letter(Lookup(c)) == c
    ensures Lookup(c) >= 64 ==> Lookup(c) == 255 && forall d: nat | d < 64 :: Letter(d) != c
  {
  }

  const ALPHABET: seq<string> := ["ABCDEFGHIJKLMNOP", "QRSTUVWXYZabcdef", "ghijklmnopqrstuv", "wxyz0123456789+/"]

  /** The alphabet and the padding character are those of table 1 in section 4 of RFC 4648. */
  lemma StandardAlphabet(d: nat)
    requires d < 64
    ensures |ALPHABET[d / 16]| == 16 && Letter(d) == ALPHABET[d / 16][d % 16] as int && PAD == '=' as int
  {
    var k := d % 16;
    match d / 16 {
      case 0 => assert d == k;
      case 1 => assert d == k + 16;
      case 2 => assert d == k + 32;
      case _ => assert d == k + 48;
    }
  }

  // ---------------------------------------------------------------- groups of 24 bits

  function Group(a: byte, b: byte, c: byte): (n: nat)
    ensures n < 0x100_0000
  {
    0x1_0000 * a as int + 0x100 * b as int + c as int
  }

  /** The k-th of the four 6-bit groups of a 24-bit group. */
  function Sextet(n: nat, k: nat): (d: nat)
    requires k < 4
    ensures d < 64
  {
    if k == 0 then n / 0x4_0000 % 64 else if k == 1 then n / 0x1000 % 64 else if k == 2 then n / 64 % 64 else n % 64
  }

  method A3ToA4(a4: array<byte>, a3: array<byte>)
    requires a4.Length == 4 && a3.Length == 3 && a3 != a4
    modifies a4
    ensures forall k | 0 <= k < 4 :: a4[k] == Sextet(Group(a3[0], a3[1], a3[2]), k)
  {
    SextetsOf(a3[0], a3[1], a3[2]);
    a4[0] := a3[0] / 4;
    a4[1] := a3[0] % 4 * 16 + a3[1] / 16;
    a4[2] := a3[1] % 16 * 4 + a3[2] / 64;
    a4[3] := a3[2] % 64;
  }

  lemma SextetsOf(a: byte, b: byte, c: byte)
    ensures var n := Group(a, b, c);
      && Sextet(n, 0) == a / 4 && Sextet(n, 1) == a % 4 * 16 + b / 16
      && Sextet(n, 2) == b % 16 * 4 + c / 64 && Sextet(n, 3) == c % 64
  {
    var n := Group(a, b, c);
    var ah: nat, al: nat, bh: nat, bl: nat, ch: nat, cl: nat := a / 4, a % 4, b / 16, b % 16, c / 64, c % 64;
    assert a == 4 * ah + al && b == 16 * bh + bl && c == 64 * ch + cl;
    DivUnique(n, 0x4_0000, ah);
    DivUnique(n, 0x1000, 64 * ah + 16 * al + bh);
    DivUnique(64 * ah + 16 * al + bh, 64, ah);
    DivUnique(n, 64, 64 * (64 * ah + 16 * al + bh) + 4 * bl + ch);
    DivUnique(64 * (64 * ah + 16 * al + bh) + 4 * bl + ch, 64, 64 * ah + 16 * al + bh);
  }

  /** The three bytes of four looked-up characters, 255 standing for a character that is missing. */
  function Triple(w: byte, x: byte, y: byte, z: byte): (t: seq<byte>)
    ensures |t| == 3
  {
    [(w as int * 4 + x as int / 16 % 4) % 256,
     x as int % 16 * 16 + y as int / 4 % 16,
     (y as int % 4 * 64 + z as int) % 256]
  }

  method A4ToA3(a3: array<byte>, a4: array<byte>)
    requires a4.Length == 4 && a3.Length == 3 && a3 != a4
    modifies a3
    ensures a3[..] == Triple(a4[0], a4[1], a4[2], a4[3])
  {
    var w, x, y, z := a4[0], a4[1], a4[2], a4[3];
    a3[0] := (w as int * 4 + x as int / 16 % 4) % 256;
    a3[1] := x as int % 16 * 16 + y as int / 4 % 16;
    a3[2] := (y as int % 4 * 64 + z as int) % 256;
  }

  /** Splitting into 6-bit groups and joining them again gives the bytes back; a missing last group only
      touches the last byte, and two missing groups the last two. */
  lemma TripleBack(a: byte, b: byte, c: byte)
    ensures var n := Group(a, b, c);
      && Triple(Sextet(n, 0), Sextet(n, 1), Sextet(n, 2), Sextet(n, 3)) == [a, b, c]
      && Triple(Sextet(n, 0), Sextet(n, 1), Sextet(n, 2), 255)[..2] == [a, b]
      && Triple(Sextet(n, 0), Sextet(n, 1), 255, 255)[..1] == [a]
  {
    hide Sextet, Group;
    SextetsOf(a, b, c);
    var al: nat, bh: nat, bl: nat, ch: nat, cl: nat := a % 4, b / 16, b % 16, c / 64, c % 64;
    DivUnique(al * 16 + bh, 16, al);
    DivUnique(bl * 4 + ch, 4, bl);
    DivUnique(4 * (a / 4) + al, 256, 0);
    DivUnique(64 * ch + cl, 256, 0);
    assert a == 4 * (a / 4) + al && b == 16 * bh + bl && c == 64 * ch + cl;
  }

  // ---------------------------------------------------------------- the encoding

  function Quad(a: byte, b: byte, c: byte): (q: seq<byte>)
    ensures |q| == 4
  {
    var n := Group(a, b, c);
    [Letter(Sextet(n, 0)), Letter(Sextet(n, 1)), Letter(Sextet(n, 2)), Letter(Sextet(n, 3))]
  }

  /** The numbers of the four letters are the digits, in base 64, of the three bytes read as one number, the first byte
      the most significant. */
  lemma QuadValue(a: byte, b: byte, c: byte)
    ensures var q := Quad(a, b, c);
      Lookup(q[0]) as int * 0x4_0000 + Lookup(q[1]) as int * 0x1000 + Lookup(q[2]) as int * 0x40 + Lookup(q[3]) as int
      == a as int * 0x1_0000 + b as int * 0x100 + c as int
  {
    hide Letter, Lookup, Sextet;
    var n := Group(a, b, c);
    LookupLetter(Sextet(n, 0));
    LookupLetter(Sextet(n, 1));
    LookupLetter(Sextet(n, 2));
    LookupLetter(Sextet(n, 3));
    SextetsOf(a, b, c);
    BytesSplit(a, b, c);
  }

  lemma BytesSplit(a: byte, b: byte, c: byte)
    ensures a == 4 * (a / 4) + a % 4 && b == 16 * (b / 16) + b % 16 && c == 64 * (c / 64) + c % 64
  {
  }

  lemma QuadOf(a: byte, b: byte, c: byte)
    ensures Quad(a, b, c) == [Letter(a / 4), Letter(a % 4 * 16 + b / 16), Letter(b % 16 * 4 + c / 64), Letter(c % 64)]
  {
    hide Letter, Sextet, Group;
    SextetsOf(a, b, c);
  }

  lemma QuadVectors()
    ensures Quad(102, 111, 111) == [90, 109, 57, 118] && Quad(98, 0, 0)[..2] == [89, 103]
    ensures Quad(102, 0, 0)[..2] == [90, 103] && Quad(102, 111, 0)[..3] == [90, 109, 56]
  {
    hide Quad;
    QuadOf(102, 111, 111);
    QuadOf(98, 0, 0);
    QuadOf(102, 0, 0);
    QuadOf(102, 111, 0);
  }

  /** The test vectors of section 10 of RFC 4648, up to four letters. */
  lemma StandardVectors()
    ensures Encoded([]) == []
    ensures Encoded([102]) == [90, 103, 61, 61]
    ensures Encoded([102, 111]) == [90, 109, 56, 61]
    ensures Encoded([102, 111, 111]) == [90, 109, 57, 118]
    ensures Encoded([102, 111, 111, 98]) == [90, 109, 57, 118, 89, 103, 61, 61]
  {
    hide Quad;
    QuadVectors();
    var foo: seq<byte>, foob: seq<byte> := [102, 111, 111], [102, 111, 111, 98];
    assert foo[3..] == [] && foob[3..] == [98];
    assert Unpadded(foob) == [90, 109, 57, 118] + [89, 103];
  }

  /** The encoding without its padding. */
  function Unpadded(s: seq<byte>): seq<byte> {
    if |s| == 0 then [] else if |s| == 1 then Quad(s[0], 0, 0)[..2] else if |s| == 2 then Quad(s[0], s[1], 0)[..3]
    else Quad(s[0], s[1], s[2]) + Unpadded(s[3..])
  }

  function Padding(n: nat): (p: seq<byte>)
    ensures |p| < 3
  {
    if n % 3 == 0 then [] else if n % 3 == 1 then [PAD, PAD] else [PAD]
  }

  function Encoded(s: seq<byte>): seq<byte> {
    Unpadded(s) + Padding(|s|)
  }

  lemma SamePadding(n: nat, m: nat, g: nat)
    requires n == m + 3 * g
    ensures Padding(n) == Padding(m)
  {
    DivUnique(n, 3, m / 3 + g);
    DivUnique(m, 3, m / 3);
  }

  /** base64EncodedLength */
  function EncodedLength(n: nat): nat {
    (n + 2 - (n + 2) % 3) / 3 * 4
  }

  /** Four characters for each group of three bytes begun. */
  lemma LengthOfGroups(n: nat, g: nat)
    requires 3 * g <= n
    ensures n == 3 * g ==> EncodedLength(n) == 4 * g
    ensures 0 < n - 3 * g <= 3 ==> EncodedLength(n) == 4 * g + 4
    ensures n - 3 * g >= 3 ==> EncodedLength(n) >= 4 * g + 4
  {
    var q := (n + 2) / 3;
    assert n + 2 - (n + 2) % 3 == 3 * q && 3 * q / 3 == q;
  }

  lemma {:induction false} UnpaddedSize(s: seq<byte>)
    ensures |Encoded(s)| == EncodedLength(|s|)
  {
    hide Quad, EncodedLength;
    LengthOfGroups(|s|, 0);
    if |s| >= 3 {
      UnpaddedSize(s[3..]);
      SamePadding(|s|, |s| - 3, 1);
      LengthMore(|s| - 3);
    }
  }

  lemma LengthMore(n: nat)
    ensures EncodedLength(n + 3) == EncodedLength(n) + 4
  {
    DivUnique(n + 5, 3, (n + 2) / 3 + 1);
  }

  /** a3_to_a4 and the loops that print the first n of its groups. */
  method WriteGroup(out: array<byte>, from: nat, a4: array<byte>, a3: array<byte>, n: nat)
    requires n <= 4 == a4.Length && a3.Length == 3 && from + n <= out.Length && out != a4 && out != a3 && a3 != a4
    modifies out, a4
    ensures out[..from] == old(out[..from])
    ensures out[from..from + n] == Quad(a3[0], a3[1], a3[2])[..n]
  {
    hide Letter, Sextet;
    A3ToA4(a4, a3);
    var j := 0;
    while j < n
      invariant 0 <= j <= n && out[..from] == old(out[..from])
      invariant forall k | 0 <= k < 4 :: a4[k] == Sextet(Group(a3[0], a3[1], a3[2]), k)
      invariant forall k | 0 <= k < j :: out[from + k] == Letter(a4[k])
    {
      out[from + j] := Letter(a4[j]);
      j := j + 1;
    }
  }

  /** Prints a full group; what is printed and what is left to print still make up u. */
  method EncodeGroup(out: array<byte>, from: nat, a4: array<byte>, a3: array<byte>, ghost u: seq<byte>,
      ghost rest: seq<byte>)
    requires a4.Length == 4 && a3.Length == 3 && from + 4 <= out.Length && out != a4 && out != a3 && a3 != a4
    requires |rest| >= 3 && a3[0] == rest[0] && a3[1] == rest[1] && a3[2] == rest[2]
    requires u == out[..from] + Unpadded(rest)
    modifies out, a4
    ensures u == out[..from + 4] + Unpadded(rest[3..])
  {
    hide *;
    UnpaddedFront(u, out[..from], rest);
    WriteGroup(out, from, a4, a3, 4);
    assert out[..from + 4] == out[..from] + out[from..from + 4];
  }

  /** What remains after the last full group: one or two bytes, with the padding. */
  method EncodeTail(out: array<byte>, from: nat, a4: array<byte>, a3: array<byte>, count: nat, ghost tail: seq<byte>)
    returns (encLen: nat)
    requires 1 <= |tail| <= 2 && count == |tail| && a3.Length == 3 && a3[..|tail|] == tail
    requires a4.Length == 4 && from + 4 == out.Length && out != a4 && out != a3 && a3 != a4
    modifies out, a4, a3
    ensures encLen == out.Length && out[..] == old(out[..from]) + Encoded(tail)
  {
    hide Quad;
    var i, j := count, count;
    while j < 3
      invariant i <= j <= 3 && a3[..i] == tail && out[..from] == old(out[..from])
      invariant forall k | i <= k < j :: a3[k] == 0
    {
      a3[j] := 0;
      j := j + 1;
    }
    assert a3[0] == a3[..i][0] && (i == 2 ==> a3[1] == a3[..i][1]);
    WriteGroup(out, from, a4, a3, i + 1);
    encLen := from + i + 1;
    assert out[from..encLen] == Unpadded(tail);
    while i < 3
      invariant 0 < i <= 3 && encLen == from + 1 + (if i < 3 then i else 3) && |tail| <= i
      invariant out[..from] == old(out[..from]) && out[from..from + |tail| + 1] == Unpadded(tail)
      invariant forall k | from + |tail| + 1 <= k < encLen :: out[k] == PAD
    {
      i := i + 1;
      out[encLen] := PAD;
      encLen := encLen + 1;
    }
    assert out[..] == out[..from] + out[from..from + |tail| + 1] + out[from + |tail| + 1..];
    ghost var rest := out[from + |tail| + 1..];
    assert |rest| == 3 - |tail| && forall k | 0 <= k < |rest| :: rest[k] == PAD;
    assert rest == Padding(|tail|);
  }

  lemma UnpaddedFront(u: seq<byte>, before: seq<byte>, s: seq<byte>)
    requires |s| >= 3 && u == before + Unpadded(s)
    ensures u == before + Quad(s[0], s[1], s[2]) + Unpadded(s[3..])
  {
    hide Quad;
    assert Unpadded(s) == Quad(s[0], s[1], s[2]) + Unpadded(s[3..]);
  }

  lemma NothingEncoded()
    ensures Encoded([]) == []
  {
  }

  lemma EncodedIs(s: seq<byte>)
    ensures Encoded(s) == Unpadded(s) + Padding(|s|)
  {
  }

  lemma EncodedParts(s: seq<byte>, g: nat, before: seq<byte>)
    requires 3 * g <= |s| && Unpadded(s) == before + Unpadded(s[3 * g..])
    ensures Encoded(s) == before + Encoded(s[3 * g..])
  {
    hide *;
    var rest := s[3 * g..];
    EncodedIs(s);
    EncodedIs(rest);
    SamePadding(|s|, |rest|, g);
    ConcatAssoc(before, Unpadded(rest), Padding(|s|));
  }

  /** Writes exactly the allocated characters, and they are the encoding of the input. */
  method Base64Encode(input: seq<byte>) returns (ok: bool, out: array<byte>)
    ensures fresh(out) && ok && out.Length == EncodedLength(|input|) && out[..] == Encoded(input)
  {
    hide *;
    var i, encLen, at := 0, 0, 0;
    var a3, a4 := new byte[3](_ => 0), new byte[4](_ => 0);
    out := new byte[EncodedLength(|input|)](_ => 0);
    var inputLen := |input|;
    ghost var groups := 0;
    assert input[0..] == input;
    LengthOfGroups(|input|, 0);
    while inputLen > 0
      invariant 0 <= inputLen && 0 <= i < 3 && at == 3 * groups + i && at + inputLen == |input| && groups >= 0
      invariant encLen == 4 * groups <= out.Length
      invariant (i > 0 ==> a3[0] == input[3 * groups]) && (i > 1 ==> a3[1] == input[3 * groups + 1])
      invariant Unpadded(input) == out[..encLen] + Unpadded(input[3 * groups..])
    {
      inputLen := inputLen - 1;
      a3[i] := input[at];
      i, at := i + 1, at + 1;
      if i == 3 {
        LengthOfGroups(|input|, groups);
        EncodeGroup(out, encLen, a4, a3, Unpadded(input), input[3 * groups..]);
        assert input[3 * groups..][3..] == input[3 * (groups + 1)..];
        groups := groups + 1;
        encLen := encLen + 4;
        i := 0;
      }
    }
    LengthOfGroups(|input|, groups);
    EncodedParts(input, groups, out[..encLen]);
    NothingEncoded();
    if i != 0 {
      encLen := EncodeTail(out, encLen, a4, a3, i, input[3 * groups..]);
    }
    ok := encLen == out.Length;
  }

  // ---------------------------------------------------------------- decoding

  /** The characters before the first padding character. */
  function Body(s: seq<byte>): seq<byte> {
    if s == [] || s[0] == PAD then [] else [s[0]] + Body(s[1..])
  }

  lemma {:induction false} BodyIs(s: seq<byte>)
    ensures var b := Body(s); b <= s && PAD !in b && (|b| < |s| ==> s[|b|] == PAD)
  {
    if s != [] && s[0] != PAD {
      BodyIs(s[1..]);
    }
  }

  function Trailing(s: seq<byte>): (n: nat)
    ensures n <= |s| && (n == |s| || s[|s| - n - 1] != PAD)
  {
    if s == [] || s[|s| - 1] != PAD then 0 else Trailing(s[..|s| - 1]) + 1
  }

  function DecodedLengthOf(s: seq<byte>): int {
    6 * |s| / 8 - Trailing(s)
  }

  function Looked(s: seq<byte>): (t: seq<byte>)
    requires 0 < |s| <= 4
    ensures |t| == 3
  {
    Triple(Lookup(s[0]), if |s| > 1 then Lookup(s[1]) else 255, if |s| > 2 then Lookup(s[2]) else 255,
           if |s| > 3 then Lookup(s[3]) else 255)
  }

  /** What unpadded characters decode to. */
  function Decoded(s: seq<byte>): seq<byte> {
    if |s| >= 4 then Looked(s[..4]) + Decoded(s[4..])
    else if |s| == 0 then []
    else Looked(s)[..|s| - 1]
  }

  /** Inputs on which the decoder neither reads in front of its input nor writes behind its output. */
  predicate InBounds(s: seq<byte>) {
    Trailing(s) < |s| && |Decoded(Body(s))| <= DecodedLengthOf(s)
  }

  method DecodedLength(input: seq<byte>) returns (length: int)
    requires Trailing(input) < |input|
    ensures length == DecodedLengthOf(input)
  {
    var numEq, it := 0, |input| - 1;
    assert input[..it + 1] == input;
    while input[it] == PAD
      invariant 0 <= it < |input| && numEq == |input| - 1 - it
      invariant Trailing(input) == numEq + Trailing(input[..it + 1])
      decreases it
    {
      assert input[..it + 1][..it] == input[..it];
      numEq, it := numEq + 1, it - 1;
    }
    return 6 * |input| / 8 - numEq;
  }

  /** Looks the first count characters up, the others as missing, and writes the first n bytes of the result. */
  method WriteBytes(out: array<byte>, from: nat, a3: array<byte>, a4: array<byte>, ghost s: seq<byte>, n: nat)
    requires 0 < |s| <= 4 == a4.Length && a3.Length == 3 && out != a4 && out != a3 && a3 != a4
    requires forall k | 0 <= k < 4 :: a4[k] == if k < |s| then s[k] else 0
    requires n <= 3 && from + n <= out.Length
    modifies out, a3, a4
    ensures out[..from] == old(out[..from]) && out[from..from + n] == Looked(s)[..n]
  {
    hide Triple;
    var j := 0;
    while j < 4
      invariant 0 <= j <= 4 && out[..from] == old(out[..from])
      invariant forall k | 0 <= k < 4 :: a4[k] == if k >= j then old(a4[k]) else Lookup(old(a4[k]))
    {
      a4[j] := Lookup(a4[j]);
      j := j + 1;
    }
    A4ToA3(a3, a4);
    assert a3[..] == Looked(s);
    j := 0;
    while j < n
      invariant 0 <= j <= n && out[..from] == old(out[..from])
      invariant a3[..] == Looked(s) && forall k | 0 <= k < j :: out[from + k] == a3[..][k]
    {
      out[from + j] := a3[j];
      j := j + 1;
    }
  }

  lemma DecodedSize(s: seq<byte>)
    ensures |s| >= 4 ==> |Decoded(s)| == 3 + |Decoded(s[4..])|
    ensures 0 < |s| < 4 ==> |Decoded(s)| == |s| - 1
    ensures |s| == 0 ==> Decoded(s) == []
  {
    hide Looked;
  }

  lemma DecodedFront(u: seq<byte>, before: seq<byte>, s: seq<byte>)
    requires |s| >= 4 && u == before + Decoded(s)
    ensures u == before + Looked(s[..4]) + Decoded(s[4..])
  {
    hide Looked;
    ConcatAssoc(before, Looked(s[..4]), Decoded(s[4..]));
  }

  method DecodeGroup(out: array<byte>, from: nat, a3: array<byte>, a4: array<byte>, ghost u: seq<byte>,
      ghost rest: seq<byte>)
    requires a4.Length == 4 && a3.Length == 3 && from + 3 <= out.Length && out != a4 && out != a3 && a3 != a4
    requires |rest| >= 4 && forall k | 0 <= k < 4 :: a4[k] == rest[k]
    requires u == out[..from] + Decoded(rest)
    modifies out, a3, a4
    ensures u == out[..from + 3] + Decoded(rest[4..])
  {
    hide *;
    DecodedFront(u, out[..from], rest);
    WriteBytes(out, from, a3, a4, rest[..4], 3);
    assert out[..from + 3] == out[..from] + out[from..from + 3];
  }

  method DecodeTail(out: array<byte>, from: nat, a3: array<byte>, a4: array<byte>, count: nat, ghost tail: seq<byte>)
    returns (decLen: nat)
    requires 1 <= |tail| < 4 == a4.Length && count == |tail| && a3.Length == 3 && out != a4 && out != a3 && a3 != a4
    requires forall k | 0 <= k < count :: a4[k] == tail[k]
    requires from + |tail| - 1 <= out.Length
    modifies out, a3, a4
    ensures decLen == from + |tail| - 1 && out[..decLen] == old(out[..from]) + Decoded(tail)
  {
    hide Looked;
    var j := count;
    while j < 4
      invariant count <= j <= 4 && out[..from] == old(out[..from])
      invariant forall k | 0 <= k < j :: a4[k] == if k < count then tail[k] else 0
    {
      a4[j] := 0;
      j := j + 1;
    }
    WriteBytes(out, from, a3, a4, tail, count - 1);
    decLen := from + count - 1;
    assert out[..decLen] == out[..from] + out[from..decLen];
  }

  /** The next character ends the body or is its next character. */
  lemma AtBody(s: seq<byte>, at: nat, i: nat)
    requires i <= at <= |Body(s)|
    ensures at < |s| ==> (s[at] == PAD <==> at == |Body(s)|) && (at < |Body(s)| ==> Body(s)[at - i..][i] == s[at])
    ensures |Body(s)| <= |s|
  {
    BodyIs(s);
    assert at < |Body(s)| ==> s[at] in Body(s);
  }

  /** Decodes the characters in front of the padding; true exactly when they fill the length computed up front. */
  method Base64Decode(input: seq<byte>) returns (ok: bool, out: array<byte>)
    requires InBounds(input)
    ensures fresh(out) && out.Length == DecodedLengthOf(input)
    ensures var d := Decoded(Body(input)); out[..|d|] == d && (ok <==> |d| == out.Length)
  {
    hide Looked, DecodedLengthOf, Trailing, Body, Decoded, Lookup;
    var i, decLen, at := 0, 0, 0;
    var a3, a4 := new byte[3](_ => 0), new byte[4](_ => 0);
    var inputLen := |input|;
    var length := DecodedLength(input);
    out := new byte[length](_ => 0);
    ghost var d, body, rest := Decoded(Body(input)), Body(input), Body(input);
    assert body[0..] == body;
    AtBody(input, 0, 0);
    while inputLen > 0
      invariant 0 <= inputLen && 0 <= i < 4 && i <= at && at + inputLen == |input| && at <= |body|
        && rest == body[at - i..]
      invariant (i > 0 ==> a4[0] == rest[0]) && (i > 1 ==> a4[1] == rest[1]) && (i > 2 ==> a4[2] == rest[2])
      invariant decLen + |Decoded(rest)| <= out.Length && d == out[..decLen] + Decoded(rest)
    {
      inputLen := inputLen - 1;
      AtBody(input, at, i);
      if input[at] == PAD {
        break;
      }
      a4[i] := input[at];
      i, at := i + 1, at + 1;
      if i == 4 {
        DecodedSize(rest);
        DecodeGroup(out, decLen, a3, a4, d, rest);
        rest := rest[4..];
        decLen := decLen + 3;
        i := 0;
      }
    }
    DecodedSize(rest);
    if i != 0 {
      decLen := DecodeTail(out, decLen, a3, a4, i, rest);
    }
    ok := decLen == out.Length;
  }

  // ---------------------------------------------------------------- round trip

  lemma LookedBack(a: byte, b: byte, c: byte)
    ensures Looked(Quad(a, b, c)) == [a, b, c]
    ensures Looked(Quad(a, b, 0)[..3])[..2] == [a, b]
    ensures Looked(Quad(a, 0, 0)[..2])[..1] == [a]
    ensures PAD !in Quad(a, b, c)
  {
    hide Triple, Sextet, Letter, Lookup;
    TripleBack(a, b, c);
    TripleBack(a, b, 0);
    TripleBack(a, 0, 0);
    forall n: nat, k: nat | k < 4
      ensures Lookup(Letter(Sextet(n, k))) == Sextet(n, k) && Letter(Sextet(n, k)) != PAD
    {
      LookupLetter(Sextet(n, k));
    }
  }

  /** Decoding undoes encoding. */
  lemma {:induction false} DecodedUnpadded(s: seq<byte>)
    ensures Decoded(Unpadded(s)) == s && PAD !in Unpadded(s)
  {
    hide Quad, Looked;
    if |s| == 1 {
      LookedBack(s[0], 0, 0);
    } else if |s| == 2 {
      LookedBack(s[0], s[1], 0);
    } else if |s| >= 3 {
      LookedBack(s[0], s[1], s[2]);
      DecodedUnpadded(s[3..]);
      assert Unpadded(s)[..4] == Quad(s[0], s[1], s[2]) && Unpadded(s)[4..] == Unpadded(s[3..]);
    }
  }

  lemma {:induction false} BodyOf(u: seq<byte>, p: seq<byte>)
    requires PAD !in u && (p != [] ==> p[0] == PAD)
    ensures Body(u + p) == u
  {
    if u == [] {
      assert u + p == p;
    } else {
      assert (u + p)[1..] == u[1..] + p;
      BodyOf(u[1..], p);
    }
  }

  lemma {:induction false} TrailingOf(u: seq<byte>, p: seq<byte>)
    requires PAD !in u && forall i | 0 <= i < |p| :: p[i] == PAD
    ensures Trailing(u + p) == |p|
  {
    if p == [] {
      assert u + p == u;
    } else {
      assert (u + p)[..|u + p| - 1] == u + p[..|p| - 1];
      TrailingOf(u, p[..|p| - 1]);
    }
  }

  /** Three quarters of the encoded length, less the padding, is the length. */
  lemma LengthOfSextets(n: nat)
    ensures 6 * EncodedLength(n) / 8 - |Padding(n)| == n
  {
    LengthOfGroups(n, n / 3);
  }

  /** The decoder may be called on the encoding of any non-empty string, computes its length exactly and
      therefore returns true with the original bytes. */
  lemma Base64RoundTrip(s: seq<byte>)
    requires s != []
    ensures var e := Encoded(s);
      && InBounds(e) && |e| == EncodedLength(|s|)
      && DecodedLengthOf(e) == |s| && Decoded(Body(e)) == s
  {
    hide Decoded, Unpadded, Body, Trailing;
    UnpaddedSize(s);
    LengthOfSextets(|s|);
    DecodedUnpadded(s);
    BodyOf(Unpadded(s), Padding(|s|));
    TrailingOf(Unpadded(s), Padding(|s|));
  }

  /** The encoding of the empty string is the one encoding the decoder may not be called on. */
  lemma InBoundsExactly(s: seq<byte>)
    ensures InBounds(Encoded(s)) <==> s != []
  {
    if s != [] {
      Base64RoundTrip(s);
    }
  }
}
