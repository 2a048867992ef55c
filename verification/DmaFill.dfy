/** The DMA branches of writeColor and writePixels in Adafruit_SPITFT: the fill cache and the
    chained transfer descriptors. The DMA engine is a function that walks a chain and yields the
    bytes it puts on the wire. */
module DmaFill {

  import opened Machine

  function Hi(c: uint16): byte {
    c / 256
  }

  function Lo(c: uint16): byte {
    c % 256
  }

  /** __builtin_bswap16 */
  function Bswap(c: uint16): (r: uint16)
    ensures Lo(r) == Hi(c) && Hi(r) == Lo(c)
  {
    Lo(c) * 256 + Hi(c)
  }

  /** The bytes of an array of 16-bit words in (little-endian) memory order. */
  function Bytes(words: seq<uint16>): (b: seq<byte>)
    ensures |b| == 2 * |words|
  {
    seq(2 * |words|, k requires 0 <= k < 2 * |words| => if k % 2 == 0 then Lo(words[k / 2]) else Hi(words[k / 2]))
  }

  /** n pixels of one colour as the display expects them: high byte first. */
  function Solid(c: uint16, n: nat): (b: seq<byte>)
    ensures |b| == 2 * n
  {
    seq(2 * n, k requires 0 <= k < 2 * n => if k % 2 == 0 then Hi(c) else Lo(c))
  }

  lemma SameParity(even: nat, k: nat)
    requires even % 2 == 0
    ensures (even + k) % 2 == k % 2
  {
  }

  lemma SolidJoin(c: uint16, m: nat, n: nat)
    ensures Solid(c, m) + Solid(c, n) == Solid(c, m + n)
  {
    hide Hi, Lo;
    var a, b := Solid(c, m) + Solid(c, n), Solid(c, m + n);
    forall k | 0 <= k < |b| ensures a[k] == b[k] {
      if k >= 2 * m {
        SameParity(2 * m, k - 2 * m);
      }
    }
  }

  /** Every word byte-swapped. */
  function Swapped(words: seq<uint16>): (r: seq<uint16>)
    ensures |r| == |words|
  {
    seq(|words|, i requires 0 <= i < |words| => Bswap(words[i]))
  }

  lemma SwappedJoin(a: seq<uint16>, b: seq<uint16>)
    ensures Bytes(Swapped(a + b)) == Bytes(Swapped(a)) + Bytes(Swapped(b))
  {
    hide Bswap, Hi, Lo;
    var x, y := Bytes(Swapped(a + b)), Bytes(Swapped(a)) + Bytes(Swapped(b));
    forall k | 0 <= k < |x| ensures x[k] == y[k] {
      if k >= 2 * |a| {
        assert (k - 2 * |a|) % 2 == k % 2 && (k - 2 * |a|) / 2 == k / 2 - |a|;
      }
    }
  }

  /** Either way each pixel goes out with its high byte first. */
  lemma HighByteFirst(words: seq<uint16>, c: uint16, n: nat, i: nat)
    ensures i < |words| ==>
      Bytes(Swapped(words))[2 * i] == words[i] / 256 && Bytes(Swapped(words))[2 * i + 1] == words[i] % 256
    ensures i < n ==> Solid(c, n)[2 * i] == c / 256 && Solid(c, n)[2 * i + 1] == c % 256
    ensures i < |words| ==> Bytes(words)[2 * i] == words[i] % 256 && Bytes(words)[2 * i + 1] == words[i] / 256
  {
    assert 2 * i % 2 == 0 && (2 * i + 1) % 2 == 1 && 2 * i / 2 == i && (2 * i + 1) / 2 == i;
  }

  lemma SwappedNone()
    ensures Bytes(Swapped([])) == []
  {
  }

  lemma HalfBytes(words: seq<uint16>, start: nat, part: seq<uint16>)
    requires start + |part| <= |words| && words[start..start + |part|] == part
    ensures Bytes(words)[2 * start..2 * (start + |part|)] == Bytes(part)
  {
    var x, y := Bytes(words)[2 * start..2 * (start + |part|)], Bytes(part);
    forall k | 0 <= k < |y| ensures x[k] == y[k] {
      assert (2 * start + k) % 2 == k % 2 && (2 * start + k) / 2 == start + k / 2;
      assert words[start + k / 2] == part[k / 2];
    }
  }

  // ---------------------------------------------------------------- descriptors

  /** Memory a descriptor can point into. */
  datatype Region = FillBuffer | OnePixel | Caller

  /** SRCADDR (one past the end when the source address increments), BTCTRL.SRCINC, BTCNT and DESCADDR. */
  datatype Descriptor = Descriptor(region: Region, src: nat, srcInc: bool, count: nat, next: int)

  const NONE := -1

  /** What BTCNT, a 16-bit register, keeps of a byte count. */
  function Beats(bytes: nat): (count: nat)
    ensures count <= bytes && (bytes < 0x1_0000 ==> count == bytes)
    ensures 0x1_0000 <= bytes < 0x2_0000 ==> count == bytes - 0x1_0000
  {
    bytes % 0x1_0000
  }

  /** The memory the engine reads: the fill buffer, onePixelBuf, and the caller's pixels. */
  datatype Memory = Memory(fill: seq<byte>, one: byte, caller: seq<byte>) {
    function At(r: Region): seq<byte> {
      match r
      case FillBuffer => fill
      case OnePixel => [one]
      case Caller => caller
    }
  }

  /** What the engine sends for one descriptor. */
  function Sent(mem: Memory, d: Descriptor): seq<byte> {
    var bytes := mem.At(d.region);
    if d.srcInc then
      if d.count <= d.src <= |bytes| then bytes[d.src - d.count..d.src] else []
    else
      if d.src < |bytes| then seq(d.count, _ => bytes[d.src]) else []
  }

  /** What the engine sends for the chain that starts with d, a copy of descs[at]. */
  function Walk(mem: Memory, descs: seq<Descriptor>, d: Descriptor, at: nat): seq<byte>
    requires at <= |descs|
    decreases |descs| - at
  {
    Sent(mem, d) + if at < d.next < |descs| then Walk(mem, descs, descs[d.next], d.next) else []
  }

  // ---------------------------------------------------------------- splitting a length into chunks

  /** Pixels left after i chunks of at most max. */
  function Left(len: nat, max: nat, i: nat): (l: nat)
    ensures l <= len
  {
    if i == 0 then len else var l := Left(len, max, i - 1); l - (if l < max then l else max)
  }

  function Chunk(len: nat, max: nat, i: nat): nat {
    var l := Left(len, max, i);
    if l < max then l else max
  }

  /** The number of descriptors the drivers compute. */
  function ChunkCount(len: nat, max: nat): nat
    requires max > 0
  {
    (len + max - 1) / max
  }

  lemma {:induction false} LeftClosed(len: nat, max: nat, i: nat)
    ensures Left(len, max, i) == if i * max < len then len - i * max else 0
  {
    if i > 0 {
      LeftClosed(len, max, i - 1);
      assert i * max == (i - 1) * max + max;
    }
  }

  lemma CeilBounds(len: nat, max: nat)
    requires max > 0 && len > 0
    ensures var n := ChunkCount(len, max); n >= 1 && (n - 1) * max < len <= n * max
  {
    var a := len + max - 1;
    var n := a / max;
    assert n * max <= a < n * max + max;
    assert (n - 1) * max == n * max - max;
  }

  /** The chunk count is exactly the number of non-empty chunks. */
  lemma ChunksExact(len: nat, max: nat, i: nat)
    requires max > 0 && len > 0
    ensures Left(len, max, i) > 0 <==> i < ChunkCount(len, max)
  {
    LeftClosed(len, max, i);
    CeilBounds(len, max);
    var n := ChunkCount(len, max);
    hide ChunkCount, Left;
    if i < n {
      MulMonotone(i, n - 1, max);
    } else {
      MulMonotone(n, i, max);
    }
  }

  /** Shorter lengths in larger chunks never need more descriptors. */
  lemma ChunkCountMonotone(len: nat, max: nat, len': nat, max': nat)
    requires 0 < max <= max' && 0 < len' <= len
    ensures 1 <= ChunkCount(len', max') <= ChunkCount(len, max)
  {
    ChunksExact(len', max', 0);
    var n, n' := ChunkCount(len, max), ChunkCount(len', max');
    if n < n' {
      ChunksExact(len, max, n);
      ChunksExact(len', max', n);
      LeftClosed(len, max, n);
      LeftClosed(len', max', n);
      MulMonotone(max, max', n);
    }
  }

  // ---------------------------------------------------------------- chains

  /** Descriptor i of a chain of n that sends count pixels per chunk. */
  datatype Kind = Fixed | Cached | Streamed

  function Link(kind: Kind, len: nat, max: nat, i: nat, next: int): Descriptor {
    var bytes := 2 * Chunk(len, max, i);
    match kind
    case Fixed => Descriptor(OnePixel, 0, false, Beats(bytes), next)
    case Cached => Descriptor(FillBuffer, bytes, true, Beats(bytes), next)
    case Streamed => Descriptor(Caller, 2 * (len - Left(len, max, i)) + bytes, true, Beats(bytes), next)
  }

  /** descs starts with the finished chain for len pixels. */
  ghost predicate IsChain(descs: seq<Descriptor>, kind: Kind, len: nat, max: nat)
    requires max > 0
  {
    var n := ChunkCount(len, max);
    && n <= |descs|
    && forall i | 0 <= i < n :: descs[i] == Link(kind, len, max, i, if i + 1 == n then NONE else i + 1)
  }

  /** Walking the chain sends the chunks one after another. */
  ghost predicate SendsRest(mem: Memory, kind: Kind, len: nat, max: nat, whole: seq<byte>) {
    && |whole| == 2 * len
    && forall i: nat | Left(len, max, i) > 0 ::
      var done := 2 * (len - Left(len, max, i));
      Sent(mem, Link(kind, len, max, i, NONE)) == whole[done..done + 2 * Chunk(len, max, i)]
  }

  lemma LinkSent(mem: Memory, kind: Kind, len: nat, max: nat, i: nat, next: int)
    ensures Sent(mem, Link(kind, len, max, i, next)) == Sent(mem, Link(kind, len, max, i, NONE))
    ensures Link(kind, len, max, i, next).next == next
  {
  }

  /** Descriptor i of the chain sends chunk i and leads to descriptor i + 1, if there is one. */
  lemma ChunkSent(mem: Memory, descs: seq<Descriptor>, kind: Kind, len: nat, max: nat, whole: seq<byte>, i: nat)
    requires max > 0 && len > 0 && IsChain(descs, kind, len, max) && SendsRest(mem, kind, len, max, whole)
    requires i < ChunkCount(len, max)
    ensures |whole| == 2 * len && ChunkCount(len, max) <= |descs|
    ensures descs[i].next == if i + 1 == ChunkCount(len, max) then -1 else i + 1
    ensures Left(len, max, i + 1) <= Left(len, max, i)
    ensures i + 1 == ChunkCount(len, max) ==> Left(len, max, i + 1) == 0
    ensures Sent(mem, descs[i]) == whole[2 * (len - Left(len, max, i))..2 * (len - Left(len, max, i + 1))]
  {
    hide *;
    ChunksExact(len, max, i);
    ChunksExact(len, max, i + 1);
    ChainAt(descs, kind, len, max, i);
    PartSent(mem, kind, len, max, whole, i);
    LinkSent(mem, kind, len, max, i, if i + 1 == ChunkCount(len, max) then -1 else i + 1);
    LeftNext(len, max, i);
  }

  lemma ChainAt(descs: seq<Descriptor>, kind: Kind, len: nat, max: nat, i: nat)
    requires max > 0 && IsChain(descs, kind, len, max) && i < ChunkCount(len, max)
    ensures ChunkCount(len, max) <= |descs|
    ensures descs[i] == Link(kind, len, max, i, if i + 1 == ChunkCount(len, max) then -1 else i + 1)
  {
    hide ChunkCount, Link;
  }

  lemma LeftNext(len: nat, max: nat, i: nat)
    ensures Left(len, max, i + 1) == Left(len, max, i) - Chunk(len, max, i) && Chunk(len, max, i) <= Left(len, max, i)
  {
  }

  lemma AllLeft(len: nat, max: nat)
    ensures Left(len, max, 0) == len
  {
  }

  lemma PartSent(mem: Memory, kind: Kind, len: nat, max: nat, whole: seq<byte>, i: nat)
    requires SendsRest(mem, kind, len, max, whole) && Left(len, max, i) > 0
    ensures |whole| == 2 * len && Chunk(len, max, i) <= Left(len, max, i)
    ensures var done := 2 * (len - Left(len, max, i));
      Sent(mem, Link(kind, len, max, i, NONE)) == whole[done..done + 2 * Chunk(len, max, i)]
  {
    hide Sent, Link, Left;
  }

  lemma WalkStep(mem: Memory, descs: seq<Descriptor>, i: nat)
    requires i < |descs| && (descs[i].next == -1 || descs[i].next == i + 1)
    ensures Walk(mem, descs, descs[i], i)
      == Sent(mem, descs[i]) + (if descs[i].next == i + 1 < |descs| then Walk(mem, descs, descs[i + 1], i + 1) else [])
  {
  }

  /** From descriptor i on, the chain sends everything the first i chunks left. */
  lemma {:induction false} ChainSends(mem: Memory, descs: seq<Descriptor>, kind: Kind, len: nat, max: nat,
      whole: seq<byte>, i: nat)
    requires max > 0 && len > 0 && IsChain(descs, kind, len, max) && SendsRest(mem, kind, len, max, whole)
    requires i < ChunkCount(len, max)
    ensures |whole| == 2 * len && ChunkCount(len, max) <= |descs|
    ensures Walk(mem, descs, descs[i], i) == whole[2 * (len - Left(len, max, i))..]
    decreases ChunkCount(len, max) - i
  {
    hide *;
    ChunkSent(mem, descs, kind, len, max, whole, i);
    WalkStep(mem, descs, i);
    if i + 1 < ChunkCount(len, max) {
      ChainSends(mem, descs, kind, len, max, whole, i + 1);
    }
    Adjacent(whole, 2 * (len - Left(len, max, i)), 2 * (len - Left(len, max, i + 1)));
  }

  /** Walked from its start, a chain sends the whole. */
  lemma WholeChain(mem: Memory, descs: seq<Descriptor>, kind: Kind, len: nat, max: nat, whole: seq<byte>)
    requires max > 0 && len > 0 && IsChain(descs, kind, len, max) && SendsRest(mem, kind, len, max, whole)
    ensures |descs| > 0 && Walk(mem, descs, descs[0], 0) == whole
  {
    hide Walk, SendsRest, ChunkCount;
    CeilBounds(len, max);
    ChainSends(mem, descs, kind, len, max, whole, 0);
    assert whole[0..] == whole;
  }

  lemma Adjacent(s: seq<byte>, a: nat, b: nat)
    requires a <= b <= |s|
    ensures s[a..b] + s[b..] == s[a..]
    ensures b == |s| ==> s[a..b] == s[a..]
  {
  }

  // ---------------------------------------------------------------- what each kind of chain sends

  lemma FixedSends(mem: Memory, c: uint16, len: nat)
    requires Hi(c) == Lo(c) == mem.one
    ensures SendsRest(mem, Fixed, len, 32767, Solid(c, len))
  {
    forall i: nat | Left(len, 32767, i) > 0
      ensures var done := 2 * (len - Left(len, 32767, i));
        Sent(mem, Link(Fixed, len, 32767, i, NONE)) == Solid(c, len)[done..done + 2 * Chunk(len, 32767, i)]
    {
      var a := Sent(mem, Link(Fixed, len, 32767, i, NONE));
      assert forall k | 0 <= k < |a| :: a[k] == mem.one;
    }
  }

  lemma CachedSends(mem: Memory, words: seq<uint16>, c: uint16, len: nat, max: nat)
    requires (if len < max then len else max) <= 32767
    requires mem.fill == Bytes(words) && (if len < max then len else max) <= |words|
    requires forall i | 0 <= i < (if len < max then len else max) :: words[i] == Bswap(c)
    ensures SendsRest(mem, Cached, len, max, Solid(c, len))
  {
    hide Bytes, Solid, Left;
    forall i: nat | Left(len, max, i) > 0
      ensures var done := 2 * (len - Left(len, max, i));
        Sent(mem, Link(Cached, len, max, i, NONE)) == Solid(c, len)[done..done + 2 * Chunk(len, max, i)]
    {
      CachedChunk(words, c, len, 2 * (len - Left(len, max, i)), Chunk(len, max, i));
    }
  }

  lemma CachedChunk(words: seq<uint16>, c: uint16, len: nat, done: nat, n: nat)
    requires n <= |words| && done % 2 == 0 && done + 2 * n <= 2 * len
    requires forall i | 0 <= i < n :: words[i] == Bswap(c)
    ensures Bytes(words)[..2 * n] == Solid(c, len)[done..done + 2 * n]
  {
    hide Bswap, Hi, Lo;
    forall k | 0 <= k < 2 * n ensures Bytes(words)[k] == Solid(c, len)[done + k] {
      SameParity(done, k);
      assert words[k / 2] == Bswap(c);
    }
  }

  lemma StreamedSends(mem: Memory, len: nat)
    requires |mem.caller| == 2 * len
    ensures SendsRest(mem, Streamed, len, 32767, mem.caller)
  {
  }

  // ---------------------------------------------------------------- what goes wrong with longer chunks

  lemma SentAtMost(mem: Memory, d: Descriptor)
    ensures |Sent(mem, d)| <= d.count
  {
  }

  lemma LinkCount(kind: Kind, len: nat, max: nat, i: nat, next: int)
    ensures var d := Link(kind, len, max, i, next); d.count == Beats(2 * Chunk(len, max, i)) && d.next == next
  {
  }

  /** No chain sends more than it was built for. */
  lemma {:induction false} WalkAtMost(mem: Memory, descs: seq<Descriptor>, kind: Kind, len: nat, max: nat, i: nat)
    requires max > 0 && len > 0 && IsChain(descs, kind, len, max) && i < ChunkCount(len, max) <= |descs|
    ensures |Walk(mem, descs, descs[i], i)| <= 2 * Left(len, max, i + 1) + Beats(2 * Chunk(len, max, i))
    decreases ChunkCount(len, max) - i
  {
    hide *;
    ChainAt(descs, kind, len, max, i);
    LinkCount(kind, len, max, i, if i + 1 == ChunkCount(len, max) then -1 else i + 1);
    WalkStep(mem, descs, i);
    SentAtMost(mem, descs[i]);
    if i + 1 < ChunkCount(len, max) {
      WalkAtMost(mem, descs, kind, len, max, i + 1);
      LeftNext(len, max, i + 1);
    }
  }

  ghost predicate IsChunked(descs: seq<Descriptor>, kind: Kind, len: nat, max: nat) {
    max > 0 && len > 0 && IsChain(descs, kind, len, max) && 0 < ChunkCount(len, max) <= |descs|
  }

  /** A chunk of more than 32767 pixels loses bytes to the 16-bit register. */
  lemma LongChunkLoses(mem: Memory, descs: seq<Descriptor>, kind: Kind, len: nat, max: nat)
    requires max < 0x1_0000 && IsChunked(descs, kind, len, max)
    requires (if len < max then len else max) > 32767
    ensures |Walk(mem, descs, descs[0], 0)| < 2 * len
  {
    ChunksExact(len, max, 0);
    WalkAtMost(mem, descs, kind, len, max, 0);
    LeftNext(len, max, 0);
    hide Walk, IsChain;
  }

  // ---------------------------------------------------------------- the driver

  /** The 16-bit length of a buffer of two scanlines: zero exactly for the widest of screens. */
  function BufferLength(m: nat): nat {
    (m + m % 2) * 2 % 0x1_0000
  }

  lemma BufferLengthExactly(m: nat)
    requires 0 < m <= 32767
    ensures BufferLength(m) == 0 <==> m == 32767
    ensures m < 32767 ==> BufferLength(m) == (m + m % 2) * 2 && BufferLength(m) % 4 == 0
    ensures BufferLength(m) <= 32767 <==> m <= 16382 || m == 32767
  {
    var h: nat := (m + m % 2) / 2;
    assert m + m % 2 == 2 * h;
    DivUnique(4 * h, 4, h);
    DivUnique(4 * h, 0x1_0000, if m == 32767 then 1 else 0);
  }

  function Pixels(w: nat, h: nat): nat {
    w * h
  }

  /** The number of descriptors initSPI allocates. */
  function Descriptors(area: nat, major: nat): nat
    requires major > 0
  {
    (area + (major * 2 - 1)) / (major * 2)
  }

  lemma DescriptorsSuffice(area: nat, major: nat)
    requires major > 0
    ensures Descriptors(area, major) == ChunkCount(area, major * 2)
  {
  }

  /** The descriptors that writePixels alternates between, span after span of n pixels, exist. */
  ghost predicate HasEveryHalf(n: nat, span: nat, descs: nat) {
    forall j: nat | j * span < n :: j % 2 < descs
  }

  lemma SpanHalf(n: nat, span: nat, descs: nat, j: nat)
    requires HasEveryHalf(n, span, descs)
    ensures j * span < n ==> j % 2 < descs
    ensures (j + 1) * span == j * span + span && (j + 1) % 2 == 1 - j % 2
  {
  }

  lemma EveryHalfExactly(n: nat, span: nat, descs: nat)
    requires span > 0
    ensures HasEveryHalf(n, span, descs) <==> n == 0 || descs >= 2 || (descs == 1 && n <= span)
  {
    assert 0 * span == 0 && 1 * span == span;
    if n <= span {
      forall j: nat | j * span < n
        ensures j == 0
      {
        if j > 0 {
          MulMonotone(1, j, span);
        }
      }
    }
  }

  /** A second descriptor exists exactly when the screen is larger than the buffer. Without one, some write of at most a
      screen has none for its second span, unless the screen fits one half. */
  lemma TwoDescriptorsExactly(area: nat, max: nat)
    requires max > 0 && max % 2 == 0
    ensures ChunkCount(area, max) >= 2 <==> area > max
    ensures (forall n: nat | n <= area :: HasEveryHalf(n, max / 2, ChunkCount(area, max)))
      <==> area <= max / 2 || area > max
  {
    hide HasEveryHalf, ChunkCount;
    if area > 0 {
      ChunksExact(area, max, 0);
      ChunksExact(area, max, 1);
      assert Left(area, max, 1) == area - (if area < max then area else max);
    } else {
      NoChunks(max);
    }
    forall n: nat | n <= area
      ensures HasEveryHalf(n, max / 2, ChunkCount(area, max))
        <==> n == 0 || area > max || (0 < area && n <= max / 2)
    {
      EveryHalfExactly(n, max / 2, ChunkCount(area, max));
    }
    assert HasEveryHalf(area, max / 2, ChunkCount(area, max)) <==> area <= max / 2 || area > max;
  }

  lemma NoChunks(max: nat)
    requires max > 0
    ensures ChunkCount(0, max) == 0
  {
    DivUnique(max - 1, max, 0);
  }

  /** The failing input: the one descriptor of a screen of 10 by 2 pixels is not enough to write the screen. */
  lemma ScreenLacksDescriptor()
    ensures BufferLength(10) == 20 && Pixels(10, 2) == 20 && Descriptors(20, 10) == 1
    ensures !HasEveryHalf(20, BufferLength(10) / 2, Descriptors(20, 10))
  {
    EveryHalfExactly(20, 10, 1);
  }

  lemma CountIs(len: nat, max: nat)
    requires max > 0
    ensures ChunkCount(len, max) == (len + max - 1) / max
  {
  }

  lemma Halves(n: nat)
    ensures n <= 2 * ((n + 1) / 2) <= n + 1 && (n + 1) / 2 * 2 % 2 == 0
  {
  }

  lemma Quarters(n: nat)
    requires n % 4 == 0
    ensures n == 4 * (n / 4)
  {
  }

  /** Pairs that cover n words do not go beyond an even length. */
  lemma PairsCover(n: nat, max: nat)
    requires n <= max && max % 4 == 0
    ensures var end := (n + 1) / 2; n <= 2 * end <= max && end * 2 % 2 == 0
  {
    Halves(n);
    Quarters(max);
    EvenEnough(n, (n + 1) / 2, max / 4);
  }

  lemma EvenEnough(n: nat, e: nat, q: nat)
    requires 2 * e <= n + 1 && n <= 4 * q
    ensures 2 * e <= 4 * q
  {
    assert e <= 2 * q || e >= 2 * q + 1;
  }

  class Spitft {
    const WIDTH: nat
    const HEIGHT: nat
    const maxFillLen: nat
    const pixelBuf: array<uint16>
    const descriptor: array<Descriptor>
    var onePixelBuf: byte
    var dptr: Descriptor
    var lastFillColor: uint16
    var lastFillLen: nat
    /** Everything put on the wire so far. */
    var wire: seq<byte>

    /** Pixels on the screen. */
    function Area(): nat {
      Pixels(WIDTH, HEIGHT)
    }

    /** Two scanlines, and descriptors to send the screen from them. */
    ghost predicate Allocated() {
      && 0 < maxFillLen < 0x1_0000 && maxFillLen % 4 == 0
      && pixelBuf.Length == maxFillLen
      && descriptor.Length == ChunkCount(Area(), maxFillLen)
    }

    ghost predicate Valid()
      reads this, pixelBuf
    {
      Allocated() && CacheHolds()
    }

    /** The fill cache: the first lastFillLen pixels of the buffer hold the last fill colour, swapped. */
    ghost predicate CacheHolds()
      reads this, pixelBuf
    {
      && lastFillLen <= pixelBuf.Length && lastFillLen % 2 == 0
      && forall i | 0 <= i < lastFillLen :: pixelBuf[i] == Bswap(lastFillColor)
    }

    /** The buffers initSPI allocates: two scanlines of the longer side, and enough descriptors for a full screen. For
        a side of 32767 pixels the computed length is zero, and the source divides by it. */
    constructor (w: nat, h: nat)
      requires w < 32767 && h < 32767 && (w > 0 || h > 0)
      ensures Valid() && fresh(pixelBuf) && fresh(descriptor) && wire == [] && WIDTH == w && HEIGHT == h
      ensures maxFillLen == BufferLength(if w > h then w else h)
    {
      hide ChunkCount, Descriptors, Pixels;
      BufferLengthExactly(if w > h then w else h);
      WIDTH, HEIGHT := w, h;
      var major := if w > h then w else h;
      major := major + major % 2;
      maxFillLen := major * 2 % 0x1_0000;
      pixelBuf := new uint16[major * 2 % 0x1_0000](_ => 0);
      DescriptorsSuffice(Pixels(w, h), major);
      descriptor := new Descriptor[Descriptors(Pixels(w, h), major)](_ => Descriptor(FillBuffer, 0, false, 0, NONE));
      onePixelBuf, lastFillColor, lastFillLen, wire := 0, 0, 0, [];
      dptr := Descriptor(FillBuffer, 0, false, 0, NONE);
    }

    /** The descriptors suffice for chunks of 32767 pixels. */
    predicate Room(len: nat) {
      len == 0 || ChunkCount(len, 32767) <= descriptor.Length
    }

    /** As long as a chunk of the buffer is no longer than one of those, they always do. */
    lemma RoomForScreen(len: nat)
      requires Valid() && maxFillLen <= 32767 && len <= Area()
      ensures Room(len)
    {
      hide ChunkCount, Area;
      if len > 0 {
        ChunkCountMonotone(Area(), maxFillLen, len, 32767);
      }
    }

    ghost function Mem(caller: seq<byte>): Memory
      reads this, pixelBuf
    {
      Memory(Bytes(pixelBuf[..]), onePixelBuf, caller)
    }

    /** startJob, and the wait for dma_busy to fall: the engine walks the chain that starts at dptr. */
    method RunDma(at: nat, caller: seq<byte>)
      requires at < descriptor.Length
      modifies this`wire
      ensures wire == old(wire) + Walk(Mem(caller), descriptor[..], dptr, at)
    {
      wire := wire + Walk(Memory(Bytes(pixelBuf[..]), onePixelBuf, caller), descriptor[..], dptr, at);
    }

    /** The loop that fills in the descriptor list. */
    method BuildChain(kind: Kind, len0: nat, max: nat)
      requires 0 < max && 0 < len0 && ChunkCount(len0, max) <= descriptor.Length
      modifies descriptor
      ensures IsChain(descriptor[..], kind, len0, max)
      ensures max <= 32767
        ==> forall i | 0 <= i < ChunkCount(len0, max) :: descriptor[i].count == 2 * Chunk(len0, max, i)
    {
      hide Beats, ChunkCount, Left;
      CountIs(len0, max);
      var len, d := len0, 0;
      var numDescriptors := (len + max - 1) / max;
      ChunksExact(len0, max, 0);
      AllLeft(len0, max);
      while d < numDescriptors
        invariant 0 <= d <= numDescriptors == ChunkCount(len0, max)
        invariant len == Left(len0, max, d)
        invariant forall i | 0 <= i < d :: descriptor[i] == Link(kind, len0, max, i, i + 1)
      {
        LeftNext(len0, max, d);
        var pixels := if len < max then len else max;
        descriptor[d] := match kind {
          case Fixed => Descriptor(OnePixel, 0, false, Beats(pixels * 2), d + 1)
          case Cached => Descriptor(FillBuffer, pixels * 2, true, Beats(pixels * 2), d + 1)
          case Streamed => Descriptor(Caller, (len0 - len) * 2 + pixels * 2, true, Beats(pixels * 2), d + 1)
        };
        len := len - pixels;
        d := d + 1;
      }
      descriptor[d - 1] := descriptor[d - 1].(next := NONE);
    }

    /** Brings the cache up to len pixels of the colour, two at a time, writing only what is missing. */
    method FillCache(color: uint16, len: nat)
      requires Valid() && len > 0
      modifies pixelBuf, this`lastFillColor, this`lastFillLen
      ensures Valid()
      ensures lastFillColor == color && (if len < maxFillLen then len else maxFillLen) <= lastFillLen
    {
      hide Bswap, ChunkCount;
      PairsCover(if len < maxFillLen then len else maxFillLen, maxFillLen);
      if color == lastFillColor {
        if len > lastFillLen {
          var fillStart := lastFillLen / 2;
          var fillEnd := ((if len < maxFillLen then len else maxFillLen) + 1) / 2;
          WritePairs(Bswap(color), fillStart, fillEnd);
          lastFillLen := fillEnd * 2;
        }
      } else {
        var fillEnd := ((if len < maxFillLen then len else maxFillLen) + 1) / 2;
        WritePairs(Bswap(color), 0, fillEnd);
        lastFillLen := fillEnd * 2;
        lastFillColor := color;
      }
    }

    /** pixelPtr[i] = twoPixels for i in [fillStart, fillEnd). */
    method WritePairs(word: uint16, fillStart: nat, fillEnd: nat)
      requires 2 * fillEnd <= pixelBuf.Length
      modifies pixelBuf
      ensures forall i | 0 <= i < pixelBuf.Length ::
        pixelBuf[i] == if 2 * fillStart <= i < 2 * fillEnd then word else old(pixelBuf[i])
    {
      var i := fillStart;
      while i < fillEnd
        invariant fillStart <= i && (i <= fillEnd || i == fillStart)
        invariant forall j | 0 <= j < pixelBuf.Length ::
          pixelBuf[j] == if 2 * fillStart <= j < 2 * i then word else old(pixelBuf[j])
      {
        pixelBuf[2 * i], pixelBuf[2 * i + 1] := word, word;
        i := i + 1;
      }
    }

    /** Sends len pixels of one colour: exactly len copies of its high and low byte, unless the two differ and a chunk
        is longer than 32767 pixels. */
    method WriteColor(color: uint16, len: nat)
      requires Valid() && len <= Area()
      requires Hi(color) == Lo(color) ==> Room(len)
      modifies this, pixelBuf, descriptor
      ensures Valid()
      ensures wire == old(wire) + Solid(color, len)
        <==> Hi(color) == Lo(color) || (if len < maxFillLen then len else maxFillLen) <= 32767
    {
      hide Solid, ChunkCount, IsChain, SendsRest, Area, Walk;
      var hi, lo := Hi(color), Lo(color);
      if len < 16 {
        WriteBytes(color, len);
        return;
      }
      if hi == lo {
        onePixelBuf := color % 256;
        BuildChain(Fixed, len, 32767);
        FixedSends(Mem([]), color, len);
        WholeChain(Mem([]), descriptor[..], Fixed, len, 32767, Solid(color, len));
        SendChain([]);
      } else {
        FillCache(color, len);
        ChunkCountMonotone(Area(), maxFillLen, len, maxFillLen);
        BuildChain(Cached, len, maxFillLen);
        CacheSent(color, len);
        SendChain([]);
      }
    }

    /** What the chain over the cache sends. */
    lemma CacheSent(color: uint16, len: nat)
      requires Valid() && lastFillColor == color && (if len < maxFillLen then len else maxFillLen) <= lastFillLen
      requires len > 0 && IsChain(descriptor[..], Cached, len, maxFillLen)
      ensures descriptor.Length > 0
      ensures (if len < maxFillLen then len else maxFillLen) <= 32767
        ==> Walk(Mem([]), descriptor[..], descriptor[0], 0) == Solid(color, len)
      ensures (if len < maxFillLen then len else maxFillLen) > 32767
        ==> |Walk(Mem([]), descriptor[..], descriptor[0], 0)| < 2 * len
    {
      hide Solid, ChunkCount, SendsRest, Area, Walk;
      CeilBounds(len, maxFillLen);
      if (if len < maxFillLen then len else maxFillLen) <= 32767 {
        CachedSends(Mem([]), pixelBuf[..], color, len, maxFillLen);
        WholeChain(Mem([]), descriptor[..], Cached, len, maxFillLen, Solid(color, len));
      } else {
        LongChunkLoses(Mem([]), descriptor[..], Cached, len, maxFillLen);
      }
    }

    /** memcpy(dptr, &descriptor[0]), and the transfer it starts. */
    method SendChain(caller: seq<byte>)
      requires descriptor.Length > 0
      modifies this`dptr, this`wire
      ensures wire == old(wire) + old(Walk(Mem(caller), descriptor[..], descriptor[0], 0))
    {
      dptr := descriptor[0];
      RunDma(0, caller);
    }

    /** The byte-by-byte fallback for runs too short for DMA. */
    method WriteBytes(color: uint16, len0: nat)
      modifies this`wire
      ensures wire == old(wire) + Solid(color, len0)
    {
      var len := len0;
      while len > 0
        invariant 0 <= len <= len0
        invariant wire == old(wire) + Solid(color, len0 - len)
      {
        SolidJoin(color, len0 - len, 1);
        assert Solid(color, 1) == [Hi(color), Lo(color)];
        wire := wire + [Hi(color), Lo(color)];
        len := len - 1;
      }
    }

    lemma HalvesExist(len: nat)
      requires Valid() && 0 < len <= Area() && (descriptor.Length >= 2 || len <= maxFillLen / 2)
      ensures HasEveryHalf(len, maxFillLen / 2, descriptor.Length)
    {
      hide HasEveryHalf, ChunkCount, Area;
      ChunkCountMonotone(Area(), maxFillLen, len, maxFillLen);
      EveryHalfExactly(len, maxFillLen / 2, descriptor.Length);
    }

    /** Sends the caller's pixels: in memory order if they are big-endian already, byte-swapped
        through the two half-buffers otherwise. Either way the fill cache is forgotten. */
    method WritePixels(colors: seq<uint16>, bigEndian: bool)
      requires Valid() && |colors| <= Area()
      requires if bigEndian then Room(|colors|) else descriptor.Length >= 2 || |colors| <= maxFillLen / 2
      modifies this, pixelBuf, descriptor
      ensures Valid()
      ensures wire == old(wire) + Bytes(if bigEndian then colors else Swapped(colors))
      ensures colors != [] ==> lastFillLen == 0
    {
      hide Bytes, Bswap, Swapped, ChunkCount, Area, HasEveryHalf, Allocated;
      if colors == [] {
        SwappedNone();
        return;
      }
      if bigEndian {
        WriteStream(Bytes(colors), |colors|);
      } else {
        HalvesExist(|colors|);
        WriteSwapped(colors);
      }
      lastFillColor := 0x0000;
      lastFillLen := 0;
    }

    /** The caller's bytes as they are, in chunks of 32767 pixels. */
    method WriteStream(bytes: seq<byte>, len: nat)
      requires 0 < len && |bytes| == 2 * len && ChunkCount(len, 32767) <= descriptor.Length
      modifies this`dptr, this`wire, descriptor
      ensures wire == old(wire) + bytes
    {
      hide ChunkCount, IsChain, SendsRest, Walk;
      BuildChain(Streamed, len, 32767);
      StreamedSends(Mem(bytes), len);
      WholeChain(Mem(bytes), descriptor[..], Streamed, len, 32767, bytes);
      SendChain(bytes);
    }

    /** One scanline at a time through alternating halves of pixelBuf. */
    method WriteSwapped(colors: seq<uint16>)
      requires Allocated() && HasEveryHalf(|colors|, maxFillLen / 2, descriptor.Length)
      modifies this`dptr, this`wire, pixelBuf, descriptor
      ensures wire == old(wire) + Bytes(Swapped(colors))
    {
      hide Bytes, Swapped, HasEveryHalf;
      var maxSpan, idx, pos := maxFillLen / 2, 0, 0;
      ghost var span: nat := 0;
      assert maxSpan > 0 && 2 * maxSpan == maxFillLen;
      SwappedNone();
      while pos < |colors|
        invariant idx == span % 2 && 0 <= pos <= |colors| && (pos < |colors| ==> pos == span * maxSpan)
        invariant wire == old(wire) + Bytes(Swapped(colors[..pos]))
      {
        SpanHalf(|colors|, maxSpan, descriptor.Length, span);
        var count := if |colors| - pos < maxSpan then |colors| - pos else maxSpan;
        SendHalf(idx, maxSpan, colors[pos..pos + count]);
        SwappedJoin(colors[..pos], colors[pos..pos + count]);
        assert colors[..pos] + colors[pos..pos + count] == colors[..pos + count];
        idx, pos, span := 1 - idx, pos + count, span + 1;
      }
      assert colors[..pos] == colors;
    }

    method SendHalf(idx: nat, maxSpan: nat, part: seq<uint16>)
      requires idx < 2 && idx < descriptor.Length && |part| <= maxSpan && 2 * maxSpan == pixelBuf.Length
      modifies this`dptr, this`wire, pixelBuf, descriptor
      ensures wire == old(wire) + Bytes(Swapped(part))
    {
      hide Bytes, Bswap, Swapped, Walk;
      var start := idx * maxSpan;
      assert start == if idx == 0 then 0 else maxSpan;
      FillHalf(start, part);
      descriptor[idx] := Descriptor(FillBuffer, 2 * (start + |part|), true, |part| * 2, NONE);
      dptr := descriptor[idx];
      HalfBytes(pixelBuf[..], start, Swapped(part));
      OneSent(Mem([]), descriptor[..], dptr, idx);
      RunDma(idx, []);
    }

    lemma OneSent(mem: Memory, descs: seq<Descriptor>, d: Descriptor, at: nat)
      requires at <= |descs| && d.next == NONE && d.srcInc && d.count <= d.src <= |mem.At(d.region)|
      ensures Walk(mem, descs, d, at) == mem.At(d.region)[d.src - d.count..d.src]
    {
    }

    method FillHalf(start: nat, part: seq<uint16>)
      requires start + |part| <= pixelBuf.Length
      modifies pixelBuf
      ensures pixelBuf[start..start + |part|] == Swapped(part)
    {
      for i := 0 to |part|
        invariant forall k | 0 <= k < i :: pixelBuf[start + k] == Bswap(part[k])
      {
        pixelBuf[start + i] := Bswap(part[i]);
      }
    }
  }

  /** The failing input: on a screen of 20000 by 2 pixels the buffer is longer than a descriptor can count, and filling
      the screen with 0x1234 does not send its pixels. */
  method WriteColorFails() returns (tft: Spitft)
    ensures tft.WIDTH == 20000 && tft.HEIGHT == 2 && tft.maxFillLen == 40000
    ensures tft.wire != Solid(0x1234, 40000)
  {
    hide Solid;
    tft := new Spitft(20000, 2);
    tft.WriteColor(0x1234, 40000);
    assert [] + Solid(0x1234, 40000) == Solid(0x1234, 40000);
  }
}
