/** The CPU loop of writePixels running concurrently with the DMA engine: a state machine whose
    steps interleave freely. The CPU fills one half of pixelBuf while the engine reads the other. */
module PingPong {
  import opened DmaFill
  import opened Machine

  /** Where the CPU is in the loop. Each constructor names the statement it executes next. */
  datatype Pc =
    | LoopTest                // while (len)
    | Fill(i: nat)            // pixelBuf[pixelBufIdx][i] = bswap(*colors++)
    | SetDescriptor           // descriptor[pixelBufIdx] = ...
    | Wait                    // while (dma_busy)
    | CopyDescriptor          // memcpy(dptr, &descriptor[pixelBufIdx])
    | SetBusy                 // dma_busy = true
    | Start                   // dma.startJob()
    | Swap                    // pixelBufIdx = 1 - pixelBufIdx; len -= count
    | FinalWait               // while (dma_busy), when blocking
    | Returned

  /** A transfer of count words from the start of a half. */
  datatype Transfer = Transfer(half: nat, count: nat)

  datatype State = State(
    colors: seq<uint16>,      // the caller's pixels
    span: nat,                // words per half
    block: bool,
    pc: Pc,
    pos: nat,                 // pixels of colors consumed by finished iterations
    idx: nat,                 // pixelBufIdx
    bufs: seq<seq<uint16>>,   // the two halves of pixelBuf
    descs: seq<Transfer>,     // descriptor[0] and descriptor[1]
    dptr: Transfer,           // the active descriptor
    busy: bool,               // dma_busy
    running: bool,            // the engine is moving bytes
    at: nat,                  // next byte of the active transfer
    wire: seq<byte>)

  function Count(s: State): nat {
    var rest := |s.colors| - s.pos;
    if rest < s.span then (if rest < 0 then 0 else rest) else s.span
  }

  function Written(buf: seq<uint16>, i: nat, v: uint16): seq<uint16>
    requires i < |buf|
  {
    buf[i := v]
  }

  ghost predicate Shape(s: State) {
    && s.span > 0 && s.pos <= |s.colors| && s.idx < 2
    && |s.bufs| == 2 && |s.bufs[0]| == |s.bufs[1]| == s.span
    && |s.descs| == 2
    && s.dptr.half < 2 && s.dptr.count <= s.span
    && (s.running ==> s.at <= 2 * s.dptr.count)
  }

  /** One step of the CPU. */
  ghost predicate CpuStep(s: State, t: State)
    requires Shape(s)
  {
    match s.pc
    case LoopTest =>
      t == s.(pc := if s.pos < |s.colors| then Fill(0) else if s.block then FinalWait else Returned)
    case Fill(i) =>
      if i < Count(s) then
        t == s.(bufs := s.bufs[s.idx := Written(s.bufs[s.idx], i, Bswap(s.colors[s.pos + i]))], pc := Fill(i + 1))
      else t == s.(pc := SetDescriptor)
    case SetDescriptor => t == s.(descs := s.descs[s.idx := Transfer(s.idx, Count(s))], pc := Wait)
    case Wait => t == s.(pc := if s.busy then Wait else CopyDescriptor)
    case CopyDescriptor => t == s.(dptr := s.descs[s.idx], pc := SetBusy)
    case SetBusy => t == s.(busy := true, pc := Start)
    case Start => t == s.(running := true, at := 0, pc := Swap)
    case Swap => t == s.(idx := 1 - s.idx, pos := s.pos + Count(s), pc := LoopTest)
    case FinalWait => t == s.(pc := if s.busy then FinalWait else Returned)
    case Returned => false
  }

  /** One step of the engine: a byte, or the end of the transfer (whose callback clears dma_busy). */
  ghost predicate DmaStep(s: State, t: State)
    requires Shape(s)
  {
    && s.running
    && if s.at < 2 * s.dptr.count
       then t == s.(wire := s.wire + [Bytes(s.bufs[s.dptr.half])[s.at]], at := s.at + 1)
       else t == s.(running := false, busy := false)
  }

  ghost predicate Next(s: State, t: State)
    requires Shape(s)
  {
    CpuStep(s, t) || DmaStep(s, t)
  }

  /** Entry to writePixels. A transfer begun by an earlier non-blocking call may still be in flight. */
  ghost predicate Entry(s: State) {
    && Shape(s) && s.pc == LoopTest && s.pos == 0 && s.idx == 0
    && s.busy == s.running
  }

  /** The CPU is about to write the half-buffer or the descriptor the engine is reading. */
  ghost predicate Conflict(s: State)
    requires Shape(s)
  {
    s.running && ((s.pc.Fill? && s.pc.i < Count(s) && s.dptr.half == s.idx) || s.pc == CopyDescriptor)
  }

  /** Bytes the engine has still to send. */
  function Pending(s: State): seq<byte>
    requires Shape(s)
  {
    if s.running then Bytes(s.bufs[s.dptr.half])[s.at..2 * s.dptr.count] else []
  }

  /** Pixels handed to the engine so far. */
  function Launched(s: State): nat {
    if s.pc == Swap then s.pos + Count(s) else s.pos
  }

  /** The part of the current half that must already hold its pixels. */
  function Filled(s: State): nat {
    match s.pc
    case Fill(i) => i
    case SetDescriptor => Count(s)
    case Wait => Count(s)
    case CopyDescriptor => Count(s)
    case SetBusy => Count(s)
    case Start => Count(s)
    case _ => 0
  }

  /** Who owns what: the engine reads the other half, and dptr changes only while it is idle. */
  ghost predicate Control(s: State) {
    && Shape(s)
    && (s.pc.Fill? ==> s.pc.i <= Count(s))
    && (s.pc in {Wait, CopyDescriptor} ==> s.descs[s.idx] == Transfer(s.idx, Count(s)))
    && (s.pc in {SetBusy, Start} ==> s.dptr == Transfer(s.idx, Count(s)))
    && (s.pc in {CopyDescriptor, SetBusy, Start} ==> !s.running)
    && (s.pc in {CopyDescriptor, SetBusy} ==> !s.busy)
    && (s.pc == Start ==> s.busy)
    && (s.pc == Swap ==> s.dptr.half == s.idx)
    && (s.pc != Start ==> s.busy == s.running)
    && (s.running && s.pc != Swap ==> s.dptr.half == 1 - s.idx)
    && (s.pc in {FinalWait, Returned} ==> s.pos == |s.colors|)
    && (s.pc in {LoopTest, FinalWait, Returned} || s.pos < |s.colors|)
    && (s.pc == FinalWait ==> s.block)
    && (s.pc == Returned && s.block ==> !s.running)
  }

  /** The half being filled holds its swapped pixels so far. */
  ghost predicate HalfFilled(s: State)
    requires Shape(s)
  {
    && Filled(s) <= Count(s)
    && forall k | 0 <= k < Filled(s) :: s.bufs[s.idx][k] == Bswap(s.colors[s.pos + k])
  }

  /** What was and will be sent is what was promised at entry, and the pixels launched since, in order. */
  ghost predicate InOrder(s: State, base: seq<byte>)
    requires Shape(s)
  {
    s.wire + Pending(s) == base + Bytes(Swapped(s.colors[..if Launched(s) <= |s.colors| then Launched(s) else 0]))
  }

  /** What holds in every state of every interleaving; base is what was sent or promised at entry. */
  ghost predicate Inv(s: State, base: seq<byte>) {
    Control(s) && HalfFilled(s) && InOrder(s, base)
  }

  /** The entry condition under which nothing can go wrong. */
  ghost predicate SafeEntry(s: State) {
    Entry(s) && !(s.running && s.dptr.half == 0)
  }

  lemma EntryInv(s: State)
    requires SafeEntry(s)
    ensures Inv(s, s.wire + Pending(s))
  {
    assert s.colors[..0] == [];
    SwappedNone();
  }

  lemma NextByte(w: seq<byte>, b: seq<byte>, at: nat, end: nat)
    requires at < end <= |b|
    ensures w + b[at..end] == w + [b[at]] + b[at + 1..end]
    ensures b[end..end] == []
  {
  }

  lemma DmaInOrder(s: State, t: State, base: seq<byte>)
    requires Control(s) && InOrder(s, base) && DmaStep(s, t)
    ensures InOrder(t, base)
  {
    hide Bytes, Swapped, Launched;
    if s.at < 2 * s.dptr.count {
      NextByte(s.wire, Bytes(s.bufs[s.dptr.half]), s.at, 2 * s.dptr.count);
    }
    SameLaunched(s, t);
  }

  lemma SameLaunched(s: State, t: State)
    requires Control(s) && DmaStep(s, t)
    ensures Launched(t) == Launched(s) && t.colors == s.colors
  {
    hide Bytes;
  }

  lemma CpuControl(s: State, t: State)
    requires Control(s) && CpuStep(s, t)
    ensures Control(t)
  {
    hide Bytes, Swapped;
    match s.pc
    case LoopTest =>
    case Fill(i) =>
    case SetDescriptor =>
    case Wait =>
    case CopyDescriptor =>
    case SetBusy =>
    case Start =>
    case Swap =>
    case FinalWait =>
    case Returned =>
  }

  lemma CpuFills(s: State, t: State)
    requires Control(s) && HalfFilled(s) && CpuStep(s, t)
    ensures Shape(t) && HalfFilled(t)
  {
    hide Bytes, Swapped;
    match s.pc
    case LoopTest =>
    case Fill(i) =>
    case SetDescriptor =>
    case Wait =>
    case CopyDescriptor =>
    case SetBusy =>
    case Start =>
    case Swap =>
    case FinalWait =>
    case Returned =>
  }

  lemma SwappedEqual(words: seq<uint16>, part: seq<uint16>)
    requires |words| == |part| && forall k | 0 <= k < |part| :: words[k] == Bswap(part[k])
    ensures words == Swapped(part)
  {
  }

  lemma StartInOrder(s: State, t: State, base: seq<byte>)
    requires Control(s) && HalfFilled(s) && InOrder(s, base) && CpuStep(s, t) && s.pc == Start
    ensures InOrder(t, base)
  {
    hide Bytes, Swapped;
    var part := s.colors[s.pos..s.pos + Count(s)];
    SwappedEqual(s.bufs[s.idx][0..0 + |part|], part);
    HalfBytes(s.bufs[s.idx], 0, Swapped(part));
    SwappedJoin(s.colors[..s.pos], part);
    assert s.colors[..s.pos] + part == s.colors[..s.pos + Count(s)];
    assert s.wire == s.wire + Pending(s);
    assert Pending(t) == Bytes(Swapped(part));
    var x, y := Bytes(Swapped(s.colors[..s.pos])), Bytes(Swapped(part));
    assert base + x + y == base + (x + y);
  }

  lemma CpuInOrder(s: State, t: State, base: seq<byte>)
    requires Control(s) && InOrder(s, base) && CpuStep(s, t) && s.pc != Start
    ensures InOrder(t, base)
  {
    hide Bytes, Swapped;
    assert Pending(t) == Pending(s);
    assert Launched(t) == Launched(s);
  }

  /** Every step of every interleaving keeps the invariant. */
  lemma StepKeepsInv(s: State, t: State, base: seq<byte>)
    requires Inv(s, base) && Next(s, t)
    ensures Inv(t, base)
  {
    if DmaStep(s, t) {
      DmaControl(s, t);
      DmaInOrder(s, t, base);
    } else {
      CpuControl(s, t);
      CpuFills(s, t);
      hide Control, HalfFilled, InOrder;
      if s.pc == Start {
        StartInOrder(s, t, base);
      } else {
        CpuInOrder(s, t, base);
      }
    }
  }

  lemma DmaControl(s: State, t: State)
    requires Control(s) && HalfFilled(s) && DmaStep(s, t)
    ensures Control(t) && HalfFilled(t)
  {
    hide Bytes;
  }

  // ---------------------------------------------------------------- whole runs

  /** A finite run: any interleaving of CPU and engine steps from an entry state. */
  ghost predicate IsRun(run: seq<State>) {
    && |run| > 0 && Entry(run[0])
    && (forall k | 0 <= k < |run| :: Shape(run[k]))
    && (forall k | 0 <= k < |run| - 1 :: Next(run[k], run[k + 1]))
  }

  lemma {:induction false} RunKeepsInv(run: seq<State>, k: nat)
    requires IsRun(run) && SafeEntry(run[0]) && k < |run|
    ensures Inv(run[k], run[0].wire + Pending(run[0]))
  {
    hide Inv, Entry, Shape;
    if k == 0 {
      EntryInv(run[0]);
    } else {
      RunKeepsInv(run, k - 1);
      StepKeepsInv(run[k - 1], run[k], run[0].wire + Pending(run[0]));
    }
  }

  lemma InvNoConflict(s: State, base: seq<byte>)
    requires Inv(s, base)
    ensures !Conflict(s)
  {
  }

  /** With a non-empty pixel array, no run can go wrong if and only if no transfer out of half 0
      is in flight on entry; the entry the documentation asks for, with none at all, is safe. */
  lemma SafeExactly(s: State)
    requires Entry(s) && s.colors != []
    ensures SafeEntry(s)
      <==> forall run: seq<State>, k: nat | IsRun(run) && run[0] == s && k < |run| :: !Conflict(run[k])
  {
    if SafeEntry(s) {
      forall run: seq<State>, k: nat | IsRun(run) && run[0] == s && k < |run| ensures !Conflict(run[k]) {
        RunKeepsInv(run, k);
        InvNoConflict(run[k], s.wire + Pending(s));
      }
    } else {
      var t := s.(pc := Fill(0));
      var run := [s, t];
      assert CpuStep(s, t) && IsRun(run) && Conflict(run[1]);
    }
  }

  /** When the call returns, everything promised has been sent or is still in flight, in order:
      the earlier transfer's bytes and then the byte-swapped pixels. A blocking call has sent it all. */
  lemma SentInOrder(run: seq<State>, k: nat)
    requires IsRun(run) && SafeEntry(run[0]) && k < |run| && run[k].pc == Returned
    ensures run[k].wire + Pending(run[k]) == run[0].wire + Pending(run[0]) + Bytes(Swapped(run[k].colors))
    ensures run[k].block ==> Pending(run[k]) == []
  {
    RunKeepsInv(run, k);
    assert run[k].colors[..|run[k].colors|] == run[k].colors;
  }

  /** Some step is always possible until the call has returned and the engine is idle. */
  lemma NoDeadlock(s: State, base: seq<byte>)
    requires Inv(s, base) && !(s.pc == Returned && !s.running)
    ensures exists t :: Next(s, t) && t != s
  {
    hide Bytes, Swapped;
    if s.running {
      var b := Bytes(s.bufs[s.dptr.half]);
      var t := if s.at < 2 * s.dptr.count then s.(wire := s.wire + [b[s.at]], at := s.at + 1)
          else s.(running := false, busy := false);
      assert DmaStep(s, t);
      assert Next(s, t) && t != s;
    } else {
      var t := match s.pc {
        case LoopTest => s.(pc := if s.pos < |s.colors| then Fill(0) else if s.block then FinalWait else Returned)
        case Fill(i) =>
          if i < Count(s) then
            s.(bufs := s.bufs[s.idx := Written(s.bufs[s.idx], i, Bswap(s.colors[s.pos + i]))], pc := Fill(i + 1))
          else s.(pc := SetDescriptor)
        case SetDescriptor => s.(descs := s.descs[s.idx := Transfer(s.idx, Count(s))], pc := Wait)
        case Wait => s.(pc := CopyDescriptor)
        case CopyDescriptor => s.(dptr := s.descs[s.idx], pc := SetBusy)
        case SetBusy => s.(busy := true, pc := Start)
        case Start => s.(running := true, at := 0, pc := Swap)
        case Swap => s.(idx := 1 - s.idx, pos := s.pos + Count(s), pc := LoopTest)
        case _ => s.(pc := Returned)
      };
      assert CpuStep(s, t) && t.pc != s.pc;
      assert Next(s, t) && t != s;
    }
  }

  /** How far the CPU is from the end of an iteration, or of the call. */
  function CpuRank(s: State): nat
    requires s.pc.Fill? ==> s.pc.i <= Count(s)
  {
    match s.pc
    case LoopTest => if s.pos < |s.colors| then Count(s) + 20 else 3
    case Fill(i) => Count(s) - i + 12
    case SetDescriptor => 9
    case Wait => 8
    case CopyDescriptor => 7
    case SetBusy => 6
    case Start => 5
    case Swap => 4
    case FinalWait => 2
    case Returned => 0
  }

  /** How far the engine is from the end of its transfer. */
  function EngineRank(s: State): nat
    requires Shape(s)
  {
    if s.running then 2 * s.dptr.count - s.at + 1 else 0
  }

  /** Pixels left, CPU and engine, in this order. */
  ghost predicate Nearer(s: State, t: State)
    requires Control(s) && Control(t)
  {
    || t.pos > s.pos
    || (t.pos == s.pos && CpuRank(t) < CpuRank(s))
    || (t.pos == s.pos && CpuRank(t) == CpuRank(s) && EngineRank(t) < EngineRank(s))
  }

  lemma CpuNearer(s: State, t: State)
    requires Control(s) && Control(t) && CpuStep(s, t) && t != s
    ensures t.colors == s.colors && t.pos <= |t.colors| && Nearer(s, t)
  {
    hide Bytes, Swapped, Written, EngineRank;
    match s.pc
    case LoopTest =>
    case Fill(i) =>
    case SetDescriptor =>
    case Wait =>
    case CopyDescriptor =>
    case SetBusy =>
    case Start =>
    case Swap =>
    case FinalWait =>
    case Returned =>
  }

  lemma EngineNearer(s: State, t: State)
    requires Control(s) && Control(t) && DmaStep(s, t)
    ensures t.colors == s.colors && t.pos <= |t.colors| && Nearer(s, t)
  {
    hide Bytes, Swapped;
  }

  /** Every step, except waiting, brings the call and the transfers nearer to their end, in a well-founded order: with
      the above, the call returns and everything is sent, however the steps interleave. */
  lemma StepsEnd(s: State, t: State, base: seq<byte>)
    requires Inv(s, base) && Next(s, t) && t != s
    ensures Inv(t, base) && t.colors == s.colors && t.pos <= |t.colors| && Nearer(s, t)
  {
    hide HalfFilled, InOrder, Nearer, CpuStep, DmaStep, Launched, Pending;
    StepKeepsInv(s, t, base);
    if CpuStep(s, t) {
      CpuNearer(s, t);
    } else {
      EngineNearer(s, t);
    }
  }

  /** The CPU goes on to fill the other half while the engine is still reading, and a call that is not blocking returns
      meanwhile: neither waits before it has to. */
  lemma Overlaps(s: State, base: seq<byte>)
    requires Inv(s, base) && s.pc == LoopTest && s.running
    ensures s.pos < |s.colors| ==> exists t :: CpuStep(s, t) && t.pc == Fill(0) && t.running && t.dptr.half == 1 - t.idx
    ensures s.pos == |s.colors| && !s.block ==> exists t :: CpuStep(s, t) && t.pc == Returned && t.running
  {
    hide Bytes, Swapped;
    var t := s.(pc := if s.pos < |s.colors| then Fill(0) else if s.block then FinalWait else Returned);
    assert CpuStep(s, t);
  }
}
