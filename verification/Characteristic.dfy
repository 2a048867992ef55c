/** The value protocol of a BLE characteristic: queued writes that are executed or cancelled, and
    long reads answered in chunks (BLEValue and BLECharacteristic::handleGATTServerEvent). */
module Characteristic {

  import opened Machine

  /** The GATT server events that touch the value, and the application setting it. An onWrite callback that does so is
      a Set right after its event, whose response does not depend on the value; an onRead callback is one right before
      the read. Other stands for all the rest. */
  datatype Event =
    | ExecWrite(execute: bool)
    | Write(handle: uint16, isPrep: bool, needRsp: bool, offset: uint16, data: seq<byte>)
    | Read(handle: uint16, isLong: bool, needRsp: bool, mtu: uint16)
    | Set(data: seq<byte>)
    | Other

  /** What is sent back: for an execute or cancel, for a write, and for a read, where it is a chunk or whatever lies
      beyond the value in memory. */
  datatype Response = NoResponse | Done | Echo(offset: uint16, data: seq<byte>) | Chunk(data: seq<byte>) | Overread {
    predicate ToRead() {
      Chunk? || Overread?
    }
  }

  /** Largest attribute part in one response. */
  function MaxOffset(mtu: uint16): uint16 {
    if mtu > 512 then 512 else (mtu + 65535) % 65536
  }

  /** The value, the parts queued by prepared writes, and the read offset. */
  datatype Value = Value(value: seq<byte>, queue: seq<byte>, offset: uint16)

  /** A characteristic's handle and ESP_GATT_MAX_ATTR_LEN. */
  datatype Config = Config(handle: uint16, maxLen: nat)

  /** The new value object and the response, for one event. */
  function Step(k: Config, v: Value, e: Event): (r: (Value, Response)) {
    match e
    case ExecWrite(execute) =>
      if !execute then (v.(queue := [], offset := 0), Done)
      else if v.queue == [] then (v, Done)
      else (Value(v.queue, [], 0), Done)
    case Write(h, isPrep, needRsp, offset, data) =>
      if h != k.handle then (v, NoResponse)
      else
        var rsp := if needRsp then Echo(offset, data) else NoResponse;
        if isPrep then (v.(queue := v.queue + data), rsp)
        else if |data| > k.maxLen then (v, rsp)
        else (v.(value := data), rsp)
    case Read(h, isLong, needRsp, mtu) =>
      if h != k.handle || !needRsp then (v, NoResponse)
      else if isLong then LongRead(v, MaxOffset(mtu))
      else FirstRead(v, MaxOffset(mtu))
    case Set(data) => (if |data| > k.maxLen then v else v.(value := data), NoResponse)
    case Other => (v, NoResponse)
  }

  function FirstRead(v: Value, m: uint16): (Value, Response) {
    if |v.value| + 1 > m then (v.(offset := m), Chunk(v.value[..m])) else (v, Chunk(v.value))
  }

  /** length - offset is computed unsigned: past the end it is huge, and memory beyond the value is sent. */
  function LongRead(v: Value, m: uint16): (Value, Response) {
    if |v.value| < v.offset then (v.(offset := (v.offset + m) % 65536), Overread)
    else if |v.value| - v.offset < m then (v.(offset := 0), Chunk(v.value[v.offset..]))
    else (v.(offset := (v.offset + m) % 65536), Chunk(v.value[v.offset..v.offset + m]))
  }

  // ---------------------------------------------------------------- the objects

  class BLEValue {
    var accumulation: seq<byte>
    var value: seq<byte>
    var readOffset: uint16

    constructor ()
      ensures Contents() == Value([], [], 0)
    {
      accumulation, value, readOffset := [], [], 0;
    }

    function Contents(): Value
      reads this
    {
      Value(value, accumulation, readOffset)
    }

    method AddPart(part: seq<byte>)
      modifies this
      ensures Contents() == old(Contents()).(queue := old(accumulation) + part)
    {
      accumulation := accumulation + part;
    }

    method Cancel()
      modifies this
      ensures Contents() == Value(old(value), [], 0)
    {
      accumulation := [];
      readOffset := 0;
    }

    method Commit()
      modifies this
      ensures Contents() == if old(accumulation) == [] then old(Contents()) else Value(old(accumulation), [], 0)
    {
      if |accumulation| == 0 {
        return;
      }
      SetValue(accumulation);
      accumulation := [];
      readOffset := 0;
    }

    method SetValue(value: seq<byte>)
      modifies this
      ensures Contents() == old(Contents()).(value := value)
    {
      this.value := value;
    }

    method SetReadOffset(readOffset: uint16)
      modifies this
      ensures Contents() == old(Contents()).(offset := readOffset)
    {
      this.readOffset := readOffset;
    }
  }

  class BLECharacteristic {
    const attrHandle: uint16
    const maxAttrLen: nat
    const stored: BLEValue

    constructor (handle: uint16, maxLen: nat)
      ensures fresh(stored) && attrHandle == handle && maxAttrLen == maxLen
      ensures stored.Contents() == Value([], [], 0)
    {
      attrHandle, maxAttrLen := handle, maxLen;
      stored := new BLEValue();
    }

    function Settings(): Config {
      Config(attrHandle, maxAttrLen)
    }

    /** Longer values are refused. */
    method SetValue(data: seq<byte>)
      modifies stored
      ensures stored.Contents() == Step(Settings(), old(stored.Contents()), Set(data)).0
    {
      if |data| > maxAttrLen {
        return;
      }
      stored.SetValue(data);
    }

    /** handleGATTServerEvent, with the application's calls in between, does what Step says. */
    method HandleEvent(e: Event) returns (rsp: Response)
      modifies stored
      ensures (stored.Contents(), rsp) == Step(Settings(), old(stored.Contents()), e)
    {
      rsp := NoResponse;
      match e
      case ExecWrite(execute) =>
        if execute {
          stored.Commit();
        } else {
          stored.Cancel();
        }
        rsp := Done;
      case Write(handle, isPrep, needRsp, offset, data) =>
        if handle == attrHandle {
          if isPrep {
            stored.AddPart(data);
          } else {
            SetValue(data);
          }
          if needRsp {
            rsp := Echo(offset, data);
          }
        }
      case Read(handle, isLong, needRsp, mtu) =>
        if handle == attrHandle && needRsp {
          rsp := AnswerRead(isLong, mtu);
        }
      case Set(data) => SetValue(data);
      case Other =>
    }

    method AnswerRead(isLong: bool, mtu: uint16) returns (rsp: Response)
      modifies stored
      ensures (stored.Contents(), rsp)
        == if isLong then LongRead(old(stored.Contents()), MaxOffset(mtu))
            else FirstRead(old(stored.Contents()), MaxOffset(mtu))
    {
      var maxOffset := if mtu > 512 then 512 else (mtu - 1) % 65536;
      var value := stored.value;
      var offset := stored.readOffset;
      if isLong {
        if offset <= |value| && |value| - offset < maxOffset {
          rsp := Chunk(value[offset..]);
          stored.SetReadOffset(0);
        } else {
          rsp := if offset <= |value| then Chunk(value[offset..offset + maxOffset]) else Overread;
          stored.SetReadOffset((offset + maxOffset) % 65536);
        }
      } else if |value| + 1 > maxOffset {
        stored.SetReadOffset(maxOffset);
        rsp := Chunk(value[..maxOffset]);
      } else {
        rsp := Chunk(value);
      }
    }
  }

  // ---------------------------------------------------------------- what is answered

  /** No response carries as much as the MTU or more than 512 bytes. */
  lemma ChunkFits(k: Config, v: Value, e: Event)
    requires e.Read? && e.mtu > 0
    ensures var r := Step(k, v, e).1; r.Chunk? ==> |r.data| < e.mtu && |r.data| <= 512
  {
  }

  /** A first read gets the beginning of the value, as much as the MTU and 512 bytes allow, and sets the read offset to
      what it got only when that is all that fits. */
  lemma FirstReadAnswered(k: Config, v: Value, mtu: uint16)
    requires mtu > 0
    ensures var room := if mtu <= 512 then mtu - 1 else 512;
      Step(k, v, Read(k.handle, false, true, mtu)) ==
        if |v.value| >= room then (v.(offset := room), Chunk(v.value[..room])) else (v, Chunk(v.value))
  {
    assert v.value[..|v.value|] == v.value;
  }

  /** A follow-on read gets as much of the rest; a response that is not full resets the read offset. From an offset
      beyond the value it is full, and not of the value. */
  lemma FollowOnAnswered(k: Config, v: Value, mtu: uint16)
    requires mtu > 0
    ensures var room := if mtu <= 512 then mtu - 1 else 512;
      var next := if v.offset + room < 65536 then v.offset + room else v.offset + room - 65536;
      Step(k, v, Read(k.handle, true, true, mtu)) ==
        if v.offset > |v.value| then (v.(offset := next), Overread)
        else if |v.value| - v.offset >= room then
          (v.(offset := next), Chunk(v.value[v.offset..v.offset + room]))
        else (v.(offset := 0), Chunk(v.value[v.offset..]))
  {
  }

  /** A write is answered with its own offset and data if and only if it is for this characteristic and asks for it, an
      execute or cancel always, a read if and only if it is for this characteristic and asks for it. */
  lemma WhenAnswered(k: Config, v: Value, e: Event)
    ensures var r := Step(k, v, e).1;
      && (r.Echo? <==> e.Write? && e.handle == k.handle && e.needRsp)
      && (r.Echo? ==> r == Echo(e.offset, e.data))
      && (r == Done <==> e.ExecWrite?)
      && (r.ToRead() <==> e.Read? && e.handle == k.handle && e.needRsp)
  {
  }

  /** Only reads move the read offset, other than back to the start. */
  lemma OffsetMoves(k: Config, v: Value, e: Event)
    ensures var u := Step(k, v, e).0;
      && (u.offset != v.offset ==> u.offset == 0 || Step(k, v, e).1.ToRead())
      && (e.ExecWrite? && (!e.execute || v.queue != []) ==> u.offset == 0)
      && (e == ExecWrite(true) && v.queue == [] ==> u == v)
  {
  }

  // ---------------------------------------------------------------- queued writes

  /** The value object after a history of events. */
  function After(k: Config, history: seq<Event>): Value {
    if history == [] then Value([], [], 0)
    else Step(k, After(k, history[..|history| - 1]), history[|history| - 1]).0
  }

  /** The parts queued for this characteristic by a stretch of events, in arrival order. */
  function Parts(k: Config, events: seq<Event>): seq<byte> {
    if events == [] then []
    else
      var e := events[|events| - 1];
      Parts(k, events[..|events| - 1]) + if e.Write? && e.handle == k.handle && e.isPrep then e.data else []
  }

  /** Where the stretch since the last execute or cancel begins. */
  function LastFlush(history: seq<Event>): (n: nat)
    ensures n <= |history|
    ensures n > 0 ==> history[n - 1].ExecWrite?
    ensures forall i | n <= i < |history| :: !history[i].ExecWrite?
  {
    if history == [] then 0
    else if history[|history| - 1].ExecWrite? then |history|
    else LastFlush(history[..|history| - 1])
  }

  /** The queue always holds the parts that arrived since the last execute or cancel. */
  lemma {:induction false} QueueSinceFlush(k: Config, history: seq<Event>)
    ensures After(k, history).queue == Parts(k, history[LastFlush(history)..])
  {
    if history != [] {
      var n := |history| - 1;
      var front, e := history[..n], history[n];
      QueueSinceFlush(k, front);
      if e.ExecWrite? {
        assert history[LastFlush(history)..] == [];
      } else {
        var since := history[LastFlush(history)..];
        assert since[..|since| - 1] == front[LastFlush(front)..];
        if since[..|since| - 1] == [] {
          assert Parts(k, since[..|since| - 1]) == [];
        }
      }
    }
  }

  /** Execute sets the value to everything queued since the last execute or cancel, or leaves it when
      nothing was; cancel leaves it; both empty the queue. */
  lemma ExecuteAndCancel(k: Config, history: seq<Event>)
    ensures var queued := Parts(k, history[LastFlush(history)..]);
      var (before, executed, cancelled) :=
        (After(k, history), After(k, history + [ExecWrite(true)]), After(k, history + [ExecWrite(false)]));
      && executed == (if queued == [] then before else Value(queued, [], 0))
      && cancelled == Value(before.value, [], 0) && (queued == [] <==> before.queue == [])
  {
    QueueSinceFlush(k, history);
    assert (history + [ExecWrite(true)])[..|history|] == history;
    assert (history + [ExecWrite(false)])[..|history|] == history;
  }

  /** A value that setValue takes, from a plain write or from the application. */
  predicate Accepted(k: Config, e: Event) {
    (e.Set? || (e.Write? && e.handle == k.handle && !e.isPrep)) && |e.data| <= k.maxLen
  }

  /** The value as a history alone determines it: what the last accepted value was, or what the last execute with
      anything queued found queued. */
  function LastSet(k: Config, history: seq<Event>): seq<byte> {
    if history == [] then []
    else
      var front, e := history[..|history| - 1], history[|history| - 1];
      var queued := Parts(k, front[LastFlush(front)..]);
      if Accepted(k, e) then e.data
      else if e == ExecWrite(true) && queued != [] then queued
      else LastSet(k, front)
  }

  /** Nothing but an accepted value and an execute ever changes the value. */
  lemma {:induction false} ValueOfHistory(k: Config, history: seq<Event>)
    ensures After(k, history).value == LastSet(k, history)
  {
    if history != [] {
      var front := history[..|history| - 1];
      ValueOfHistory(k, front);
      QueueSinceFlush(k, front);
      hide Parts, LastFlush;
    }
  }

  // ---------------------------------------------------------------- long reads

  /** The responses to reads that are sent while a stretch of events is handled, in order. */
  function Replies(k: Config, v: Value, events: seq<Event>): seq<Response>
    decreases |events|
  {
    if events == [] then []
    else
      var (v', r) := Step(k, v, events[0]);
      (if r.ToRead() then [r] else []) + Replies(k, v', events[1..])
  }

  /** An event that may come between the parts of a long read without disturbing it. */
  predicate Quiet(k: Config, e: Event) {
    match e
    case ExecWrite(_) => false
    case Write(_, _, _, _, _) => !Accepted(k, e)
    case Read(h, _, needRsp, _) => h != k.handle || !needRsp
    case Set(_) => !Accepted(k, e)
    case Other => true
  }

  /** Further parts of a long read, with quiet events in between. */
  predicate LongReads(k: Config, mtu: uint16, events: seq<Event>) {
    forall e | e in events :: Quiet(k, e) || e == Read(k.handle, true, true, mtu)
  }

  /** A client reads on until a response is shorter than m. */
  predicate UntilShort(replies: seq<Response>, m: nat) {
    && |replies| > 0
    && (forall r | r in replies :: r.Chunk?)
    && (forall i | 0 <= i < |replies| - 1 :: |replies[i].data| >= m)
    && |replies[|replies| - 1].data| < m
  }

  function Joined(replies: seq<Response>): seq<byte>
    requires forall r | r in replies :: r.Chunk?
  {
    if replies == [] then [] else replies[0].data + Joined(replies[1..])
  }

  /** Responses needed for n bytes when only full responses of m bytes ask for another one. */
  function ResponseCount(n: nat, m: nat): nat
    requires m > 0
  {
    n / m + 1
  }

  /** The last offset asked for, when reading on from an offset, is one that 16 bits can hold. */
  predicate OffsetsFit(size: nat, offset: nat, m: nat)
    requires offset <= size
  {
    m > 0 && offset + (size - offset) / m * m < 65536
  }

  lemma DivStep(a: nat, m: nat)
    requires 0 < m
    ensures a < m ==> ResponseCount(a, m) == 1 && a / m * m == 0
    ensures a >= m ==> ResponseCount(a, m) == ResponseCount(a - m, m) + 1 && a / m * m == (a - m) / m * m + m >= m
  {
    if a < m {
      DivUnique(a, m, 0);
    } else {
      var q := (a - m) / m;
      assert q * m <= a - m < q * m + m;
      assert (q + 1) * m == q * m + m;
      DivUnique(a, m, q + 1);
      Apart(0, q, m);
    }
  }

  /** A full response moves the offset on, and past 16 bits it starts again further down. */
  lemma FitStep(size: nat, offset: uint16, m: uint16)
    requires 0 < m && offset <= size
    ensures size - offset < m ==> OffsetsFit(size, offset, m)
    ensures size - offset >= m ==>
      var next := (offset + m) % 65536;
      && next <= size
      && (next == offset + m ==> (OffsetsFit(size, next, m) <==> OffsetsFit(size, offset, m)))
      && (next != offset + m ==> next < offset && !OffsetsFit(size, offset, m))
  {
    DivStep(size - offset, m);
    if size - offset >= m {
      assert size - (offset + m) == size - offset - m;
    }
  }

  lemma OnlyReply(r: Response, rest: seq<Response>, m: nat)
    requires UntilShort([r] + rest, m) && r.Chunk? && |r.data| < m
    ensures rest == []
  {
    var all := [r] + rest;
    assert all[0] == r;
  }

  lemma TailUntilShort(r: Response, rest: seq<Response>, m: nat)
    requires UntilShort([r] + rest, m) && r.Chunk? && |r.data| >= m
    ensures UntilShort(rest, m)
  {
    var all := [r] + rest;
    assert all[0] == r && all[|all| - 1] == if rest == [] then r else rest[|rest| - 1];
    forall x | x in rest ensures x.Chunk? {
      assert x in all;
    }
    forall i | 0 <= i < |rest| - 1 ensures |rest[i].data| >= m {
      assert all[i + 1] == rest[i];
    }
  }

  lemma QuietStep(k: Config, v: Value, e: Event)
    requires Quiet(k, e)
    ensures var (v', r) := Step(k, v, e);
      v'.value == v.value && v'.offset == v.offset && !r.ToRead()
  {
  }

  lemma LongStep(k: Config, v: Value, mtu: uint16)
    requires v.offset <= |v.value|
    ensures var m := MaxOffset(mtu);
      var (v', r) := Step(k, v, Read(k.handle, true, true, mtu));
      && r.Chunk? && r.ToRead() && v'.value == v.value
      && (if |v.value| - v.offset < m then r.data == v.value[v.offset..]
          else r.data == v.value[v.offset..v.offset + m] && v'.offset == (v.offset + m) % 65536)
  {
  }

  lemma RepliesStep(k: Config, v: Value, events: seq<Event>)
    requires events != []
    ensures var (v', r) := Step(k, v, events[0]);
      Replies(k, v, events) == (if r.ToRead() then [r] else []) + Replies(k, v', events[1..])
  {
  }

  lemma JoinedStep(r: Response, rest: seq<Response>)
    requires r.Chunk? && forall x | x in rest :: x.Chunk?
    ensures forall x | x in [r] + rest :: x.Chunk?
    ensures Joined([r] + rest) == r.data + Joined(rest)
    ensures Joined([]) == []
  {
    assert ([r] + rest)[1..] == rest;
  }

  lemma TailOfRun(k: Config, mtu: uint16, events: seq<Event>)
    requires LongReads(k, mtu, events) && events != []
    ensures LongReads(k, mtu, events[1..])
    ensures Quiet(k, events[0]) || events[0] == Read(k.handle, true, true, mtu)
  {
    assert events[0] in events;
  }

  lemma NoRepliesYet(k: Config, v: Value, m: nat)
    ensures !UntilShort(Replies(k, v, []), m)
  {
  }

  /** From a valid offset, long reads that end deliver the rest of the value, or more when the offset wraps. */
  lemma {:induction false} LongReadsDeliver(k: Config, v: Value, mtu: uint16, events: seq<Event>)
    requires LongReads(k, mtu, events) && MaxOffset(mtu) > 0
    requires v.offset <= |v.value|
    requires UntilShort(Replies(k, v, events), MaxOffset(mtu))
    ensures forall r | r in Replies(k, v, events) :: r.Chunk?
    ensures OffsetsFit(|v.value|, v.offset, MaxOffset(mtu)) ==>
      && Joined(Replies(k, v, events)) == v.value[v.offset..]
      && |Replies(k, v, events)| == ResponseCount(|v.value| - v.offset, MaxOffset(mtu))
    ensures !OffsetsFit(|v.value|, v.offset, MaxOffset(mtu)) ==>
      |Joined(Replies(k, v, events))| > |v.value| - v.offset
    decreases |events|
  {
    hide *;
    var m := MaxOffset(mtu);
    NoRepliesYet(k, v, m);
    ShortIsChunks(Replies(k, v, events), m);
    TailOfRun(k, mtu, events);
    RepliesStep(k, v, events);
    var (v', r) := Step(k, v, events[0]);
    var rest := Replies(k, v', events[1..]);
    if Quiet(k, events[0]) {
      QuietStep(k, v, events[0]);
      assert [] + rest == rest;
      LongReadsDeliver(k, v', mtu, events[1..]);
    } else {
      LongStep(k, v, mtu);
      DivStep(|v.value| - v.offset, m);
      FitStep(|v.value|, v.offset, m);
      if |v.value| - v.offset < m {
        OnlyReply(r, rest, m);
        JoinedStep(r, []);
      } else {
        TailUntilShort(r, rest, m);
        LongReadsDeliver(k, v', mtu, events[1..]);
        JoinedStep(r, rest);
      }
    }
  }

  lemma ShortIsChunks(rs: seq<Response>, m: nat)
    requires UntilShort(rs, m)
    ensures forall r | r in rs :: r.Chunk?
  {
  }

  lemma FirstStep(k: Config, v: Value, mtu: uint16)
    ensures var m := MaxOffset(mtu);
      var (v', r) := Step(k, v, Read(k.handle, false, true, mtu));
      && r.Chunk? && r.ToRead() && v'.value == v.value
      && (if |v.value| < m then r.data == v.value else r.data == v.value[..m] && v'.offset == m)
  {
  }

  /** The follow-on reads in a stretch of events. */
  function ReadCount(k: Config, mtu: uint16, events: seq<Event>): nat
    decreases |events|
  {
    if events == [] then 0
    else (if events[0] == Read(k.handle, true, true, mtu) then 1 else 0) + ReadCount(k, mtu, events[1..])
  }

  lemma ReadNotQuiet(k: Config, mtu: uint16)
    ensures !Quiet(k, Read(k.handle, true, true, mtu))
  {
  }

  /** Each follow-on read is answered, and nothing else is. */
  lemma {:induction false} RepliesCounted(k: Config, v: Value, mtu: uint16, events: seq<Event>)
    requires LongReads(k, mtu, events)
    ensures |Replies(k, v, events)| == ReadCount(k, mtu, events)
    decreases |events|
  {
    hide Quiet;
    if events != [] {
      TailOfRun(k, mtu, events);
      RepliesStep(k, v, events);
      var (v', r) := Step(k, v, events[0]);
      RepliesCounted(k, v', mtu, events[1..]);
      ReadNotQuiet(k, mtu);
      if Quiet(k, events[0]) {
        QuietStep(k, v, events[0]);
      }
    }
  }

  lemma JoinUntilShort(r: Response, rest: seq<Response>, m: nat)
    requires r.Chunk? && |r.data| >= m && UntilShort(rest, m)
    ensures UntilShort([r] + rest, m)
  {
    var all := [r] + rest;
    assert forall i | 0 < i < |all| :: all[i] == rest[i - 1];
  }

  lemma ShortAlone(r: Response, m: nat)
    requires r.Chunk? && |r.data| < m
    ensures UntilShort([r], m)
  {
  }

  /** From a valid offset, exactly the computed number of follow-on reads ends with a short response. */
  lemma {:induction false} LongReadsEnd(k: Config, v: Value, mtu: uint16, events: seq<Event>)
    requires LongReads(k, mtu, events) && MaxOffset(mtu) > 0
    requires v.offset <= |v.value| && OffsetsFit(|v.value|, v.offset, MaxOffset(mtu))
    requires ReadCount(k, mtu, events) == ResponseCount(|v.value| - v.offset, MaxOffset(mtu))
    ensures UntilShort(Replies(k, v, events), MaxOffset(mtu))
    decreases |events|
  {
    hide Step, Replies, MaxOffset, ResponseCount, Quiet, UntilShort, LongReads, OffsetsFit;
    var m := MaxOffset(mtu);
    DivStep(|v.value| - v.offset, m);
    FitStep(|v.value|, v.offset, m);
    TailOfRun(k, mtu, events);
    RepliesStep(k, v, events);
    var (v', r) := Step(k, v, events[0]);
    var rest := Replies(k, v', events[1..]);
    ReadNotQuiet(k, mtu);
    if Quiet(k, events[0]) {
      QuietStep(k, v, events[0]);
      assert [] + rest == rest;
      LongReadsEnd(k, v', mtu, events[1..]);
    } else {
      LongStep(k, v, mtu);
      if |v.value| - v.offset < m {
        RepliesCounted(k, v', mtu, events[1..]);
        assert [r] + rest == [r];
        ShortAlone(r, m);
      } else {
        LongReadsEnd(k, v', mtu, events[1..]);
        JoinUntilShort(r, rest, m);
      }
    }
  }

  lemma NothingShort(rs: seq<Response>)
    ensures !UntilShort(rs, 0)
  {
  }

  /** From a valid offset, follow-on reads end with a short response and have then delivered the rest of the value, if
      and only if their number is the computed one and the offset stays below 2^16 on the way. */
  lemma LongReadsExactly(k: Config, v: Value, mtu: uint16, events: seq<Event>)
    requires LongReads(k, mtu, events) && v.offset <= |v.value|
    ensures var (replies, m, n) := (Replies(k, v, events), MaxOffset(mtu), |v.value|);
      && (UntilShort(replies, m) && Joined(replies) == v.value[v.offset..]
          <==> OffsetsFit(n, v.offset, m) && ReadCount(k, mtu, events) == ResponseCount(n - v.offset, m))
      && (UntilShort(replies, m) ==> (Joined(replies) == v.value[v.offset..] <==> OffsetsFit(n, v.offset, m)))
      && |replies| == ReadCount(k, mtu, events)
  {
    hide Step, Replies, MaxOffset, ResponseCount, Quiet, LongReads, ReadCount;
    var (replies, m, n) := (Replies(k, v, events), MaxOffset(mtu), |v.value|);
    RepliesCounted(k, v, mtu, events);
    if UntilShort(replies, m) {
      LongReadsDeliver(k, v, mtu, events);
    }
    if OffsetsFit(n, v.offset, m) && ReadCount(k, mtu, events) == ResponseCount(n - v.offset, m) {
      LongReadsEnd(k, v, mtu, events);
    }
  }

  /** A client that reads, and reads on until a response is shorter than m, the bytes that fit its MTU, then has the
      whole value, if and only if it makes |value| / m follow-on reads and the last of them is at an offset below 2^16.
      Events that leave the value and the offset alone may come in between. */
  lemma LongReadDelivers(k: Config, v: Value, mtu: uint16, follow: seq<Event>)
    requires LongReads(k, mtu, follow)
    ensures var events := [Read(k.handle, false, true, mtu)] + follow;
      var m := if mtu == 0 then 65535 else if mtu <= 512 then mtu - 1 else 512;
      var (replies, n) := (Replies(k, v, events), |v.value|);
      && (UntilShort(replies, m) && Joined(replies) == v.value
          <==> OffsetsFit(n, 0, m) && ReadCount(k, mtu, follow) == n / m)
      && (UntilShort(replies, m) ==> (Joined(replies) == v.value <==> OffsetsFit(n, 0, m)))
      && |replies| == ReadCount(k, mtu, follow) + 1
  {
    hide Step, Replies, MaxOffset, ResponseCount, Quiet, UntilShort, LongReads, ReadCount, OffsetsFit;
    var m, events := MaxOffset(mtu), [Read(k.handle, false, true, mtu)] + follow;
    RoomIs(mtu);
    assert events[1..] == follow;
    RepliesStep(k, v, events);
    FirstStep(k, v, mtu);
    var (v', r) := Step(k, v, events[0]);
    var rest := Replies(k, v', follow);
    RepliesCounted(k, v', mtu, follow);
    FirstOfMany(m, |v.value|);
    if m == 0 {
      NothingShort([r] + rest);
    } else if |v.value| < m {
      if rest == [] {
        assert [r] + rest == [r];
        ShortAlone(r, m);
        JoinedStep(r, []);
        ShortIsChunks([r], m);
      } else if UntilShort([r] + rest, m) {
        OnlyReply(r, rest, m);
      }
    } else {
      LongReadsExactly(k, v', mtu, follow);
      if UntilShort([r] + rest, m) {
        TailUntilShort(r, rest, m);
        JoinedStep(r, rest);
        ShortIsChunks([r] + rest, m);
        HeadAndRest(v.value, m, Joined(rest));
      }
      if UntilShort(rest, m) {
        JoinUntilShort(r, rest, m);
        ShortIsChunks(rest, m);
        JoinedStep(r, rest);
        HeadAndRest(v.value, m, Joined(rest));
      }
    }
  }

  lemma RoomIs(mtu: uint16)
    ensures MaxOffset(mtu) == if mtu == 0 then 65535 else if mtu <= 512 then mtu - 1 else 512
  {
  }

  lemma HeadAndRest(value: seq<byte>, m: nat, rest: seq<byte>)
    requires m <= |value|
    ensures value[..m] + rest == value <==> rest == value[m..]
  {
    if value[..m] + rest == value {
      assert rest == (value[..m] + rest)[m..];
    }
  }

  /** While m bytes are left at every 16-bit offset, no response is short. */
  lemma {:induction false} NeverShort(k: Config, v: Value, mtu: uint16, events: seq<Event>)
    requires LongReads(k, mtu, events) && |v.value| >= 65535 + MaxOffset(mtu)
    ensures forall r <- Replies(k, v, events) :: r.Chunk? && |r.data| == MaxOffset(mtu)
    decreases |events|
  {
    hide Step, Replies, MaxOffset, Quiet, LongReads;
    if events == [] {
      NoReplies(k, v);
    } else {
      TailOfRun(k, mtu, events);
      RepliesStep(k, v, events);
      LongStep(k, v, mtu);
      if Quiet(k, events[0]) {
        QuietStep(k, v, events[0]);
      }
      NeverShort(k, Step(k, v, events[0]).0, mtu, events[1..]);
    }
  }

  lemma NoReplies(k: Config, v: Value)
    ensures Replies(k, v, []) == []
  {
  }

  /** Prepared writes of the same part, one after another. */
  lemma {:induction false} PartsPile(k: Config, w: Event, n: nat)
    requires w.Write? && w.handle == k.handle && w.isPrep
    ensures var v := After(k, seq(n, _ => w)); v.value == [] && |v.queue| == n * |w.data| && v.offset == 0
  {
    if n > 0 {
      assert seq(n, _ => w)[..n - 1] == seq(n - 1, _ => w);
      PartsPile(k, w, n - 1);
    }
  }

  /** The failing input: 129 prepared writes of 512 bytes and an execute make a value of 66048 bytes. No client that
      reads on in parts of 512 bytes ever comes to its end. */
  lemma LongReadEndless(events: seq<Event>)
    requires LongReads(Config(1, 600), 517, events)
    ensures var (k, part) := (Config(1, 600), Write(1, true, true, 0, seq(512, _ => 7)));
      var v := After(k, seq(129, _ => part) + [ExecWrite(true)]);
      && |v.value| == 66048 && MaxOffset(517) == 512
      && !UntilShort(Replies(k, v, [Read(1, false, true, 517)] + events), 512)
  {
    hide Replies, LongReads;
    var (k, part) := (Config(1, 600), Write(1, true, true, 0, seq(512, _ => 7)));
    var parts := seq(129, _ => part);
    PartsPile(k, part, 129);
    assert (parts + [ExecWrite(true)])[..129] == parts;
    var v := After(k, parts + [ExecWrite(true)]);
    assert v == Step(k, After(k, parts), ExecWrite(true)).0;
    hide After;
    var all := [Read(1, false, true, 517)] + events;
    assert all[1..] == events;
    RepliesStep(k, v, all);
    FirstStep(k, v, 517);
    NeverShort(k, Step(k, v, all[0]).0, 517, events);
  }

  lemma FirstOfMany(m: nat, n: nat)
    ensures m > 0 && n < m ==> n / m == 0 && OffsetsFit(n, 0, m)
    ensures m > 0 && n >= m ==> ResponseCount(n - m, m) == n / m && (OffsetsFit(n, m, m) <==> OffsetsFit(n, 0, m))
    ensures !OffsetsFit(n, 0, 0)
  {
    if m > 0 {
      DivStep(n, m);
    }
  }

  // ---------------------------------------------------------------- where the read offset leaves the value

  /** An accepted value of fewer bytes than have been read. */
  predicate CutsShort(k: Config, v: Value, e: Event) {
    Accepted(k, e) && |e.data| < v.offset
  }

  /** One event keeps the offset within the value exactly when it does not cut the value short. */
  lemma OffsetStep(k: Config, v: Value, e: Event)
    requires v.offset <= |v.value|
    ensures Step(k, v, e).0.offset <= |Step(k, v, e).0.value| <==> !CutsShort(k, v, e)
  {
  }

  /** The offset is within the value after every prefix of a history. */
  ghost predicate OffsetValid(k: Config, history: seq<Event>) {
    forall i | 0 <= i <= |history| :: After(k, history[..i]).offset <= |After(k, history[..i]).value|
  }

  ghost predicate NeverCutShort(k: Config, history: seq<Event>) {
    forall i | 0 <= i < |history| :: !CutsShort(k, After(k, history[..i]), history[i])
  }

  lemma AfterStep(k: Config, front: seq<Event>, e: Event)
    ensures After(k, front + [e]) == Step(k, After(k, front), e).0
  {
    assert (front + [e])[..|front|] == front;
  }

  lemma Prefixes(k: Config, front: seq<Event>, e: Event)
    ensures OffsetValid(k, front + [e])
      <==> OffsetValid(k, front) && After(k, front + [e]).offset <= |After(k, front + [e]).value|
    ensures NeverCutShort(k, front + [e]) <==> NeverCutShort(k, front) && !CutsShort(k, After(k, front), e)
    ensures OffsetValid(k, front) ==> After(k, front).offset <= |After(k, front).value|
    ensures After(k, front + [e]) == Step(k, After(k, front), e).0
  {
    hide After, CutsShort, Step;
    AfterStep(k, front, e);
    var all := front + [e];
    assert all[..|front|] == front && all[..|all|] == all && front[..|front|] == front;
    assert forall i | 0 <= i <= |front| :: all[..i] == front[..i];
    assert forall i | 0 <= i < |front| :: all[i] == front[i];
  }

  /** Over a whole history the offset never leaves the value, if and only if no accepted value is shorter than what has
      been read when it arrives. */
  lemma {:induction false} OffsetWithinValue(k: Config, history: seq<Event>)
    ensures OffsetValid(k, history) <==> NeverCutShort(k, history)
  {
    hide CutsShort, Step;
    if history == [] {
      assert history[..0] == [];
    } else {
      var front, e := history[..|history| - 1], history[|history| - 1];
      assert history == front + [e];
      hide After, OffsetValid, NeverCutShort;
      Prefixes(k, front, e);
      OffsetWithinValue(k, front);
      if OffsetValid(k, front) {
        OffsetStep(k, After(k, front), e);
      }
    }
  }

  /** Memory beyond the value is sent for exactly one kind of event in exactly one kind of state. */
  lemma OverreadStep(k: Config, v: Value, e: Event)
    ensures Step(k, v, e).1 == Overread
      <==> e.Read? && e.handle == k.handle && e.needRsp && e.isLong && v.offset > |v.value|
  {
  }

  /** Whatever event comes after any prefix of a history, it is not answered from beyond the value. */
  ghost predicate NeverOverread(k: Config, history: seq<Event>) {
    forall i, e | 0 <= i <= |history| :: Step(k, After(k, history[..i]), e).1 != Overread
  }

  /** No read could be answered from beyond the value at any point of a history, if and only if nothing in it cuts the
      value short. */
  lemma OverreadExactly(k: Config, history: seq<Event>)
    ensures NeverOverread(k, history) <==> NeverCutShort(k, history)
  {
    hide After, Step, NeverCutShort;
    OffsetWithinValue(k, history);
    var follow := Read(k.handle, true, true, 23);
    if NeverOverread(k, history) {
      forall i | 0 <= i <= |history|
        ensures After(k, history[..i]).offset <= |After(k, history[..i]).value|
      {
        assert Step(k, After(k, history[..i]), follow).1 != Overread;
        OverreadStep(k, After(k, history[..i]), follow);
      }
    }
    if OffsetValid(k, history) {
      forall i, e | 0 <= i <= |history|
        ensures Step(k, After(k, history[..i]), e).1 != Overread
      {
        OverreadStep(k, After(k, history[..i]), e);
      }
    }
  }

  /** A value of thirty bytes half read, then overwritten by one byte. */
  lemma PlainWriteDisturbs()
    ensures var k := Config(1, 600);
      var long, short := Write(1, false, false, 0, seq(30, _ => 7)), Write(1, false, false, 0, [7]);
      var history := [long, Read(1, false, true, 23), short];
      After(k, history) == Value([7], [], 22)
  {
    var k := Config(1, 600);
    var v := seq(30, _ => 7);
    var h1 := [Write(1, false, false, 0, v)];
    var h2 := h1 + [Read(1, false, true, 23)];
    var h3 := h2 + [Write(1, false, false, 0, [7])];
    assert h1[..0] == [] && h2[..1] == h1 && h3[..2] == h2;
    assert After(k, h1) == Value(v, [], 0);
    assert After(k, h2) == Value(v, [], 22);
    assert h3 == [Write(1, false, false, 0, v), Read(1, false, true, 23), Write(1, false, false, 0, [7])];
  }
}
