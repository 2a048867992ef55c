/** The counter that two unsynchronised tasks update and a third one watches, load by load and store by store. */
module SharedCounter {

  /** The next access of the button task: buffer_status++; if (buffer_status > 4) buffer_status = 4; count++. */
  datatype Button = Idle | Store(loaded: int) | Test | Clamp | LoadCount | StoreCount(loaded: int)

  /** The next access of the decrement task: buffer_status--; if (buffer_status < 0) buffer_status = 0. */
  datatype Minus = Asleep | StoreLess(loaded: int) | TestLow | ClampLow

  /** The control task: the first wait, the loop, its look at the count, and the end. */
  datatype Control = Waiting | Watching | Counting | Completed

  datatype State = State(bufferStatus: int, count: int, button: Button, minus: Minus, control: Control, presses: nat)

  const START: State := State(0, 0, Idle, Asleep, Waiting, 0)

  /** Who runs next; Press is the button task finding its pin low. */
  datatype Turn = Press | ButtonTurn | MinusTurn | ControlTurn

  function ButtonStep(s: State): State {
    match s.button
    case Idle => s
    case Store(v) => s.(bufferStatus := v + 1, button := Test)
    case Test => s.(button := if s.bufferStatus > 4 then Clamp else LoadCount)
    case Clamp => s.(bufferStatus := 4, button := LoadCount)
    case LoadCount => s.(button := StoreCount(s.count))
    case StoreCount(v) => s.(count := v + 1, button := Idle, presses := s.presses + 1)
  }

  function MinusStep(s: State): State {
    match s.minus
    case Asleep => s.(minus := StoreLess(s.bufferStatus))
    case StoreLess(v) => s.(bufferStatus := v - 1, minus := TestLow)
    case TestLow => s.(minus := if s.bufferStatus < 0 then ClampLow else Asleep)
    case ClampLow => s.(bufferStatus := 0, minus := Asleep)
  }

  function ControlStep(s: State): State {
    match s.control
    case Waiting => if s.bufferStatus == 0 then s else s.(control := Watching)
    case Watching => if s.bufferStatus == 0 then s else s.(control := Counting)
    case Counting => s.(control := if s.count > 20 then Completed else Watching)
    case Completed => s
  }

  function Take(s: State, turn: Turn): State {
    match turn
    case Press => if s.button == Idle then s.(button := Store(s.bufferStatus)) else s
    case ButtonTurn => ButtonStep(s)
    case MinusTurn => MinusStep(s)
    case ControlTurn => ControlStep(s)
  }

  /** The state after any interleaving. */
  function Exec(s: State, turns: seq<Turn>): State
    decreases |turns|
  {
    if turns == [] then s else Exec(Take(s, turns[0]), turns[1..])
  }

  /** Only the task that has just stored out of range, and not yet clamped, can leave the counter out of range. */
  predicate Inv(s: State) {
    && -1 <= s.bufferStatus <= 5
    && (s.bufferStatus < 0 ==> s.minus.TestLow? || s.minus.ClampLow?)
    && (s.bufferStatus > 4 ==> s.button.Test? || s.button.Clamp?)
    && (s.button.Store? ==> -1 <= s.button.loaded <= 4)
    && (s.minus.StoreLess? ==> 0 <= s.minus.loaded <= 5)
    && s.count == s.presses
    && (s.button.StoreCount? ==> s.button.loaded == s.count)
    && (s.control.Completed? ==> s.presses >= 21)
  }

  lemma StepKeepsInv(s: State, turn: Turn)
    requires Inv(s)
    ensures Inv(Take(s, turn))
  {
  }

  lemma {:induction false} ExecKeepsInv(s: State, turns: seq<Turn>)
    requires Inv(s)
    ensures Inv(Exec(s, turns))
    decreases |turns|
  {
    if turns != [] {
      StepKeepsInv(s, turns[0]);
      ExecKeepsInv(Take(s, turns[0]), turns[1..]);
    }
  }

  predicate ButtonOutside(s: State) {
    s.button.Idle? || s.button.LoadCount? || s.button.StoreCount?
  }

  /** In every interleaving the counter stays within one of its range, is within it while both tasks are outside
      their update blocks, and completion needs 21 counted presses. */
  lemma CounterBounds(turns: seq<Turn>)
    ensures var s := Exec(START, turns);
      && -1 <= s.bufferStatus <= 5
      && (s.minus.Asleep? ==> 0 <= s.bufferStatus)
      && (ButtonOutside(s) ==> s.bufferStatus <= 4)
      && (s.control.Completed? ==> s.count == s.presses >= 21)
  {
    ExecKeepsInv(START, turns);
  }

  // ---------------------------------------------------------------- undisturbed blocks

  /** One undisturbed execution of an update block. */
  datatype Block = PressBlock | MinusBlock

  function Turns(s: State, b: Block): seq<Turn> {
    match b
    case PressBlock => [Press, ButtonTurn, ButtonTurn] + (if s.bufferStatus >= 4 then [ButtonTurn] else [])
        + [ButtonTurn, ButtonTurn]
    case MinusBlock => [MinusTurn, MinusTurn, MinusTurn] + (if s.bufferStatus <= 0 then [MinusTurn] else [])
  }

  function Saturated(v: int, b: Block): int {
    match b
    case PressBlock => if v < 4 then v + 1 else 4
    case MinusBlock => if v > 0 then v - 1 else 0
  }

  lemma {:induction false} ExecSplit(s: State, a: seq<Turn>, b: seq<Turn>)
    ensures Exec(s, a + b) == Exec(Exec(s, a), b)
    decreases |a|
  {
    if a == [] {
      assert a + b == b;
    } else {
      ExecSplit(Take(s, a[0]), a[1..], b);
      assert (a + b)[1..] == a[1..] + b;
    }
  }

  lemma Exec3(s: State, a: Turn, b: Turn, c: Turn)
    ensures Exec(s, [a, b, c]) == Take(Take(Take(s, a), b), c)
  {
    hide Take;
    assert [a, b, c][1..] == [b, c] && [b, c][1..] == [c] && [c][1..] == [];
    assert Exec(Take(Take(s, a), b), [c]) == Take(Take(Take(s, a), b), c);
  }

  lemma Exec1(s: State, a: Turn)
    ensures Exec(s, [a]) == Take(s, a)
  {
    assert [a][1..] == [];
  }

  /** Where a block ends when nothing interferes. */
  function Ended(s: State, b: Block): State {
    s.(bufferStatus := Saturated(s.bufferStatus, b),
       count := if b.PressBlock? then s.count + 1 else s.count,
       presses := if b.PressBlock? then s.presses + 1 else s.presses)
  }

  lemma PressSaturates(s: State)
    requires s.button.Idle? && 0 <= s.bufferStatus <= 4
    ensures Exec(s, Turns(s, PressBlock)) == Ended(s, PressBlock)
  {
    hide Exec;
    var clamp := if s.bufferStatus >= 4 then [ButtonTurn] else [];
    Exec3(s, Press, ButtonTurn, ButtonTurn);
    var u := Take(Take(Take(s, Press), ButtonTurn), ButtonTurn);
    ExecSplit(s, [Press, ButtonTurn, ButtonTurn], clamp);
    Exec1(u, ButtonTurn);
    var v := Exec(u, clamp);
    ExecSplit(s, [Press, ButtonTurn, ButtonTurn] + clamp, [ButtonTurn, ButtonTurn]);
    ExecSplit(v, [ButtonTurn], [ButtonTurn]);
    Exec1(v, ButtonTurn);
    Exec1(Take(v, ButtonTurn), ButtonTurn);
    Exec0(u);
    assert [ButtonTurn] + [ButtonTurn] == [ButtonTurn, ButtonTurn];
  }

  lemma MinusSaturates(s: State)
    requires s.minus.Asleep? && 0 <= s.bufferStatus <= 4
    ensures Exec(s, Turns(s, MinusBlock)) == Ended(s, MinusBlock)
  {
    hide Exec;
    Exec3(s, MinusTurn, MinusTurn, MinusTurn);
    var u := Take(Take(Take(s, MinusTurn), MinusTurn), MinusTurn);
    Exec1(u, MinusTurn);
    Exec0(u);
    ExecSplit(s, [MinusTurn, MinusTurn, MinusTurn], if s.bufferStatus <= 0 then [MinusTurn] else []);
  }

  lemma Exec0(s: State)
    ensures Exec(s, []) == s
  {
  }

  /** Without interference a block is a saturating step. */
  lemma BlockSaturates(s: State, b: Block)
    requires s.button.Idle? && s.minus.Asleep? && 0 <= s.bufferStatus <= 4
    ensures Exec(s, Turns(s, b)) == Ended(s, b)
  {
    hide *;
    if b == PressBlock {
      PressSaturates(s);
    } else {
      MinusSaturates(s);
    }
  }

  function AllTurns(s: State, bs: seq<Block>): seq<Turn>
    decreases |bs|
  {
    if bs == [] then [] else Turns(s, bs[0]) + AllTurns(Ended(s, bs[0]), bs[1..])
  }

  function AllSaturated(v: int, bs: seq<Block>): int
    decreases |bs|
  {
    if bs == [] then v else AllSaturated(Saturated(v, bs[0]), bs[1..])
  }

  function PressCount(bs: seq<Block>): nat {
    if bs == [] then 0 else (if bs[0].PressBlock? then 1 else 0) + PressCount(bs[1..])
  }

  /** Blocks that do not overlap make a saturating counter on 0..4 that counts every press. */
  lemma {:induction false} SerialSaturates(s: State, bs: seq<Block>)
    requires s.button.Idle? && s.minus.Asleep? && 0 <= s.bufferStatus <= 4
    ensures var t := Exec(s, AllTurns(s, bs));
      && t.bufferStatus == AllSaturated(s.bufferStatus, bs) && 0 <= t.bufferStatus <= 4
      && t.count == s.count + PressCount(bs)
      && t.button.Idle? && t.minus.Asleep? && t.control == s.control
    decreases |bs|
  {
    if bs != [] {
      BlockSaturates(s, bs[0]);
      SerialSaturates(Ended(s, bs[0]), bs[1..]);
      ExecSplit(s, Turns(s, bs[0]), AllTurns(Ended(s, bs[0]), bs[1..]));
    }
  }

  /** In any state, three turns of the control task complete exactly when enough presses are counted, unless the counter
      is 0, where it waits; fewer turns do not, since the counter is looked at twice. */
  lemma ControlCompletes(s: State)
    ensures var t := Exec(s, [ControlTurn, ControlTurn, ControlTurn]);
      && (s.bufferStatus != 0 ==> (t.control == Completed <==> s.count > 20 || s.control == Completed))
      && (s.bufferStatus == 0 && s.control != Counting ==> t == s)
    ensures s.control == Waiting ==> Exec(s, [ControlTurn] + [ControlTurn]).control != Completed
  {
    ExecSplit(s, [ControlTurn], [ControlTurn]);
    Exec1(s, ControlTurn);
    Exec1(Take(s, ControlTurn), ControlTurn);
    Exec3(s, ControlTurn, ControlTurn, ControlTurn);
  }

  /** Undisturbed updates lead the control task to completion exactly when they contain 21 presses and leave the counter
      above 0. */
  lemma SerialCompletes(bs: seq<Block>)
    ensures Exec(START, AllTurns(START, bs) + [ControlTurn, ControlTurn, ControlTurn]).control == Completed
      <==> AllSaturated(0, bs) > 0 && PressCount(bs) >= 21
  {
    SerialSaturates(START, bs);
    ExecSplit(START, AllTurns(START, bs), [ControlTurn, ControlTurn, ControlTurn]);
    ControlCompletes(Exec(START, AllTurns(START, bs)));
  }

  lemma {:induction false} PressesCount(v: nat, n: nat)
    requires v <= 4
    ensures var bs := seq(n, _ => PressBlock);
      AllSaturated(v, bs) == (if v + n < 4 then v + n else 4) && PressCount(bs) == n
    decreases n
  {
    if n > 0 {
      assert seq(n, _ => PressBlock)[1..] == seq(n - 1, _ => PressBlock);
      PressesCount(Saturated(v, PressBlock), n - 1);
    }
  }

  /** After n presses and nothing else, the control task completes exactly from the 21st on. */
  lemma TwentyOnePresses(n: nat)
    ensures var bs := seq(n, _ => PressBlock);
      Exec(START, AllTurns(START, bs) + [ControlTurn, ControlTurn, ControlTurn]).control == Completed <==> n >= 21
  {
    hide Exec, AllTurns;
    SerialCompletes(seq(n, _ => PressBlock));
    PressesCount(0, n);
  }

  /** Overlapping blocks lose an update: from 1, a press and a decrement, which cancel in either order, leave 0 or 2,
      depending on which task stores last. */
  lemma OverlapLosesUpdate(s: State)
    requires s.button.Idle? && s.minus.Asleep? && s.bufferStatus == 1
    ensures AllSaturated(1, [PressBlock, MinusBlock]) == 1 == AllSaturated(1, [MinusBlock, PressBlock])
    ensures var t := Exec(s, [Press, MinusTurn, ButtonTurn] + [ButtonTurn, ButtonTurn, ButtonTurn]
      + [MinusTurn, MinusTurn]);
      t == s.(bufferStatus := 0, count := s.count + 1, presses := s.presses + 1)
    ensures var t := Exec(s, [Press, MinusTurn, MinusTurn] + [MinusTurn, ButtonTurn, ButtonTurn]
      + [ButtonTurn, ButtonTurn]);
      t == s.(bufferStatus := 2, count := s.count + 1, presses := s.presses + 1)
  {
    LastStore(s, [Press, MinusTurn, ButtonTurn], [ButtonTurn, ButtonTurn, ButtonTurn], [MinusTurn, MinusTurn]);
    LastStore(s, [Press, MinusTurn, MinusTurn], [MinusTurn, ButtonTurn, ButtonTurn], [ButtonTurn, ButtonTurn]);
    assert [PressBlock, MinusBlock][1..] == [MinusBlock] && [MinusBlock, PressBlock][1..] == [PressBlock];
    assert AllSaturated(2, [MinusBlock]) == 1 && AllSaturated(0, [PressBlock]) == 1;
  }

  lemma LastStore(s: State, a: seq<Turn>, b: seq<Turn>, c: seq<Turn>)
    requires |a| == 3 && |b| == 3 && |c| == 2
    ensures Exec(s, a + b + c)
      == Take(Take(Take(Take(Take(Take(Take(Take(s, a[0]), a[1]), a[2]), b[0]), b[1]), b[2]), c[0]), c[1])
  {
    hide Take;
    ExecSplit(s, a + b, c);
    ExecSplit(s, a, b);
    assert a == [a[0], a[1], a[2]] && b == [b[0], b[1], b[2]] && c == [c[0]] + [c[1]];
    Exec3(s, a[0], a[1], a[2]);
    Exec3(Exec(s, a), b[0], b[1], b[2]);
    var t := Exec(s, a + b);
    ExecSplit(t, [c[0]], [c[1]]);
    Exec1(t, c[0]);
    Exec1(Take(t, c[0]), c[1]);
  }
}
