/** Searching a stream for a target, without backtracking: findUntil. */
module StreamSearch {

  import opened Machine

  /** How a search ends, after n characters: target found, terminator found, or nothing more to read. */
  datatype Outcome = Found(n: nat) | Terminated(n: nat) | Dry(n: nat) {
    function Later(): Outcome {
      match this
      case Found(k) => Found(k + 1)
      case Terminated(k) => Terminated(k + 1)
      case Dry(k) => Dry(k + 1)
    }
  }

  /** How much of the target is matched after one more character. */
  function NextIndex(target: seq<byte>, k: nat, c: byte): (next: nat)
    requires k < |target|
    ensures next <= |target|
  {
    if c == target[k] then k + 1 else if c == target[0] then 1 else 0
  }

  function NextTerm(terminator: seq<byte>, t: nat, c: byte): (next: nat)
    requires terminator == [] || t < |terminator|
    ensures next <= |terminator|
  {
    if terminator != [] && c == terminator[t] then t + 1 else 0
  }

  /** The search with k characters of the target and t of the terminator matched so far. */
  function Scan(target: seq<byte>, terminator: seq<byte>, data: seq<byte>, k: nat, t: nat): (o: Outcome)
    requires k < |target| && (terminator == [] || t < |terminator|)
    ensures o.n <= |data|
    decreases |data|
  {
    if data == [] then Dry(0)
    else if data[0] == 0 then Dry(1)
    else
      var k', t' := NextIndex(target, k, data[0]), NextTerm(terminator, t, data[0]);
      if k' == |target| then Found(1)
      else if terminator != [] && t' == |terminator| then Terminated(1)
      else Scan(target, terminator, data[1..], k', t').Later()
  }

  class Stream {
    /** What will still arrive before the read times out. */
    var data: seq<byte>

    method TimedRead() returns (c: int)
      modifies this
      ensures old(data) == [] ==> c == -1 && data == []
      ensures old(data) != [] ==> c == old(data)[0] && data == old(data)[1..]
    {
      if data == [] {
        return -1;
      }
      c := data[0];
      data := data[1..];
    }

    method FindUntil(target: seq<byte>, terminator: seq<byte>) returns (found: bool)
      modifies this
      ensures target == [] || target[0] == 0 ==> found && data == old(data)
      ensures target != [] && target[0] != 0 ==>
        var o := Scan(target, terminator, old(data), 0, 0);
        found == o.Found? && data == old(data)[o.n..]
    {
      if target == [] || target[0] == 0 {
        return true;
      }
      var index, termIndex := 0, 0;
      ghost var o, n := Scan(target, terminator, data, 0, 0), 0;
      var c := -1;
      while true
        invariant 0 <= index < |target| && 0 <= termIndex && (terminator == [] || termIndex < |terminator|)
        invariant n <= |old(data)| && data == old(data)[n..]
        invariant var rest := Scan(target, terminator, data, index, termIndex);
          (o.Found? <==> rest.Found?) && o.n == n + rest.n
        decreases |data|
      {
        c := TimedRead();
        if c <= 0 {
          break;
        }
        n := n + 1;
        if c != target[index] {
          index := 0;
        }
        if c == target[index] {
          index := index + 1;
          if index >= |target| {
            return true;
          }
        }
        if |terminator| > 0 && c == terminator[termIndex] {
          termIndex := termIndex + 1;
          if termIndex >= |terminator| {
            return false;
          }
        } else {
          termIndex := 0;
        }
      }
      return false;
    }
  }

  // ---------------------------------------------------------------- soundness

  predicate EndsWith(s: seq<byte>, x: seq<byte>) {
    |x| <= |s| && s[|s| - |x|..] == x
  }

  lemma EndsWithMore(s: seq<byte>, x: seq<byte>, c: byte)
    ensures EndsWith(s + [c], x + [c]) <==> EndsWith(s, x)
    ensures EndsWith(s, [])
  {
    if |x| <= |s| {
      assert (s + [c])[|s| - |x|..] == s[|s| - |x|..] + [c];
      assert EndsWith(s + [c], x + [c]) ==> s[|s| - |x|..] == (x + [c])[..|x|];
    }
  }

  /** What is matched is always a suffix of what was read. */
  lemma MatchedStep(pattern: seq<byte>, seen: seq<byte>, k: nat, c: byte)
    requires k < |pattern| && EndsWith(seen, pattern[..k])
    ensures c == pattern[k] ==> EndsWith(seen + [c], pattern[..k + 1])
    ensures c == pattern[0] ==> EndsWith(seen + [c], pattern[..1])
    ensures EndsWith(seen + [c], [])
  {
    EndsWithMore(seen, pattern[..k], c);
    EndsWithMore(seen, [], c);
    EndsWithMore(seen + [c], [], c);
    assert pattern[..k] + [pattern[k]] == pattern[..k + 1];
    assert [] + [pattern[0]] == pattern[..1];
  }

  /** A search that succeeds has just read the target; one that is terminated has just read the terminator. */
  lemma {:induction false} ScanSound(target: seq<byte>, terminator: seq<byte>, seen: seq<byte>, data: seq<byte>,
      k: nat, t: nat)
    requires k < |target| && EndsWith(seen, target[..k])
    requires terminator == [] || (t < |terminator| && EndsWith(seen, terminator[..t]))
    ensures var o := Scan(target, terminator, data, k, t);
      && (o.Found? ==> EndsWith(seen + data[..o.n], target))
      && (o.Terminated? ==> terminator != [] && EndsWith(seen + data[..o.n], terminator))
    decreases |data|
  {
    hide EndsWith;
    if data != [] && data[0] != 0 {
      var c := data[0];
      MatchedStep(target, seen, k, c);
      if terminator != [] {
        MatchedStep(terminator, seen, t, c);
        assert terminator[..|terminator|] == terminator && terminator[..0] == [];
      }
      assert target[..|target|] == target && target[..0] == [] && data[..1] == [c];
      var k', t' := NextIndex(target, k, c), NextTerm(terminator, t, c);
      if k' < |target| && (terminator == [] || t' < |terminator|) {
        ScanSound(target, terminator, seen + [c], data[1..], k', t');
        var o := Scan(target, terminator, data[1..], k', t');
        assert seen + [c] + data[1..][..o.n] == seen + data[..o.n + 1];
      }
    }
  }

  // ---------------------------------------------------------------- completeness

  predicate NulFree(s: seq<byte>) {
    forall i | 0 <= i < |s| :: s[i] != 0
  }

  /** Without a terminator the search stops right behind the first occurrence, or reads everything if there is none. */
  predicate FindsFirst(target: seq<byte>, data: seq<byte>)
    requires target != []
  {
    var o := Scan(target, [], data, 0, 0);
    && !o.Terminated?
    && (o.Found? <==> exists m | 0 <= m <= |data| :: EndsWith(data[..m], target))
    && (o.Found? ==> EndsWith(data[..o.n], target) && forall m | 0 <= m < o.n :: !EndsWith(data[..m], target))
    && (o.Dry? ==> o.n == |data|)
  }

  predicate Border(target: seq<byte>, i: nat, b: nat)
    requires i <= |target|
  {
    1 <= b < i && target[..b] == target[i - b..i]
  }

  /** Wherever a matched part also ends in a shorter part of the target, both go on with the same character. */
  predicate Restartable(target: seq<byte>) {
    forall i: nat, b: nat | b < i < |target| && Border(target, i, b) :: target[b] == target[i]
  }

  /** k characters are matched, and no more of the target could be. */
  predicate Longest(target: seq<byte>, seen: seq<byte>, k: nat)
    requires k <= |target|
  {
    EndsWith(seen, target[..k]) && forall j | k < j <= |target| :: !EndsWith(seen, target[..j])
  }

  lemma SuffixOfSuffix(s: seq<byte>, x: seq<byte>, y: seq<byte>)
    requires EndsWith(s, x) && EndsWith(s, y) && |y| <= |x|
    ensures y == x[|x| - |y|..]
  {
    assert s[|s| - |x|..][|x| - |y|..] == s[|s| - |y|..];
  }

  /** Two matched parts of different length make a border. */
  lemma MatchedBorder(target: seq<byte>, seen: seq<byte>, k: nat, b: nat)
    requires b <= k <= |target| && EndsWith(seen, target[..k]) && EndsWith(seen, target[..b])
    ensures 1 <= b < k ==> Border(target, k, b)
  {
    SuffixOfSuffix(seen, target[..k], target[..b]);
    assert target[..k][k - b..] == target[k - b..k];
  }

  lemma MatchedBefore(target: seq<byte>, seen: seq<byte>, c: byte, j: nat)
    requires 1 <= j <= |target|
    ensures EndsWith(seen + [c], target[..j]) ==> EndsWith(seen, target[..j - 1]) && c == target[j - 1]
  {
    var b := j - 1;
    assert target[..j] == target[..b] + [target[b]];
    EndsWithMore(seen, target[..b], c);
    assert EndsWith(seen + [c], target[..j]) ==> (seen + [c])[|seen|] == target[..j][b];
  }

  lemma NotLonger(target: seq<byte>, seen: seq<byte>, k: nat, c: byte, j: nat)
    requires k < |target| && Restartable(target) && Longest(target, seen, k)
    requires NextIndex(target, k, c) < j <= |target|
    ensures !EndsWith(seen + [c], target[..j])
  {
    MatchedBefore(target, seen, c, j);
    if j - 1 <= k && EndsWith(seen, target[..j - 1]) {
      MatchedBorder(target, seen, k, j - 1);
    }
  }

  lemma LongestStep(target: seq<byte>, seen: seq<byte>, k: nat, c: byte)
    requires k < |target| && Restartable(target) && Longest(target, seen, k)
    ensures Longest(target, seen + [c], NextIndex(target, k, c))
  {
    MatchedStep(target, seen, k, c);
    forall j | NextIndex(target, k, c) < j <= |target|
      ensures !EndsWith(seen + [c], target[..j])
    {
      NotLonger(target, seen, k, c, j);
    }
    assert target[..0] == [];
  }

  /** With or without a terminator, a restartable target is never passed over. */
  lemma {:induction false} ScanComplete(target: seq<byte>, terminator: seq<byte>, seen: seq<byte>, data: seq<byte>,
      k: nat, t: nat)
    requires k < |target| && (terminator == [] || t < |terminator|)
    requires Restartable(target) && Longest(target, seen, k) && NulFree(data)
    ensures var o := Scan(target, terminator, data, k, t);
      && (terminator == [] ==> !o.Terminated?) && (o.Dry? ==> o.n == |data|)
      && forall m | 0 <= m <= o.n && (o.Found? ==> m < o.n) :: !EndsWith(seen + data[..m], target)
    decreases |data|
  {
    hide Restartable, NextIndex, NextTerm, EndsWith;
    assert target[..|target|] == target && seen + data[..0] == seen;
    if data != [] {
      var c := data[0];
      LongestStep(target, seen, k, c);
      var k', t' := NextIndex(target, k, c), NextTerm(terminator, t, c);
      assert data[..1] == [c];
      if k' < |target| && (terminator == [] || t' < |terminator|) {
        ScanComplete(target, terminator, seen + [c], data[1..], k', t');
      }
      var o := Scan(target, terminator, data, k, t);
      forall m | 0 <= m <= o.n && (o.Found? ==> m < o.n)
        ensures !EndsWith(seen + data[..m], target)
      {
        if m > 0 {
          assert seen + [c] + data[1..][..m - 1] == seen + data[..m];
        }
      }
    }
  }

  lemma RestartableFindsFirst(target: seq<byte>, data: seq<byte>)
    requires target != [] && Restartable(target) && NulFree(data)
    ensures FindsFirst(target, data)
  {
    assert target[..0] == [] && Longest(target, [], 0);
    var o := Scan(target, [], data, 0, 0);
    ScanComplete(target, [], [], data, 0, 0);
    ScanSound(target, [], [], data, 0, 0);
    assert forall m | 0 <= m <= |data| :: [] + data[..m] == data[..m];
  }

  /** Matching goes straight through the beginning of the target. */
  lemma {:induction false} ScanThrough(target: seq<byte>, k: nat, i: nat, rest: seq<byte>)
    requires k <= i < |target| && NulFree(target)
    ensures Scan(target, [], target[k..i] + rest, k, 0).Found? <==> Scan(target, [], rest, i, 0).Found?
    decreases i - k
  {
    if k == i {
      assert target[k..i] + rest == rest;
    } else {
      ScanThrough(target, k + 1, i, rest);
      assert (target[k..i] + rest)[1..] == target[k + 1..i] + rest;
    }
  }

  /** Too little data left never completes the target. */
  lemma {:induction false} ScanShort(target: seq<byte>, data: seq<byte>, k: nat)
    requires k < |target| && k + |data| < |target|
    ensures !Scan(target, [], data, k, 0).Found?
    decreases |data|
  {
    if data != [] && data[0] != 0 {
      ScanShort(target, data[1..], NextIndex(target, k, data[0]));
    }
  }

  /** Restarting from the wrong place loses an occurrence. */
  lemma BorderLost(target: seq<byte>, i: nat, b: nat)
    requires i < |target| && NulFree(target) && Border(target, i, b) && target[b] != target[i]
    ensures var data := target[..i] + target[b..]; NulFree(data) && EndsWith(data, target) && !FindsFirst(target, data)
  {
    var rest := target[b..];
    var data := target[..i] + rest;
    assert target[..i] == target[0..i];
    ScanThrough(target, 0, i, rest);
    ScanShort(target, rest[1..], NextIndex(target, i, rest[0]));
    assert data[i - b..] == target[i - b..i] + rest == target[..b] + target[b..] == target;
    assert data[..|data|] == data;
  }

  /** The search finds the first occurrence in every NUL-free stream exactly when the target is restartable. */
  lemma FindsFirstExactly(target: seq<byte>)
    requires target != [] && NulFree(target)
    ensures (forall data | NulFree(data) :: FindsFirst(target, data)) <==> Restartable(target)
  {
    if Restartable(target) {
      forall data | NulFree(data)
        ensures FindsFirst(target, data)
      {
        RestartableFindsFirst(target, data);
      }
    } else {
      var i: nat, b: nat :| b < i < |target| && Border(target, i, b) && target[b] != target[i];
      BorderLost(target, i, b);
    }
  }

  /** A target whose first character does not recur is restartable. */
  lemma DistinctFirst(target: seq<byte>)
    requires target != [] && forall i | 0 < i < |target| :: target[i] != target[0]
    ensures Restartable(target)
  {
    forall i: nat, b: nat | 1 <= b < i < |target|
      ensures !Border(target, i, b)
    {
      assert target[..b][0] != target[i - b..i][0];
    }
  }

  /** "aab" is missed in "aaab". */
  lemma AabInAaab()
    ensures var target, data := [97, 97, 98], [97, 97, 97, 98];
      EndsWith(data, target) && Scan(target, [], data, 0, 0) == Dry(4)
  {
    var target, data: seq<byte> := [97, 97, 98], [97, 97, 97, 98];
    assert data[1..] == [97, 97, 98] && data[1..][1..] == [97, 98] && data[1..][1..][1..] == [98];
    assert Scan(target, [], [], 0, 0) == Dry(0);
    assert [98][1..] == [];
    assert Scan(target, [], [98], 1, 0) == Dry(1);
    assert Scan(target, [], [97, 98], 2, 0) == Dry(2);
  }

  // ---------------------------------------------------------------- terminators

  predicate Uniform(terminator: seq<byte>) {
    forall i | 0 <= i < |terminator| :: terminator[i] == terminator[0]
  }

  /** The search does not read past an occurrence of the terminator, and stops for it only where there is one. */
  predicate StopsAtTerminator(target: seq<byte>, terminator: seq<byte>, data: seq<byte>)
    requires target != [] && terminator != []
  {
    var o := Scan(target, terminator, data, 0, 0);
    && (forall m | 0 <= m <= o.n && (o.Dry? || m < o.n) :: !EndsWith(data[..m], terminator))
    && (o.Terminated? ==> EndsWith(data[..o.n], terminator))
    && (o.Dry? ==> o.n == |data|)
  }

  lemma LongestTermStep(terminator: seq<byte>, seen: seq<byte>, t: nat, c: byte)
    requires t < |terminator| && Uniform(terminator) && Longest(terminator, seen, t)
    ensures Longest(terminator, seen + [c], NextTerm(terminator, t, c))
  {
    MatchedStep(terminator, seen, t, c);
    assert terminator[..0] == [];
    forall j | NextTerm(terminator, t, c) < j <= |terminator|
      ensures !EndsWith(seen + [c], terminator[..j])
    {
      MatchedBefore(terminator, seen, c, j);
    }
  }

  /** A terminator of equal characters is never passed over, whatever the target. */
  lemma {:induction false} TerminatorComplete(target: seq<byte>, terminator: seq<byte>, seen: seq<byte>,
      data: seq<byte>, k: nat, t: nat)
    requires k < |target| && t < |terminator| && NulFree(data)
    requires Uniform(terminator) && Longest(terminator, seen, t)
    ensures var o := Scan(target, terminator, data, k, t);
      && (o.Dry? ==> o.n == |data|)
      && forall m | 0 <= m <= o.n && (o.Dry? || m < o.n) :: !EndsWith(seen + data[..m], terminator)
    decreases |data|
  {
    hide Uniform, NextIndex, NextTerm, EndsWith;
    assert terminator[..|terminator|] == terminator && seen + data[..0] == seen;
    if data != [] {
      var c := data[0];
      LongestTermStep(terminator, seen, t, c);
      var k', t' := NextIndex(target, k, c), NextTerm(terminator, t, c);
      if k' < |target| && t' < |terminator| {
        TerminatorComplete(target, terminator, seen + [c], data[1..], k', t');
      }
      var o := Scan(target, terminator, data, k, t);
      forall m | 0 <= m <= o.n && (o.Dry? || m < o.n)
        ensures !EndsWith(seen + data[..m], terminator)
      {
        if m > 0 {
          assert seen + [c] + data[1..][..m - 1] == seen + data[..m];
        }
      }
    }
  }

  lemma UniformStops(target: seq<byte>, terminator: seq<byte>, data: seq<byte>)
    requires target != [] && terminator != [] && Uniform(terminator) && NulFree(data)
    ensures StopsAtTerminator(target, terminator, data)
  {
    assert target[..0] == [] && terminator[..0] == [] && Longest(terminator, [], 0);
    TerminatorComplete(target, terminator, [], data, 0, 0);
    ScanSound(target, terminator, [], data, 0, 0);
    assert forall m | 0 <= m <= |data| :: [] + data[..m] == data[..m];
  }

  /** Does the data complete the terminator, t characters of which are matched? */
  predicate Completes(terminator: seq<byte>, data: seq<byte>, t: nat)
    requires t < |terminator|
    decreases |data|
  {
    data != [] && var t' := NextTerm(terminator, t, data[0]);
    t' == |terminator| || Completes(terminator, data[1..], t')
  }

  /** A target that is too long leaves it to the terminator to end the search. */
  lemma {:induction false} ScanForTerminator(target: seq<byte>, terminator: seq<byte>, data: seq<byte>, k: nat, t: nat)
    requires k + |data| < |target| && t < |terminator| && NulFree(data) && !Completes(terminator, data, t)
    ensures Scan(target, terminator, data, k, t) == Dry(|data|)
    decreases |data|
  {
    if data != [] {
      ScanForTerminator(target, terminator, data[1..], NextIndex(target, k, data[0]),
        NextTerm(terminator, t, data[0]));
    }
  }

  lemma {:induction false} TooShort(terminator: seq<byte>, data: seq<byte>, t: nat)
    requires t + |data| < |terminator|
    ensures !Completes(terminator, data, t)
    decreases |data|
  {
    if data != [] {
      TooShort(terminator, data[1..], NextTerm(terminator, t, data[0]));
    }
  }

  lemma {:induction false} CompletesThrough(terminator: seq<byte>, t: nat, i: nat, rest: seq<byte>)
    requires t <= i < |terminator|
    ensures Completes(terminator, terminator[t..i] + rest, t) <==> Completes(terminator, rest, i)
    decreases i - t
  {
    if t == i {
      assert terminator[t..i] + rest == rest;
    } else {
      CompletesThrough(terminator, t + 1, i, rest);
      assert (terminator[t..i] + rest)[1..] == terminator[t + 1..i] + rest;
    }
  }

  /** One more of its equal first characters hides the terminator. */
  lemma TerminatorLost(terminator: seq<byte>, j: nat)
    requires 1 <= j < |terminator| && NulFree(terminator)
    requires (forall i | 0 <= i < j :: terminator[i] == terminator[0]) && terminator[j] != terminator[0]
    ensures var (data, target) := ([terminator[0]] + terminator, seq(|terminator| + 2, _ => 1));
      && NulFree(data) && EndsWith(data, terminator)
      && Scan(target, terminator, data, 0, 0) == Dry(|data|) && !StopsAtTerminator(target, terminator, data)
  {
    var data := [terminator[0]] + terminator;
    var rest := terminator[j..];
    assert data == terminator[0..j] + ([terminator[0]] + rest);
    CompletesThrough(terminator, 0, j, [terminator[0]] + rest);
    assert ([terminator[0]] + rest)[1..] == rest;
    TooShort(terminator, rest, 0);
    ScanForTerminator(seq(|terminator| + 2, _ => 1), terminator, data, 0, 0);
    assert data[..|data|] == data && data[1..] == terminator;
  }

  lemma {:induction false} FirstOther(terminator: seq<byte>, n: nat) returns (j: nat)
    requires n < |terminator| && terminator[n] != terminator[0]
    ensures 1 <= j < |terminator| && terminator[j] != terminator[0]
    ensures forall i | 0 <= i < j :: terminator[i] == terminator[0]
  {
    if i :| 0 <= i < n && terminator[i] != terminator[0] {
      j := FirstOther(terminator, i);
    } else {
      j := n;
    }
  }

  /** No search, for any target in any NUL-free stream, passes an occurrence of the terminator, exactly when all its
      characters are equal. */
  lemma StopsExactly(terminator: seq<byte>)
    requires terminator != [] && NulFree(terminator)
    ensures (forall target, data | target != [] && NulFree(data) :: StopsAtTerminator(target, terminator, data))
      <==> Uniform(terminator)
  {
    hide StopsAtTerminator;
    if Uniform(terminator) {
      forall target, data | target != [] && NulFree(data)
        ensures StopsAtTerminator(target, terminator, data)
      {
        UniformStops(target, terminator, data);
      }
    } else {
      var n :| 0 <= n < |terminator| && terminator[n] != terminator[0];
      var j := FirstOther(terminator, n);
      TerminatorLost(terminator, j);
    }
  }

  /** For a restartable target and a terminator of equal characters, the search succeeds exactly when the target occurs
      with no terminator ending before it, and stops where the first of the two ends. */
  lemma FirstOfBoth(target: seq<byte>, terminator: seq<byte>, data: seq<byte>)
    requires target != [] && Restartable(target) && terminator != [] && Uniform(terminator) && NulFree(data)
    ensures var o := Scan(target, terminator, data, 0, 0);
      && (o.Found? <==> exists m | 0 <= m <= |data| ::
            EndsWith(data[..m], target) && forall j | 0 <= j < m :: !EndsWith(data[..j], terminator))
      && (forall m | 0 <= m < o.n :: !EndsWith(data[..m], target) && !EndsWith(data[..m], terminator))
      && (o.Dry? <==> forall m | 0 <= m <= |data| :: !EndsWith(data[..m], target) && !EndsWith(data[..m], terminator))
  {
    hide Restartable, Uniform, EndsWith;
    EmptyLongest(target);
    UniformStops(target, terminator, data);
    ScanComplete(target, terminator, [], data, 0, 0);
    EndsWithMore([], [], 1);
    assert target[..0] == [] && terminator[..0] == [];
    ScanSound(target, terminator, [], data, 0, 0);
    assert forall m | 0 <= m <= |data| :: [] + data[..m] == data[..m];
  }

  lemma EmptyLongest(target: seq<byte>)
    ensures Longest(target, [], 0)
  {
    assert target[..0] == [];
  }

  /** A NUL ends the search like a timeout does, behind it. */
  lemma {:induction false} NulStops(target: seq<byte>, terminator: seq<byte>, before: seq<byte>, behind: seq<byte>,
      k: nat, t: nat)
    requires k < |target| && (terminator == [] || t < |terminator|) && NulFree(before)
    ensures var o := Scan(target, terminator, before, k, t);
      Scan(target, terminator, before + [0] + behind, k, t) == if o.Dry? then Dry(|before| + 1) else o
    decreases |before|
  {
    var data := before + [0] + behind;
    if before == [] {
      assert data[0] == 0;
    } else {
      var k', t' := NextIndex(target, k, before[0]), NextTerm(terminator, t, before[0]);
      assert data[0] == before[0] && data[1..] == before[1..] + [0] + behind;
      if k' < |target| && (terminator == [] || t' < |terminator|) {
        NulStops(target, terminator, before[1..], behind, k', t');
        var o := Scan(target, terminator, before[1..], k', t');
        assert o.Dry? ==> o.n <= |before| - 1;
      }
    }
  }

  /** The terminator "ab" is missed in "aab", and stops the search in "cab". */
  lemma AbInAab()
    ensures EndsWith([97, 97, 98], [97, 98]) && Scan([100, 100, 100, 100], [97, 98], [97, 97, 98], 0, 0) == Dry(3)
    ensures Scan([100, 100, 100, 100], [97, 98], [99, 97, 98, 100], 0, 0) == Terminated(3)
  {
    var d: seq<byte>, ab: seq<byte> := [100, 100, 100, 100], [97, 98];
    assert [97, 97, 98][1..] == ab && ab[1..] == [98] && [98][1..] == [];
    assert Scan(d, ab, [98], 0, 0) == Dry(1);
    assert Scan(d, ab, ab, 0, 1) == Dry(2);
    assert [99, 97, 98, 100][1..] == [97, 98, 100] && [97, 98, 100][1..] == [98, 100];
    assert Scan(d, ab, [98, 100], 0, 1) == Terminated(1);
    assert Scan(d, ab, [97, 98, 100], 0, 0) == Terminated(2);
  }
}
