/** The C integer types the firmware computes with, and the arithmetic facts several modules share. */
module Machine {

  type byte = b: int | 0 <= b < 0x100

  type uint16 = v: int | 0 <= v < 0x1_0000

  type uint32 = v: int | 0 <= v < 0x1_0000_0000

  type int16 = v: int | -32768 <= v < 32768

  type int32 = v: int | -0x8000_0000 <= v < 0x8000_0000

  /** The value an int16_t variable holds after being assigned v. */
  function I16(v: int): (r: int16)
    ensures -32768 <= v < 32768 ==> r == v
    ensures 32768 <= v < 98304 ==> r == v - 65536
    ensures -98304 <= v < -32768 ==> r == v + 65536
  {
    (v + 32768) % 65536 - 32768
  }

  /** It does not matter when a sum becomes an int16_t. */
  lemma SumNarrows(a: int, b: int)
    ensures I16(I16(a) + b) == I16(a + b)
  {
  }

  /** The value an int32_t variable holds after being assigned v. */
  function I32(v: int): (r: int32)
    ensures -0x8000_0000 <= v < 0x8000_0000 ==> r == v
  {
    (v + 0x8000_0000) % 0x1_0000_0000 - 0x8000_0000
  }

  /** C division by a positive divisor: truncates toward zero. */
  function TruncDiv(a: int, d: int): int
    requires d > 0
  {
    if a >= 0 then a / d else -(-a / d)
  }

  // ---------------------------------------------------------------- an int16 counter

  /** The counter of `for (i = from; ...; i++)` after k increments. */
  function Counter(from: int16, k: nat): int16 {
    if k == 0 then from else I16(Counter(from, k - 1) + 1)
  }

  /** Does `for (i = from; i <= to; i++)` end? */
  ghost predicate LoopEnds(from: int16, to: int) {
    exists k: nat :: Counter(from, k) > to
  }

  lemma {:induction false} CounterRuns(from: int16, k: nat)
    requires from + k < 32768
    ensures Counter(from, k) == from + k
  {
    if k > 0 {
      CounterRuns(from, k - 1);
    }
  }

  /** In any case the counter takes the successive numbers, in int16_t. */
  lemma {:induction false} CounterNarrows(from: int, k: nat)
    ensures Counter(I16(from), k) == I16(from + k)
  {
    if k > 0 {
      CounterNarrows(from, k - 1);
      SumNarrows(from + k - 1, 1);
    }
  }

  /** A counting loop ends if and only if it does not start or its limit is below the largest int16. */
  lemma LoopEndsExactly(from: int16, to: int)
    ensures LoopEnds(from, to) <==> from > to || to < 32767
  {
    if from > to {
      assert Counter(from, 0) > to;
    } else if to < 32767 {
      CounterRuns(from, to + 1 - from);
    }
  }

  // ---------------------------------------------------------------- sequences, products and quotients

  lemma ConcatAssoc<T>(a: seq<T>, b: seq<T>, c: seq<T>)
    ensures a + b + c == a + (b + c)
  {
  }

  lemma MulMonotone(a: int, b: int, c: int)
    ensures a <= b && 0 <= c ==> a * c <= b * c
  {
  }

  /** Different multiples of w are at least w apart. */
  lemma Apart(a: nat, b: nat, w: nat)
    ensures 0 <= a * w && (a < b ==> a * w + w <= b * w)
  {
    assert a < b ==> (a + 1) * w <= b * w;
  }

  /** Quotient and remainder are unique. */
  lemma DivUnique(a: nat, d: nat, q: nat)
    requires d > 0 && q * d <= a < q * d + d
    ensures a / d == q && a % d == a - q * d
  {
    var p := a / d;
    assert a == p * d + a % d;
    Apart(p, q, d);
    Apart(q, p, d);
  }
}
