/**
 Enumeration of the n-bit integers with exactly k set bits by Gosper's hack
 (benchmark/scripts/probe_bits.py).
 */
module Gosper {
  import opened Bits

  datatype Result<T> = Ok(value: T) | NegativeShiftCount

  function FloorDiv(x: nat, d: nat): nat
    requires d > 0
  {
    x / d
  }

  /** The value that follows x in the loop of gospers_hack. */
  function Next(x: nat): nat
    requires x > 0
  {
    LowBitPositive(x);
    var lowbit := And(x, 0 - x);
    var left := x + lowbit;
    var right := FloorDiv(ShiftRight(Xor(x, left), 2), lowbit);
    Or(left, right)
  }

  // The reference: a plain filter over all integers below a bound.

  function Enumeration(bound: nat, k: int): seq<nat> {
    if bound == 0 then []
    else Enumeration(bound - 1, k) + if PopCount(bound - 1) == k then [bound - 1] else []
  }

  /** Pascal's triangle. */
  function Choose(n: nat, k: int): nat {
    if k == 0 then 1 else if n == 0 then 0 else Choose(n - 1, k - 1) + Choose(n - 1, k)
  }

  function Factorial(n: nat): nat {
    if n == 0 then 1 else n * Factorial(n - 1)
  }

  /** gospers_hack(n, k). Python raises ValueError for the shift 1 << k when k is negative. */
  method GospersHack(n: int, k: int) returns (r: Result<seq<nat>>)
    ensures r.NegativeShiftCount? <==> k < 0 && k <= n
    ensures r.Ok? && n >= 0 ==> r.value == Enumeration(Pow2(n), k)
    ensures r.Ok? && n < 0 ==> r.value == if k == 0 then [0] else []
  {
    if k == 0 {
      if n >= 0 {
        OnlyZeroHasNoBits(Pow2(n));
      }
      return Ok([0]);
    }
    if k > n {
      if n >= 0 {
        NoneBelow(Pow2(n), n, k);
      }
      return Ok([]);
    }
    if k < 0 {
      return NegativeShiftCount;
    }
    var results: seq<nat> := [];
    var x: nat := Pow2(k) - 1;
    var limit := Pow2(n);
    PopCountOnes(k);
    FirstValue(k);
    while x < limit
      invariant x > 0 && PopCount(x) == k
      invariant results == Enumeration(x, k)
      invariant forall i :: 0 <= i < |results| ==> results[i] < limit
      decreases limit - x
    {
      results := results + [x];
      NextIsLeastSuccessor(x);
      EnumerationSkips(x + 1, Next(x), k);
      x := Next(x);
    }
    EnumerationStops(limit, x, k);
    return Ok(results);
  }

  // The step: x = (h, zero bit, q ones, p zeros) becomes (h, one bit, zeros, q - 1 ones).

  function Tail(q: nat, h: nat): nat {
    ShiftLeft(h, q + 1) + Pow2(q) - 1
  }

  function Compose(p: nat, q: nat, h: nat): nat {
    ShiftLeft(Tail(q, h), p)
  }

  lemma {:induction false} Decompose(x: nat) returns (p: nat, q: nat, h: nat)
    requires x > 0
    ensures q >= 1 && x == Compose(p, q, h)
  {
    if x % 2 == 0 {
      p, q, h := Decompose(x / 2);
      p := p + 1;
    } else {
      q, h := DecomposeOnes(x);
      p := 0;
    }
  }

  lemma {:induction false} DecomposeOnes(x: nat) returns (q: nat, h: nat)
    ensures x == Tail(q, h)
    ensures x % 2 == 1 ==> q >= 1
  {
    if x % 2 == 0 {
      q, h := 0, x / 2;
      assert ShiftLeft(h, 1) == 2 * ShiftLeft(h, 0);
    } else {
      q, h := DecomposeOnes(x / 2);
      q := q + 1;
    }
  }

  lemma {:induction false} LowBitPositive(x: nat)
    requires x > 0
    ensures And(x, 0 - x) > 0
  {
    if x % 2 == 0 {
      assert (0 - x) / 2 == 0 - x / 2;
      LowBitPositive(x / 2);
    }
  }

  /** x & -x isolates the lowest set bit. */
  lemma {:induction false} LowBit(p: nat, z: nat)
    requires z % 2 == 1
    ensures And(ShiftLeft(z, p), 0 - ShiftLeft(z, p)) == Pow2(p)
  {
    if p == 0 {
      AndComplement(z / 2);
      assert (0 - z) / 2 == 0 - z / 2 - 1;
    } else {
      LowBit(p - 1, z);
      LowBitDouble(ShiftLeft(z, p - 1));
    }
  }

  lemma LowBitDouble(y: nat)
    ensures And(2 * y, 0 - 2 * y) == 2 * And(y, 0 - y)
  {
    assert (0 - 2 * y) / 2 == 0 - y;
  }

  lemma {:induction false} AndComplement(x: nat)
    ensures And(x, 0 - x - 1) == 0
  {
    if x > 0 {
      assert (0 - x - 1) / 2 == 0 - x / 2 - 1;
      AndComplement(x / 2);
    }
  }

  lemma {:induction false} XorShifted(p: nat, u: nat, v: nat)
    ensures Xor(ShiftLeft(u, p), ShiftLeft(v, p)) == ShiftLeft(Xor(u, v), p)
  {
    if p > 0 {
      XorShifted(p - 1, u, v);
      XorDouble(ShiftLeft(u, p - 1), ShiftLeft(v, p - 1));
    }
  }

  lemma XorDouble(a: nat, b: nat)
    ensures Xor(2 * a, 2 * b) == 2 * Xor(a, b)
  {
  }

  lemma XorOddEven(w: nat)
    ensures Xor(2 * w + 1, 2 * (w + 1)) == 2 * Xor(w, w + 1) + 1
  {
  }

  lemma {:induction false} XorSelf(x: nat)
    ensures Xor(x, x) == 0
  {
    if x > 0 {
      XorSelf(x / 2);
    }
  }

  lemma XorEven(h: nat)
    ensures Xor(2 * h, 2 * h + 1) == 1
  {
    XorSelf(h);
  }

  lemma TailUnfolds(q: nat, h: nat)
    ensures q == 0 ==> Tail(q, h) == 2 * h
    ensures q > 0 ==> Tail(q, h) == 2 * Tail(q - 1, h) + 1
  {
    assert ShiftLeft(h, q + 1) == 2 * ShiftLeft(h, q);
  }

  /** Adding one flips the trailing ones and the zero above them. */
  lemma {:induction false} XorSuccessor(q: nat, h: nat)
    ensures Xor(Tail(q, h), Tail(q, h) + 1) == Pow2(q + 1) - 1
  {
    TailUnfolds(q, h);
    if q == 0 {
      XorEven(h);
      assert Pow2(1) == 2 * Pow2(0);
    } else {
      XorSuccessor(q - 1, h);
      XorOddEven(Tail(q - 1, h));
    }
  }

  /** (block >> 2) // lowbit drops the p zeros and the two lowest bits of the flipped block. */
  lemma ShrinkBlock(p: nat, c: nat)
    ensures FloorDiv(ShiftRight(ShiftLeft(4 * c + 3, p), 2), Pow2(p)) == c
  {
    var y := ShiftLeft(4 * c + 3, p);
    ShiftMaskDivMod(ShiftRight(y, 2), p);
    ShiftRightTwice(y, 2, p);
    ShiftRightTwice(y, p, 2);
    ShiftBack(4 * c + 3, p);
    assert ShiftRight(4 * c + 3, 2) == (4 * c + 3) / 2 / 2;
  }

  lemma ComposeExpanded(p: nat, q: nat, h: nat)
    ensures Compose(p, q, h) + Pow2(p) == ShiftLeft(2 * h + 1, p + q) == ShiftLeft(2 * h, p + q) + Pow2(p + q)
    ensures Compose(p, q, h) + Pow2(p) == ShiftLeft(Tail(q, h) + 1, p)
  {
    Pow2IsShift(p);
    Pow2IsShift(q);
    Pow2IsShift(p + q);
    ShiftLeftAdds(Tail(q, h), 1, p);
    ShiftLeftTwice(h, 1, q);
    assert ShiftLeft(h, 1) == 2 * h;
    ShiftLeftAdds(2 * h, 1, q);
    ShiftLeftTwice(2 * h + 1, q, p);
    ShiftLeftAdds(2 * h, 1, p + q);
  }

  lemma NextFromParts(x: nat, p: nat, c: nat)
    requires x > 0 && And(x, 0 - x) == Pow2(p)
    requires Xor(x, x + Pow2(p)) == ShiftLeft(4 * c + 3, p)
    ensures Next(x) == Or(x + Pow2(p), c)
  {
    ShrinkBlock(p, c);
  }

  lemma FlippedBlock(p: nat, q: nat, h: nat)
    requires q >= 1
    ensures And(Compose(p, q, h), 0 - Compose(p, q, h)) == Pow2(p)
    ensures Xor(Compose(p, q, h), Compose(p, q, h) + Pow2(p)) == ShiftLeft(4 * (Pow2(q - 1) - 1) + 3, p)
  {
    LowBit(p, Tail(q, h));
    ComposeExpanded(p, q, h);
    XorShifted(p, Tail(q, h), Tail(q, h) + 1);
    XorSuccessor(q, h);
    assert Pow2(q + 1) == 4 * Pow2(q - 1);
  }

  /** What one pass through the hack computes. */
  lemma NextOfComposed(p: nat, q: nat, h: nat)
    requires q >= 1 && Compose(p, q, h) > 0
    ensures Next(Compose(p, q, h)) == ShiftLeft(2 * h + 1, p + q) + (Pow2(q - 1) - 1)
  {
    var c := Pow2(q - 1) - 1;
    FlippedBlock(p, q, h);
    NextFromParts(Compose(p, q, h), p, c);
    ComposeExpanded(p, q, h);
    OrBelowCarry(p, q, h);
  }

  lemma OrBelowCarry(p: nat, q: nat, h: nat)
    requires q >= 1
    ensures Or(ShiftLeft(2 * h + 1, p + q), Pow2(q - 1) - 1) == ShiftLeft(2 * h + 1, p + q) + (Pow2(q - 1) - 1)
  {
    Pow2Monotone(q - 1, p + q);
    OrDisjoint(2 * h + 1, Pow2(q - 1) - 1, p + q);
  }

  lemma PopCountTail(q: nat, h: nat)
    ensures PopCount(Tail(q, h)) == PopCount(h) + q
  {
    PopCountOnes(q);
    Pow2Monotone(q, q + 1);
    PopCountSplit(h, Pow2(q) - 1, q + 1);
  }

  lemma PopCountComposed(p: nat, q: nat, h: nat)
    ensures PopCount(Compose(p, q, h)) == PopCount(h) + q
  {
    var tail := Tail(q, h);
    PopCountSplit(tail, 0, p);
    PopCountTail(q, h);
  }

  lemma NextPopCount(p: nat, q: nat, h: nat)
    requires q >= 1
    ensures PopCount(ShiftLeft(2 * h + 1, p + q) + (Pow2(q - 1) - 1)) == PopCount(h) + q
  {
    PopCountOnes(q - 1);
    Pow2Monotone(q - 1, p + q);
    PopCountSplit(2 * h + 1, Pow2(q - 1) - 1, p + q);
    PopCountDigit(h, 1);
  }

  /** The numbers strictly between x and Next(x): the part below the untouched head h. */
  lemma BetweenHasOtherPopCount(p: nat, q: nat, h: nat, y: nat)
    requires q >= 1
    requires Compose(p, q, h) < y < ShiftLeft(2 * h + 1, p + q) + (Pow2(q - 1) - 1)
    ensures PopCount(y) != PopCount(h) + q
  {
    ComposeExpanded(p, q, h);
    Pow2Monotone(p, p + q);
    if y < ShiftLeft(2 * h + 1, p + q) {
      var s := y - ShiftLeft(2 * h, p + q);
      assert y == ShiftLeft(2 * h, p + q) + s;
      BelowTheCarry(p, q, h, s);
    } else {
      var s := y - ShiftLeft(2 * h + 1, p + q);
      assert y == ShiftLeft(2 * h + 1, p + q) + s;
      AboveTheCarry(p, q, h, s);
    }
  }

  lemma BelowTheCarry(p: nat, q: nat, h: nat, s: nat)
    requires Pow2(p + q) < s + Pow2(p) && s < Pow2(p + q)
    ensures PopCount(ShiftLeft(2 * h, p + q) + s) > PopCount(h) + q
  {
    StillAllOnes(p, q, s);
    PopCountSplit(2 * h, s, p + q);
    PopCountDigit(h, 0);
  }

  lemma AboveTheCarry(p: nat, q: nat, h: nat, s: nat)
    requires q >= 1 && s < Pow2(q - 1) - 1
    ensures PopCount(ShiftLeft(2 * h + 1, p + q) + s) < PopCount(h) + q
  {
    Pow2Monotone(q - 1, p + q);
    PopCountSplit(2 * h + 1, s, p + q);
    PopCountBelow(s, q - 1);
    PopCountDigit(h, 1);
  }

  /** q ones on top of p low bits that are no longer all zero. */
  lemma StillAllOnes(p: nat, q: nat, s: nat)
    requires Pow2(p + q) < s + Pow2(p) && s < Pow2(p + q)
    ensures PopCount(s) > q
  {
    Pow2IsShift(p);
    Pow2IsShift(q);
    Pow2IsShift(p + q);
    ShiftLeftTwice(1, q, p);
    ShiftLeftAdds(Pow2(q) - 1, 1, p);
    var t := s - ShiftLeft(Pow2(q) - 1, p);
    PopCountSplit(Pow2(q) - 1, t, p);
    PopCountOnes(q);
    PopCountPositive(t);
  }

  /** The hack moves to the least larger integer with the same number of set bits. */
  lemma NextIsLeastSuccessor(x: nat)
    requires x > 0
    ensures Next(x) > x
    ensures PopCount(Next(x)) == PopCount(x)
    ensures forall y: nat :: x < y < Next(x) ==> PopCount(y) != PopCount(x)
  {
    var p, q, h := Decompose(x);
    NextOfComposed(p, q, h);
    PopCountComposed(p, q, h);
    ComposeExpanded(p, q, h);
    NextPopCount(p, q, h);
    forall y: nat | x < y < Next(x)
      ensures PopCount(y) != PopCount(x)
    {
      BetweenHasOtherPopCount(p, q, h, y);
    }
  }

  // The reference list.

  /** The list holds exactly the integers below the bound with k set bits, in ascending order. */
  lemma {:induction false} EnumerationIsExact(bound: nat, k: int)
    ensures forall x: nat :: x in Enumeration(bound, k) <==> x < bound && PopCount(x) == k
    ensures forall i, j :: 0 <= i < j < |Enumeration(bound, k)| ==> Enumeration(bound, k)[i] < Enumeration(bound, k)[j]
  {
    if bound > 0 {
      EnumerationIsExact(bound - 1, k);
      var rest := Enumeration(bound - 1, k);
      forall i | 0 <= i < |rest|
        ensures rest[i] < bound - 1
      {
        assert rest[i] in rest;
      }
    }
  }

  lemma {:induction false} EnumerationSkips(low: nat, high: nat, k: int)
    requires low <= high
    requires forall y: nat :: low <= y < high ==> PopCount(y) != k
    ensures Enumeration(high, k) == Enumeration(low, k)
  {
    if low < high {
      EnumerationSkips(low, high - 1, k);
    }
  }

  lemma EnumerationStops(limit: nat, x: nat, k: int)
    requires limit <= x
    requires forall i :: 0 <= i < |Enumeration(x, k)| ==> Enumeration(x, k)[i] < limit
    ensures Enumeration(x, k) == Enumeration(limit, k)
  {
    EnumerationIsExact(x, k);
    forall y: nat | limit <= y < x
      ensures PopCount(y) != k
    {
      assert y in Enumeration(x, k) ==> y < limit;
    }
    EnumerationSkips(limit, x, k);
  }

  lemma FirstValue(k: nat)
    ensures Enumeration(Pow2(k) - 1, k) == []
  {
    forall y: nat | y < Pow2(k) - 1
      ensures PopCount(y) != k
    {
      PopCountBelow(y, k);
    }
    EnumerationSkips(0, Pow2(k) - 1, k);
  }

  lemma NoneBelow(bound: nat, n: nat, k: int)
    requires bound == Pow2(n) && k > n
    ensures Enumeration(bound, k) == []
  {
    forall y: nat | y < bound
      ensures PopCount(y) != k
    {
      PopCountBelow(y, n);
    }
    EnumerationSkips(0, bound, k);
  }

  lemma OnlyZeroHasNoBits(bound: nat)
    requires bound > 0
    ensures Enumeration(bound, 0) == [0]
  {
    forall y: nat | 1 <= y < bound
      ensures PopCount(y) != 0
    {
      PopCountPositive(y);
    }
    EnumerationSkips(1, bound, 0);
    assert Enumeration(1, 0) == Enumeration(0, 0) + [0];
  }

  /** There are C(n, k) integers of n bits with k set bits. */
  lemma {:induction false} EnumerationLength(n: nat, k: int)
    ensures |Enumeration(Pow2(n), k)| == Choose(n, k)
  {
    if k == 0 {
      OnlyZeroHasNoBits(Pow2(n));
    } else if n == 0 {
      assert Enumeration(1, k) == Enumeration(0, k);
    } else {
      EnumerationOfDouble(Pow2(n - 1), k);
      EnumerationLength(n - 1, k);
      EnumerationLength(n - 1, k - 1);
    }
  }

  /** Below 2b, the even numbers behave like those below b and the odd ones have one bit more. */
  lemma {:induction false} EnumerationOfDouble(b: nat, k: int)
    ensures |Enumeration(2 * b, k)| == |Enumeration(b, k)| + |Enumeration(b, k - 1)|
  {
    if b > 0 {
      EnumerationOfDouble(b - 1, k);
      var e := 2 * b - 2;
      PopCountDigit(b - 1, 0);
      PopCountDigit(b - 1, 1);
      assert Enumeration(2 * b, k) == Enumeration(e + 1, k) + if PopCount(e + 1) == k then [e + 1] else [];
      assert Enumeration(e + 1, k) == Enumeration(e, k) + if PopCount(e) == k then [e] else [];
    }
  }

  /** Choose is the binomial coefficient n! / (k! (n - k)!). */
  lemma {:induction false} ChooseIsBinomial(n: nat, k: nat)
    requires k <= n
    ensures Choose(n, k) * (Factorial(k) * Factorial(n - k)) == Factorial(n)
  {
    if k == 0 {
    } else if k == n {
      ChooseIsBinomial(n - 1, k - 1);
      ChooseNone(n - 1, k);
    } else {
      ChooseIsBinomial(n - 1, k - 1);
      ChooseIsBinomial(n - 1, k);
      PascalStep(n, k, Choose(n - 1, k - 1), Choose(n - 1, k), Factorial(k - 1), Factorial(n - k - 1), Factorial(n - 1));
    }
  }

  lemma PascalStep(n: nat, k: nat, a: nat, b: nat, f: nat, g: nat, t: nat)
    requires 0 < k < n
    requires a * (f * ((n - k) * g)) == t && b * ((k * f) * g) == t
    ensures (a + b) * ((k * f) * ((n - k) * g)) == n * t
  {
    calc {
      (a + b) * ((k * f) * ((n - k) * g));
      a * ((k * f) * ((n - k) * g)) + b * ((k * f) * ((n - k) * g));
      { assert (k * f) * ((n - k) * g) == k * (f * ((n - k) * g)); }
      a * (k * (f * ((n - k) * g))) + b * ((k * f) * ((n - k) * g));
      { assert (k * f) * ((n - k) * g) == (n - k) * ((k * f) * g); }
      k * (a * (f * ((n - k) * g))) + (n - k) * (b * ((k * f) * g));
      k * t + (n - k) * t;
      n * t;
    }
  }

  lemma {:induction false} ChooseNone(n: nat, k: int)
    requires k > n
    ensures Choose(n, k) == 0
  {
    if n > 0 {
      ChooseNone(n - 1, k);
      ChooseNone(n - 1, k - 1);
    }
  }
}
