/**
 Products, quotients and remainders by repeated addition and subtraction. Definitions
 built from these keep the proofs about layouts and page counts linear.
 */
module Multiples {
  import opened Bits

  function Times(k: nat, d: nat): nat {
    if k == 0 then 0 else Times(k - 1, d) + d
  }

  function Quot(x: nat, d: nat): nat
    requires d > 0
  {
    if x < d then 0 else Quot(x - d, d) + 1
  }

  function Rem(x: nat, d: nat): nat
    requires d > 0
  {
    if x < d then x else Rem(x - d, d)
  }

  lemma {:induction false} TimesIsProduct(k: nat, d: nat)
    ensures Times(k, d) == k * d
  {
    if k > 0 {
      TimesIsProduct(k - 1, d);
      OneMore(k - 1, d);
    }
  }

  lemma OneMore(m: int, d: int)
    ensures (m + 1) * d == m * d + d
  {
  }

  lemma {:induction false} QuotRem(x: nat, d: nat)
    requires d > 0
    ensures x == Times(Quot(x, d), d) + Rem(x, d) && Rem(x, d) < d
  {
    if x >= d {
      QuotRem(x - d, d);
    }
  }

  lemma QuotRemAreDivMod(x: nat, d: nat)
    requires d > 0
    ensures Quot(x, d) == x / d && Rem(x, d) == x % d
  {
    QuotRem(x, d);
    TimesIsProduct(Quot(x, d), d);
    DivModUnique(x, d, Quot(x, d), Rem(x, d));
  }

  lemma {:induction false} TimesMonotone(j: nat, k: nat, d: nat)
    requires j <= k
    ensures Times(j, d) <= Times(k, d)
  {
    if j < k {
      TimesMonotone(j, k - 1, d);
    }
  }

  lemma TimesOrder(j: nat, k: nat, d: nat)
    requires d > 0
    ensures Times(j, d) > Times(k, d) <==> j > k
  {
    if j <= k {
      TimesMonotone(j, k, d);
    } else {
      TimesMonotone(k + 1, j, d);
    }
  }

  lemma {:induction false} TimesAdd(j: nat, k: nat, d: nat)
    ensures Times(j + k, d) == Times(j, d) + Times(k, d)
  {
    if k > 0 {
      TimesAdd(j, k - 1, d);
    }
  }

  lemma {:induction false} TimesTimes(k: nat, c: nat, d: nat)
    ensures Times(Times(k, c), d) == Times(k, Times(c, d))
  {
    if k > 0 {
      TimesTimes(k - 1, c, d);
      TimesAdd(Times(k - 1, c), c, d);
    }
  }

  /** A number below k * d has a quotient below k. */
  lemma QuotBelow(x: nat, k: nat, d: nat)
    requires d > 0 && x < Times(k, d)
    ensures Quot(x, d) < k
  {
    QuotRem(x, d);
    if Quot(x, d) >= k {
      TimesMonotone(k, Quot(x, d), d);
    }
  }

  /** Positional notation is unique. */
  lemma SameDigits(d: nat, a: nat, r: nat, b: nat, t: nat)
    requires r < d && t < d && Times(a, d) + r == Times(b, d) + t
    ensures a == b && r == t
  {
    if a < b {
      DigitBelow(a, b, d, r);
    } else if b < a {
      DigitBelow(b, a, d, t);
    }
  }

  /** A digit below d on top of a shorter number stays below the longer number. */
  lemma DigitBelow(a: nat, b: nat, d: nat, r: nat)
    requires a < b && r < d
    ensures Times(a, d) + r < Times(b, d)
  {
    TimesMonotone(a + 1, b, d);
  }
}
