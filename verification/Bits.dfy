/**
 Bit operations on unbounded integers: Python's int operators, and the 64-bit
 masks of the C++ code where every value stays below 2^64.
 */
module Bits {

  function Pow2(n: nat): (r: nat)
    ensures r >= 1
  {
    if n == 0 then 1 else 2 * Pow2(n - 1)
  }

  /** x & y; a negative y is read in two's complement with infinitely many sign bits. */
  function And(x: nat, y: int): nat {
    if x == 0 then 0 else 2 * And(x / 2, y / 2) + (if x % 2 == 1 && y % 2 == 1 then 1 else 0)
  }

  function Or(x: nat, y: nat): nat {
    if x == 0 then y
    else if y == 0 then x
    else 2 * Or(x / 2, y / 2) + (if x % 2 == 1 || y % 2 == 1 then 1 else 0)
  }

  function Xor(x: nat, y: nat): nat {
    if x == 0 then y
    else if y == 0 then x
    else 2 * Xor(x / 2, y / 2) + (if x % 2 != y % 2 then 1 else 0)
  }

  function ShiftLeft(x: nat, n: nat): nat {
    if n == 0 then x else 2 * ShiftLeft(x, n - 1)
  }

  function ShiftRight(x: nat, n: nat): nat
    decreases n
  {
    if n == 0 then x else ShiftRight(x / 2, n - 1)
  }

  /** Is bit b of x (two's complement when x is negative) set? */
  predicate Bit(x: int, b: nat)
    decreases b
  {
    if b == 0 then x % 2 == 1 else Bit(x / 2, b - 1)
  }

  function PopCount(x: nat): nat {
    if x == 0 then 0 else x % 2 + PopCount(x / 2)
  }

  // The operators mean what their names say, bit by bit.

  lemma {:induction false} AndBits(x: nat, y: int, b: nat)
    ensures Bit(And(x, y), b) <==> Bit(x, b) && Bit(y, b)
    decreases b
  {
    ZeroBits(b);
    if b > 0 && x > 0 {
      AndBits(x / 2, y / 2, b - 1);
    }
  }

  lemma {:induction false} OrBits(x: nat, y: nat, b: nat)
    ensures Bit(Or(x, y), b) <==> Bit(x, b) || Bit(y, b)
    decreases b
  {
    ZeroBits(b);
    if b > 0 && x > 0 && y > 0 {
      OrBits(x / 2, y / 2, b - 1);
    }
  }

  lemma {:induction false} XorBits(x: nat, y: nat, b: nat)
    ensures Bit(Xor(x, y), b) <==> Bit(x, b) != Bit(y, b)
    decreases b
  {
    ZeroBits(b);
    if b > 0 && x > 0 && y > 0 {
      XorBits(x / 2, y / 2, b - 1);
    }
  }

  lemma {:induction false} ZeroBits(b: nat)
    ensures !Bit(0, b)
  {
    if b > 0 {
      ZeroBits(b - 1);
    }
  }

  // Powers of two and shifts. Shifts are defined by doubling and halving, so that
  // most proofs below stay linear; these lemmas tie them to products and quotients.

  lemma {:induction false} Pow2IsShift(n: nat)
    ensures Pow2(n) == ShiftLeft(1, n)
  {
    if n > 0 {
      Pow2IsShift(n - 1);
    }
  }

  lemma {:induction false} Pow2Monotone(m: nat, n: nat)
    requires m <= n
    ensures Pow2(m) <= Pow2(n)
  {
    if m < n {
      Pow2Monotone(m, n - 1);
    }
  }

  lemma FourDoublings(n: nat)
    ensures Pow2(n + 4) == 16 * Pow2(n)
  {
    assert Pow2(n + 1) == 2 * Pow2(n);
    assert Pow2(n + 2) == 2 * Pow2(n + 1);
    assert Pow2(n + 3) == 2 * Pow2(n + 2);
  }

  lemma EightDoublings(n: nat)
    ensures Pow2(n + 8) == 256 * Pow2(n)
  {
    FourDoublings(n);
    FourDoublings(n + 4);
  }

  lemma Pow2Constants()
    ensures Pow2(32) == 0x1_0000_0000
    ensures Pow2(48) == 0x1_0000_0000_0000
    ensures Pow2(64) == 0x1_0000_0000_0000_0000
  {
    EightDoublings(0);
    EightDoublings(8);
    EightDoublings(16);
    EightDoublings(24);
    EightDoublings(32);
    EightDoublings(40);
    EightDoublings(48);
    EightDoublings(56);
  }

  /** x << n is x * 2^n. */
  lemma {:induction false} ShiftLeftMultiplies(x: nat, n: nat)
    ensures ShiftLeft(x, n) == x * Pow2(n)
  {
    if n > 0 {
      ShiftLeftMultiplies(x, n - 1);
      MulDouble(x, Pow2(n - 1));
    }
  }

  lemma MulDouble(x: nat, d: nat)
    ensures x * (2 * d) == 2 * (x * d)
  {
  }

  lemma {:induction false} ShiftLeftAdds(x: nat, y: nat, n: nat)
    ensures ShiftLeft(x + y, n) == ShiftLeft(x, n) + ShiftLeft(y, n)
  {
    if n > 0 {
      ShiftLeftAdds(x, y, n - 1);
    }
  }

  lemma {:induction false} ShiftLeftTwice(x: nat, m: nat, n: nat)
    ensures ShiftLeft(ShiftLeft(x, m), n) == ShiftLeft(x, m + n)
  {
    if n > 0 {
      ShiftLeftTwice(x, m, n - 1);
    }
  }

  lemma {:induction false} ShiftRightTwice(x: nat, m: nat, n: nat)
    ensures ShiftRight(ShiftRight(x, m), n) == ShiftRight(x, m + n)
    decreases m
  {
    if m > 0 {
      ShiftRightTwice(x / 2, m - 1, n);
    }
  }

  lemma {:induction false} ShiftBack(x: nat, n: nat)
    ensures ShiftRight(ShiftLeft(x, n), n) == x
  {
    if n > 0 {
      ShiftBack(x, n - 1);
    }
  }

  /** A number is its high part, shifted back up, and the bits under the mask 2^m - 1. */
  lemma {:induction false} SplitAt(x: nat, m: nat)
    ensures x == ShiftLeft(ShiftRight(x, m), m) + And(x, Pow2(m) - 1)
    ensures And(x, Pow2(m) - 1) < Pow2(m)
    decreases m
  {
    if m == 0 {
      AndZero(x);
    } else if x == 0 {
      SplitAt(0, m - 1);
    } else {
      SplitAt(x / 2, m - 1);
      assert (Pow2(m) - 1) / 2 == Pow2(m - 1) - 1 && (Pow2(m) - 1) % 2 == 1;
    }
  }

  /** x >> m is x / 2^m rounded down, and x & (2^m - 1) is the remainder. */
  lemma ShiftMaskDivMod(x: nat, m: nat)
    ensures ShiftRight(x, m) == x / Pow2(m)
    ensures And(x, Pow2(m) - 1) == x % Pow2(m)
  {
    SplitAt(x, m);
    ShiftLeftMultiplies(ShiftRight(x, m), m);
    DivModUnique(x, Pow2(m), ShiftRight(x, m), And(x, Pow2(m) - 1));
  }

  lemma {:induction false} AndWithComplement(x: nat, y: int)
    ensures And(x, y) + And(x, 0 - y - 1) == x
  {
    if x > 0 {
      assert (0 - y - 1) / 2 == 0 - y / 2 - 1;
      AndWithComplement(x / 2, y / 2);
    }
  }

  lemma DivModUnique(x: int, d: nat, q: int, r: nat)
    requires r < d && x == q * d + r
    ensures x / d == q && x % d == r
  {
    var e := x / d - q;
    assert e * d == r - x % d;
    MultipleBounds(d, e);
  }

  lemma MultipleBounds(d: nat, e: int)
    ensures e >= 1 ==> e * d >= d
    ensures e <= -1 ==> e * d + d <= 0
  {
  }

  /** Masking with a single bit tests that bit. */
  lemma {:induction false} AndPow2(x: nat, b: nat)
    ensures And(x, Pow2(b)) == if Bit(x, b) then Pow2(b) else 0
  {
    if x == 0 {
      ZeroBits(b);
    } else if b == 0 {
      AndZero(x / 2);
    } else {
      AndPow2(x / 2, b - 1);
    }
  }

  lemma {:induction false} AndZero(x: nat)
    ensures And(x, 0) == 0
  {
    if x > 0 {
      AndZero(x / 2);
    }
  }

  /** Disjoint blocks of bits: or-ing is adding. */
  lemma {:induction false} OrDisjoint(h: nat, r: nat, m: nat)
    requires r < Pow2(m)
    ensures Or(ShiftLeft(h, m), r) == ShiftLeft(h, m) + r
  {
    if m > 0 {
      OrDisjoint(h, r / 2, m - 1);
    }
  }

  // Population count.

  lemma PopCountDigit(y: nat, b: nat)
    requires b < 2
    ensures PopCount(2 * y + b) == PopCount(y) + b
  {
    assert (2 * y + b) / 2 == y;
  }

  lemma CarryHalf(g: nat, r: nat)
    ensures 2 * g + r == 2 * (g + r / 2) + r % 2
  {
  }

  lemma PopCountHalf(g: nat, r: nat)
    ensures PopCount(2 * g + r) == PopCount(g + r / 2) + r % 2
  {
    CarryHalf(g, r);
    PopCountDigit(g + r / 2, r % 2);
  }

  lemma {:induction false} PopCountSplit(h: nat, r: nat, m: nat)
    requires r < Pow2(m)
    ensures PopCount(ShiftLeft(h, m) + r) == PopCount(h) + PopCount(r)
  {
    if m > 0 {
      PopCountSplit(h, r / 2, m - 1);
      PopCountHalf(ShiftLeft(h, m - 1), r);
    }
  }

  lemma {:induction false} PopCountOnes(m: nat)
    ensures PopCount(Pow2(m) - 1) == m
  {
    if m > 0 {
      PopCountOnes(m - 1);
      assert (Pow2(m) - 1) / 2 == Pow2(m - 1) - 1;
    }
  }

  /** Below 2^m there are at most m set bits, and only 2^m - 1 has all m. */
  lemma {:induction false} PopCountBelow(x: nat, m: nat)
    requires x < Pow2(m)
    ensures PopCount(x) <= m
    ensures x != Pow2(m) - 1 ==> PopCount(x) < m
  {
    if m > 0 {
      PopCountBelow(x / 2, m - 1);
    }
  }

  lemma {:induction false} PopCountPositive(x: nat)
    requires x > 0
    ensures PopCount(x) > 0
  {
    if x % 2 == 0 {
      PopCountPositive(x / 2);
    }
  }
}
