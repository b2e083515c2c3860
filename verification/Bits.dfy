/** Powers of two and bitwise or on natural numbers. */
module Bits {
  import opened Division

  function Pow2(n: nat): (p: nat)
    ensures p > 0
  {
    if n == 0 then 1 else 2 * Pow2(n - 1)
  }

  lemma {:induction false} Pow2Add(m: nat, n: nat)
    ensures Pow2(m + n) == Pow2(m) * Pow2(n)
  {
    if m > 0 {
      Pow2Add(m - 1, n);
      assert m + n - 1 == (m - 1) + n;
      assert 2 * (Pow2(m - 1) * Pow2(n)) == Pow2(m) * Pow2(n);
    }
  }

  /** Bitwise or, one binary digit at a time. */
  function BitOr(x: nat, y: nat): (r: nat)
    decreases x + y
  {
    if x == 0 && y == 0 then 0
    else (if x % 2 == 1 || y % 2 == 1 then 1 else 0) + 2 * BitOr(x / 2, y / 2)
  }

  /** Numbers with no common bit position are or-ed by adding them. */
  lemma {:induction false} OrIsSum(x: nat, k: nat, y: nat)
    requires y < Pow2(k)
    ensures BitOr(x * Pow2(k), y) == x * Pow2(k) + y
  {
    if k == 0 {
      OrZero(x);
    } else {
      var p := Pow2(k - 1);
      assert x * Pow2(k) == 2 * (x * p);
      assert (x * Pow2(k)) / 2 == x * p && (x * Pow2(k)) % 2 == 0;
      OrIsSum(x, k - 1, y / 2);
    }
  }

  lemma {:induction false} OrZero(x: nat)
    ensures BitOr(x, 0) == x
  {
    if x > 0 {
      OrZero(x / 2);
    }
  }

  /** Or does not depend on the order of its operands. */
  lemma {:induction false} OrCommutes(x: nat, y: nat)
    ensures BitOr(x, y) == BitOr(y, x)
    decreases x + y
  {
    if x > 0 || y > 0 {
      OrCommutes(x / 2, y / 2);
    }
  }

  /** Bitwise exclusive or, one binary digit at a time. */
  function BitXor(x: nat, y: nat): (r: nat)
    decreases x + y
  {
    if x == 0 && y == 0 then 0
    else (if x % 2 != y % 2 then 1 else 0) + 2 * BitXor(x / 2, y / 2)
  }

  lemma XorStep(x: nat, y: nat)
    ensures BitXor(x, y) / 2 == BitXor(x / 2, y / 2)
    ensures BitXor(x, y) % 2 == if x % 2 != y % 2 then 1 else 0
  {
  }

  /** Binary digit k of a number. */
  function Bit(x: nat, k: nat): (b: nat)
    ensures b <= 1
  {
    x / Pow2(k) % 2
  }

  /** The digits of a number are those of its half, and its parity. */
  lemma BitOfHalf(x: nat, k: nat)
    ensures Bit(x, 0) == x % 2 && Bit(x, k + 1) == Bit(x / 2, k)
  {
    hide Pow2;
    PowerSteps(k);
    DivTwice(x, 2, Pow2(k));
  }

  lemma PowerSteps(k: nat)
    ensures Pow2(0) == 1 && Pow2(k + 1) == 2 * Pow2(k)
  {
  }

  /** Every digit of the exclusive or is the sum of the two digits modulo 2. */
  lemma {:induction false} XorBits(x: nat, y: nat, k: nat)
    ensures Bit(BitXor(x, y), k) == (Bit(x, k) + Bit(y, k)) % 2
    decreases k
  {
    hide Bit, BitXor;
    XorStep(x, y);
    if k == 0 {
      BitOfHalf(x, 0);
      BitOfHalf(y, 0);
      BitOfHalf(BitXor(x, y), 0);
    } else {
      BitOfHalf(x, k - 1);
      BitOfHalf(y, k - 1);
      BitOfHalf(BitXor(x, y), k - 1);
      XorBits(x / 2, y / 2, k - 1);
    }
  }

  /** A digit of the inclusive or is set where one of the two is. */
  lemma {:induction false} OrBits(x: nat, y: nat, k: nat)
    ensures Bit(BitOr(x, y), k) == if Bit(x, k) == 1 || Bit(y, k) == 1 then 1 else 0
    decreases k
  {
    hide Bit, BitOr;
    OrStep(x, y);
    if k == 0 {
      BitOfHalf(x, 0);
      BitOfHalf(y, 0);
      BitOfHalf(BitOr(x, y), 0);
    } else {
      BitOfHalf(x, k - 1);
      BitOfHalf(y, k - 1);
      BitOfHalf(BitOr(x, y), k - 1);
      OrBits(x / 2, y / 2, k - 1);
    }
  }

  lemma OrStep(x: nat, y: nat)
    ensures BitOr(x, y) / 2 == BitOr(x / 2, y / 2)
    ensures BitOr(x, y) % 2 == if x % 2 == 1 || y % 2 == 1 then 1 else 0
  {
  }

  /** Adding the same number twice changes nothing. */
  lemma {:induction false} XorCancel(x: nat, y: nat)
    ensures BitXor(BitXor(x, y), y) == x
    decreases x + y
  {
    if x > 0 || y > 0 {
      XorCancel(x / 2, y / 2);
      XorStep(x, y);
    }
  }

  lemma {:induction false} XorCommutes(x: nat, y: nat)
    ensures BitXor(x, y) == BitXor(y, x)
    decreases x + y
  {
    if x > 0 || y > 0 {
      XorCommutes(x / 2, y / 2);
    }
  }

  lemma {:induction false} XorBound(x: nat, y: nat, k: nat)
    requires x < Pow2(k) && y < Pow2(k)
    ensures BitXor(x, y) < Pow2(k)
    decreases k
  {
    if k > 0 {
      XorBound(x / 2, y / 2, k - 1);
    }
  }

  /** The high digits are not touched by a number that has only low digits. */
  lemma {:induction false} XorLow(lo: nat, hi: nat, y: nat, k: nat)
    requires lo < Pow2(k) && y < Pow2(k)
    ensures BitXor(lo + Pow2(k) * hi, y) == BitXor(lo, y) + Pow2(k) * hi
    decreases k
  {
    if k == 0 {
      XorZero(hi);
    } else {
      var p := Pow2(k - 1);
      assert Pow2(k) * hi == 2 * (p * hi);
      var x := lo + Pow2(k) * hi;
      assert x / 2 == lo / 2 + p * hi && x % 2 == lo % 2;
      XorLow(lo / 2, hi, y / 2, k - 1);
    }
  }

  lemma {:induction false} XorZero(x: nat)
    ensures BitXor(x, 0) == x
  {
    if x > 0 {
      XorZero(x / 2);
    }
  }
}
