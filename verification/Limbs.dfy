/**
 * Little-endian limb sequences and the numbers they stand for.
 *
 * A limb is a mbedtls_mpi_uint; the width is fixed at 32 bits (biL == 32, ciL == 4), the
 * width of the RP2040. A number is the sequence of its limbs, least significant first.
 */
module Limbs {
  import opened Division

  type Limb = x: int | 0 <= x < 0x1_0000_0000

  /** The number a limb sequence stands for. */
  function Val(s: seq<Limb>): (v: nat)
  {
    if s == [] then 0 else s[0] + 0x1_0000_0000 * Val(s[1..])
  }

  /** 2^(32 n): one more than the largest number of n limbs. */
  function Radix(n: nat): (r: nat)
    ensures r > 0
  {
    if n == 0 then 1 else 0x1_0000_0000 * Radix(n - 1)
  }

  lemma RadixStep(n: nat)
    ensures Radix(n + 1) == 0x1_0000_0000 * Radix(n)
  {
  }

  lemma {:induction false} RadixAdd(m: nat, n: nat)
    ensures Radix(m + n) == Radix(m) * Radix(n)
  {
    if m > 0 {
      RadixAdd(m - 1, n);
      assert m + n - 1 == (m - 1) + n;
    }
  }

  lemma {:induction false} ValBound(s: seq<Limb>)
    ensures Val(s) < Radix(|s|)
  {
    if s != [] {
      ValBound(s[1..]);
    }
  }

  lemma {:induction false} ValAppend(s: seq<Limb>, t: seq<Limb>)
    ensures Val(s + t) == Val(s) + Radix(|s|) * Val(t)
  {
    if s == [] {
      assert s + t == t;
    } else {
      ValAppend(s[1..], t);
      assert (s + t)[1..] == s[1..] + t;
      assert 0x1_0000_0000 * (Radix(|s| - 1) * Val(t)) == Radix(|s|) * Val(t);
    }
  }

  lemma ValSnoc(s: seq<Limb>, x: Limb)
    ensures Val(s + [x]) == Val(s) + Radix(|s|) * x
  {
    ValAppend(s, [x]);
    assert Val([x]) == x;
  }

  /** A prefix and the limb after it. */
  lemma ValTakeNext(s: seq<Limb>, k: nat)
    requires k < |s|
    ensures Val(s[..k + 1]) == Val(s[..k]) + Radix(k) * s[k]
  {
    ValSnoc(s[..k], s[k]);
    assert s[..k + 1] == s[..k] + [s[k]];
  }

  lemma ValSplit(s: seq<Limb>, k: nat)
    requires k <= |s|
    ensures Val(s) == Val(s[..k]) + Radix(k) * Val(s[k..])
  {
    hide *;
    ValAppend(s[..k], s[k..]);
    assert s == s[..k] + s[k..];
  }

  /** Equal numbers of equal limb counts are equal limb by limb. */
  lemma {:induction false} ValInjective(s: seq<Limb>, t: seq<Limb>)
    requires |s| == |t|
    requires Val(s) == Val(t)
    ensures s == t
  {
    if s != [] {
      ValInjective(s[1..], t[1..]);
      assert s == [s[0]] + s[1..];
      assert t == [t[0]] + t[1..];
    }
  }

  lemma {:induction false} ValZeros(s: seq<Limb>)
    requires forall i :: 0 <= i < |s| ==> s[i] == 0
    ensures Val(s) == 0
  {
    if s != [] {
      ValZeros(s[1..]);
    }
  }

  /** The lowest limb is the number modulo the limb base. */
  lemma ValLowLimb(s: seq<Limb>)
    requires s != []
    ensures Val(s) % 0x1_0000_0000 == s[0]
  {
    LowPart(s[0], Val(s[1..]));
  }

  lemma LowPart(x: Limb, v: nat)
    ensures (x + 0x1_0000_0000 * v) % 0x1_0000_0000 == x
  {
    DivUnique(x + 0x1_0000_0000 * v, 0x1_0000_0000, v, x);
  }
}
