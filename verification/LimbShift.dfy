/**
 * In-place shifts of a limb array by any number of bits: mbedtls_mpi_core_shift_r and
 * mbedtls_mpi_core_shift_l.
 */
module LimbShift {
  import opened Limbs
  import opened LimbArithmetic
  import opened Bits
  import opened Division

  /** x >> k on one limb */
  function Shr(x: Limb, k: nat): (r: Limb)
  {
    QuotientFits(x, Pow2(k));
    x / Pow2(k)
  }

  lemma QuotientFits(x: nat, p: nat)
    requires p > 0
    ensures 0 <= x / p <= x
  {
    DivMod(x, p);
    if x / p < 0 {
      MulIncreases(x / p, -1, p);
    } else {
      MulIncreases(1, p, x / p);
    }
  }

  /** x << k on one limb: bits above the limb are lost */
  function Shl(x: Limb, k: nat): (r: Limb)
  {
    (x * Pow2(k)) % 0x1_0000_0000
  }

  lemma Pow2Of32()
    ensures Pow2(32) == 0x1_0000_0000
  {
    assert Pow2(8) == 0x100;
    Pow2Add(8, 8);
    Pow2Add(16, 16);
  }

  lemma LimbPow2(v: nat)
    requires v <= 32
    ensures Pow2(v) * Pow2(32 - v) == 0x1_0000_0000
    ensures Pow2(v) <= 0x1_0000_0000 && (v < 32 ==> Pow2(v) < 0x1_0000_0000)
  {
    hide Pow2;
    Pow2Of32();
    Pow2Add(v, 32 - v);
    MulIncreases(1, Pow2(32 - v), Pow2(v));
    if v < 32 {
      Pow2Add(1, 31 - v);
      Pow2One();
      MulIncreases(2, Pow2(32 - v), Pow2(v));
    }
  }

  lemma Pow2One()
    ensures Pow2(0) == 1 && Pow2(1) == 2
  {
  }

  lemma {:induction false} RadixIsPow2(n: nat)
    ensures Radix(n) == Pow2(32 * n)
  {
    if n > 0 {
      RadixIsPow2(n - 1);
      LimbPow2(32);
      Pow2Add(32, 32 * n - 32);
    }
  }

  /** A shift count is whole limbs and the bits left over. */
  lemma CountWeight(count: nat)
    ensures Radix(count / 32) * Pow2(count % 32) == Pow2(count)
  {
    hide Radix, Pow2;
    RadixIsPow2(count / 32);
    Pow2Add(32 * (count / 32), count % 32);
  }

  // ---------------------------------------------------------------- right shift

  /** Shifting x + 2^32 * V right by the factor P, where P * Q == 2^32. */
  lemma ShiftRightStep(x: nat, V: nat, P: int, Q: int)
    requires P > 0 && Q > 0 && P * Q == 0x1_0000_0000
    ensures (x + 0x1_0000_0000 * V) / P == x / P + Q * (V % P) + 0x1_0000_0000 * (V / P)
    ensures (x + 0x1_0000_0000 * V) % P == x % P
  {
    DivMod(x, P);
    DivMod(V, P);
    var q := x / P + Q * V;
    assert q * P == (x / P) * P + (P * Q) * V by {
      assert (Q * V) * P == (P * Q) * V;
    }
    DivUnique(x + 0x1_0000_0000 * V, P, q, x % P);
    assert Q * V == Q * (V % P) + (P * Q) * (V / P) by {
      assert Q * ((V / P) * P) == (P * Q) * (V / P);
    }
  }

  lemma HighBits(x: Limb, P: int, Q: int)
    requires P > 0 && Q > 0 && P * Q == 0x1_0000_0000
    ensures (x * Q) % 0x1_0000_0000 == Q * (x % P) && x / P < Q
  {
    DivMod(x, P);
    var q, r := x / P, x % P;
    assert x * Q == q * 0x1_0000_0000 + Q * r by {
      assert (q * P + r) * Q == q * (P * Q) + Q * r;
    }
    assert 0 <= Q * r < P * Q by {
      MulIncreases(r, P - 1, Q);
      assert (P - 1) * Q == P * Q - Q;
    }
    DivUnique(x * Q, 0x1_0000_0000, q, Q * r);
    if q >= Q {
      MulIncreases(Q, q, P);
    }
  }

  /** hi above lo, where lo has room for Q values: below P * Q. */
  lemma JoinFits(hi: nat, lo: nat, P: int, Q: int)
    requires hi < P && lo < Q
    ensures 0 <= hi * Q + lo < P * Q
  {
    MulIncreases(hi, P - 1, Q);
    assert (P - 1) * Q == P * Q - Q;
    MulIncreases(0, hi, Q);
  }

  /** One limb of the right shift: the new limb and the bits handed down. */
  lemma ShiftRightLimb(x: Limb, V: nat, v: nat)
    requires 0 < v < 32
    ensures var r0 := Pow2(32 - v) * (V % Pow2(v)); var y := BitOr(Shr(x, v), r0);
            && y < 0x1_0000_0000
            && (x + 0x1_0000_0000 * V) / Pow2(v) == y + 0x1_0000_0000 * (V / Pow2(v))
            && Shl(x, 32 - v) == Pow2(32 - v) * ((x + 0x1_0000_0000 * V) % Pow2(v))
  {
    hide Pow2, BitOr;
    var P, Q := Pow2(v), Pow2(32 - v);
    LimbPow2(v);
    ShiftRightStep(x, V, P, Q);
    HighBits(x, P, Q);
    OrIsSum(V % P, 32 - v, x / P);
    OrCommutes((V % P) * Q, x / P);
    JoinFits(V % P, x / P, P, Q);
  }

  /** Limbs moved down by v0 places. */
  lemma DropIsDivision(s: seq<Limb>, v0: nat)
    requires v0 <= |s|
    ensures Val(s[v0..]) == Val(s) / Radix(v0)
  {
    hide Val, Radix;
    ValSplit(s, v0);
    ValBound(s[..v0]);
    assert Radix(v0) * Val(s[v0..]) == Val(s[v0..]) * Radix(v0);
    DivUnique(Val(s), Radix(v0), Val(s[v0..]), Val(s[..v0]));
  }

  /** X >> (32 v0 + v1): the limb move, then the bit move. */
  lemma ShiftRightTotal(x: seq<Limb>, count: nat)
    requires count / 32 <= |x|
    ensures Val(x[count / 32..]) / Pow2(count % 32) == Val(x) / Pow2(count)
  {
    hide Val, Radix, Pow2;
    var v0, v1 := count / 32, count % 32;
    DropIsDivision(x, v0);
    CountWeight(count);
    DivTwice(Val(x), Radix(v0), Pow2(v1));
  }

  /** Everything is shifted out. */
  lemma ShiftRightAll(x: seq<Limb>, count: nat)
    requires count >= 32 * |x|
    ensures Val(x) / Pow2(count) == 0
  {
    hide Val, Radix, Pow2;
    ValBound(x);
    RadixIsPow2(|x|);
    Pow2Add(32 * |x|, count - 32 * |x|);
    BelowDivisor(Val(x), Pow2(32 * |x|), Pow2(count - 32 * |x|), Pow2(count));
  }

  lemma BelowDivisor(v: nat, p: int, d: int, c: int)
    requires 0 < p && 0 < d && c == p * d && v < p
    ensures v / c == 0
  {
    MulIncreases(1, d, p);
    DivUnique(v, c, 0, v);
  }

  lemma ValPadded(s: seq<Limb>, n: nat)
    ensures Val(s + seq(n, _ => 0)) == Val(s)
  {
    hide Val, Radix;
    ValAppend(s, seq(n, _ => 0));
    ValZeros(seq(n, _ => 0));
  }

  /** mbedtls_mpi_core_shift_r: floor division by 2^count, for every count. */
  method ShiftR(X: array<Limb>, limbs: nat, count: nat)
    requires limbs <= X.Length
    modifies X
    ensures Val(X[..limbs]) == Val(old(X[..limbs])) / Pow2(count)
    ensures OnlyChanged(X, 0, limbs)
  {
    hide Val, Radix, Pow2;
    ghost var x := X[..limbs];
    var v0, v1 := count / 32, count % 32;
    if v0 > limbs || (v0 == limbs && v1 > 0) {
      ClearLimbs(X, 0, limbs);
      ValZeros(X[..limbs]);
      ShiftRightAll(x, count);
      return;
    }
    MoveLimbsDown(X, limbs, v0);
    assert X[..limbs] == x[v0..] + seq(v0, _ => 0);
    ValPadded(x[v0..], v0);
    ShiftRightTotal(x, count);
    if v1 > 0 {
      ShiftBitsRight(X, limbs, v1);
    } else {
      Pow2One();
    }
  }

  /** The limb move of the right shift. */
  method MoveLimbsDown(X: array<Limb>, limbs: nat, v0: nat)
    requires v0 <= limbs <= X.Length
    modifies X
    ensures X[..limbs] == old(X[v0..limbs]) + seq(v0, _ => 0)
    ensures OnlyChanged(X, 0, limbs)
  {
    if v0 > 0 {
      var i := 0;
      while i < limbs - v0
        invariant 0 <= i <= limbs - v0
        invariant forall j :: 0 <= j < i ==> X[j] == old(X[j + v0])
        invariant forall j :: i <= j < X.Length ==> X[j] == old(X[j])
      {
        X[i] := X[i + v0];
        i := i + 1;
      }
      while i < limbs
        invariant limbs - v0 <= i <= limbs
        invariant forall j :: 0 <= j < limbs - v0 ==> X[j] == old(X[j + v0])
        invariant forall j :: limbs - v0 <= j < i ==> X[j] == 0
        invariant forall j :: i <= j < X.Length ==> X[j] == old(X[j])
      {
        X[i] := 0;
        i := i + 1;
      }
    }
  }

  /** The bit move of the right shift, from the top limb down. */
  method ShiftBitsRight(X: array<Limb>, limbs: nat, v1: nat)
    requires limbs <= X.Length && 0 < v1 < 32
    modifies X
    ensures Val(X[..limbs]) == Val(old(X[..limbs])) / Pow2(v1)
    ensures OnlyChanged(X, 0, limbs)
  {
    hide Radix, Pow2, Shl, Shr, BitOr;
    ghost var x := X[..limbs];
    var r0: Limb, i := 0, limbs;
    NothingShifted(v1);
    while i > 0
      invariant 0 <= i <= limbs
      invariant X[..i] == x[..i]
      invariant Val(X[i..limbs]) == Val(x[i..]) / Pow2(v1)
      invariant r0 == Pow2(32 - v1) * (Val(x[i..]) % Pow2(v1))
      invariant OnlyChanged(X, 0, limbs)
    {
      ghost var hi := X[i..limbs];
      assert X[i - 1] == x[i - 1];
      ShiftRightLimb(X[i - 1], Val(x[i..]), v1);
      assert x[i - 1..][1..] == x[i..];
      var r1 := Shl(X[i - 1], 32 - v1);
      X[i - 1] := BitOr(Shr(X[i - 1], v1), r0);
      assert X[i - 1..limbs][1..] == hi;
      r0 := r1;
      i := i - 1;
    }
    assert X[0..limbs] == X[..limbs] && x[0..] == x;
  }

  lemma NothingShifted(v: nat)
    ensures Val([]) / Pow2(v) == 0 && Pow2(32) * (Val([]) % Pow2(v)) == 0
    ensures v <= 32 ==> Pow2(32 - v) * (Val([]) % Pow2(v)) == 0
  {
    DivUnique(0, Pow2(v), 0, 0);
  }

  // ---------------------------------------------------------------- left shift

  /** One limb of the left shift: the new limb and the bits handed up. */
  lemma ShiftLeftLimb(x: Limb, r0: Limb, v: nat)
    requires 0 < v < 32 && r0 < Pow2(v)
    ensures var y := BitOr(Shl(x, v), r0); var r1 := Shr(x, 32 - v);
            && y < 0x1_0000_0000 && r1 < Pow2(v)
            && y + 0x1_0000_0000 * r1 == x * Pow2(v) + r0
  {
    hide Pow2, BitOr;
    var P, Q := Pow2(v), Pow2(32 - v);
    LimbPow2(v);
    HighBits(x, Q, P);
    OrIsSum(x % Q, v, r0);
    SplitProduct(x, P, Q);
    JoinFits(x % Q, r0, Q, P);
  }

  lemma SplitProduct(x: int, P: int, Q: int)
    requires Q > 0 && P * Q == 0x1_0000_0000
    ensures x * P == 0x1_0000_0000 * (x / Q) + (x % Q) * P
  {
    DivMod(x, Q);
    assert ((x / Q) * Q) * P == (x / Q) * (P * Q);
    assert ((x / Q) * Q + x % Q) * P == ((x / Q) * Q) * P + (x % Q) * P;
  }

  /** The limbs of x times p, modulo the width: what is left when the carry is dropped. */
  lemma ScaledModulo(y: seq<Limb>, c: Limb, x: seq<Limb>, p: Limb)
    requires |y| == |x| && MlaSum(y, c, seq(|x|, _ => 0), x, p, 0)
    ensures Val(y) == (Val(x) * p) % Radix(|y|)
  {
    hide Val, Radix;
    ValZeros(seq(|x|, _ => 0));
    ValBound(y);
    DivUnique(Val(x) * p, Radix(|y|), c, Val(y));
  }

  /** Scaling by R, then reducing: the low limbs are zero and the rest is reduced by the smaller radix. */
  lemma ModScaled(a: nat, R: int, M: int)
    requires R > 0 && M > 0
    ensures R * M > 0 && (R * a) % (R * M) == R * (a % M)
  {
    DivMod(a, M);
    assert R * ((a / M) * M + a % M) == (a / M) * (R * M) + R * (a % M);
    MulIncreases(a % M, M - 1, R);
    assert (M - 1) * R == R * M - R;
    assert R * (a % M) >= 0;
    DivUnique(R * a, R * M, a / M, R * (a % M));
  }

  ghost predicate IsProductMod(y: nat, x: nat, p: int, m: int)
  {
    m > 0 && y == (x * p) % m
  }

  /** The limbs that leave at the top do not matter modulo the width. */
  lemma ShiftLeftTotal(x: seq<Limb>, y: seq<Limb>, count: nat, v0: nat, v1: nat)
    requires v0 == count / 32 && v1 == count % 32
    requires v0 <= |x| && |y| == |x| && y[..v0] == seq(v0, _ => 0)
    requires IsProductMod(Val(y[v0..]), Val(x[..|x| - v0]), Pow2(v1), Radix(|x| - v0))
    ensures IsProductMod(Val(y), Val(x), Pow2(count), Radix(|x|))
  {
    hide Val, Radix, Pow2, IsProductMod;
    CountWeight(count);
    ShiftLeftSplit(x, y, v0, Pow2(v1), Pow2(count));
  }

  lemma ShiftLeftSplit(x: seq<Limb>, y: seq<Limb>, v0: nat, P: nat, C: int)
    requires v0 <= |x| && |y| == |x| && y[..v0] == seq(v0, _ => 0) && C == Radix(v0) * P
    requires IsProductMod(Val(y[v0..]), Val(x[..|x| - v0]), P, Radix(|x| - v0))
    ensures IsProductMod(Val(y), Val(x), C, Radix(|x|))
  {
    hide Val, Radix, IsProductMod;
    var n := |x| - v0;
    RadixAdd(v0, n);
    ValSplit(x, n);
    LowLimbsZero(y, v0);
    ShiftLeftSum(Val(x), Val(x[..n]), Val(x[n..]), Val(y[v0..]), Val(y), Radix(v0), Radix(n), P, C, Radix(|x|));
  }

  lemma LowLimbsZero(y: seq<Limb>, v0: nat)
    requires v0 <= |y| && y[..v0] == seq(v0, _ => 0)
    ensures Val(y) == Radix(v0) * Val(y[v0..])
  {
    hide Val, Radix;
    ValSplit(y, v0);
    ValZeros(y[..v0]);
  }

  lemma ShiftLeftSum(v: nat, low: nat, high: nat, y: nat, z: nat, R: int, M: int, P: nat, C: int, W: int)
    requires R > 0 && M > 0 && W == R * M && C == R * P && v == low + M * high
    requires IsProductMod(y, low, P, M) && z == R * y
    ensures IsProductMod(z, v, C, W)
  {
    assert (low + M * high) * (R * P) == R * (low * P) + (high * P) * (R * M);
    MulIncreases(0, low, P);
    ModScaled(low * P, R, M);
    AddMultiple(R * (low * P), R * M, high * P);
  }

  /** mbedtls_mpi_core_shift_l: multiplication by 2^count modulo the width, for every count. */
  method ShiftL(X: array<Limb>, limbs: nat, count: nat)
    requires limbs <= X.Length
    modifies X
    ensures Val(X[..limbs]) == (Val(old(X[..limbs])) * Pow2(count)) % Radix(limbs)
    ensures OnlyChanged(X, 0, limbs)
  {
    hide Val, Radix, Pow2;
    ghost var x := X[..limbs];
    var v0, v1 := count / 32, count % 32;
    MoveLimbsUp(X, limbs, v0);
    if v0 > limbs {
      ValZeros(X[..limbs]);
      ShiftLeftAll(x, count);
    } else {
      assert X[v0..limbs] == x[..limbs - v0];
      ShiftBitsLeft(X, limbs, v0, v1);
      assert X[..limbs][v0..] == X[v0..limbs];
      assert X[..limbs][..v0] == seq(v0, _ => 0);
      ShiftLeftTotal(x, X[..limbs], count, v0, v1);
    }
  }

  lemma ShiftLeftAll(x: seq<Limb>, count: nat)
    requires count / 32 > |x|
    ensures (Val(x) * Pow2(count)) % Radix(|x|) == 0
  {
    hide Val, Radix, Pow2;
    RadixIsPow2(|x|);
    Pow2Add(32 * |x|, count - 32 * |x|);
    var k := Val(x) * Pow2(count - 32 * |x|);
    assert Val(x) * Pow2(count) == k * Radix(|x|);
    DivUnique(Val(x) * Pow2(count), Radix(|x|), k, 0);
  }

  /** The limb move of the left shift, from the top limb down. */
  method MoveLimbsUp(X: array<Limb>, limbs: nat, v0: nat)
    requires limbs <= X.Length
    modifies X
    ensures forall j :: 0 <= j < limbs && j < v0 ==> X[j] == 0
    ensures forall j :: v0 <= j < limbs ==> X[j] == old(X[j - v0])
    ensures OnlyChanged(X, 0, limbs)
  {
    if v0 > 0 {
      var i := limbs;
      while i > v0
        invariant v0 <= i <= limbs || i == limbs
        invariant forall j :: i <= j < limbs ==> X[j] == old(X[j - v0])
        invariant forall j :: 0 <= j < i || limbs <= j < X.Length ==> X[j] == old(X[j])
      {
        X[i - 1] := X[i - v0 - 1];
        i := i - 1;
      }
      ClearLimbs(X, 0, i);
    }
  }

  lemma ShiftByZero(x: seq<Limb>)
    ensures (Val(x) * Pow2(0)) % Radix(|x|) == Val(x)
  {
    hide Val, Radix;
    ValBound(x);
    DivUnique(Val(x), Radix(|x|), 0, Val(x));
  }

  /** The bit move of the left shift, from limb v0 up. */
  method ShiftBitsLeft(X: array<Limb>, limbs: nat, v0: nat, v1: nat)
    requires v0 <= limbs <= X.Length && v1 < 32
    modifies X
    ensures Val(X[v0..limbs]) == (Val(old(X[v0..limbs])) * Pow2(v1)) % Radix(limbs - v0)
    ensures OnlyChanged(X, v0, limbs - v0)
  {
    hide Val, Radix, Pow2, Shl, Shr, BitOr, MlaSum;
    ghost var x := X[v0..limbs];
    if v1 == 0 {
      ShiftByZero(x);
      return;
    }
    var r0: Limb := 0;
    LimbPow2(v1);
    ghost var P: Limb := Pow2(v1);
    MlaSumEmpty(P, 0);
    assert X[v0..v0] == [] && x[..0] == [] && seq<Limb>(0, _ => 0) == [];
    var i := v0;
    while i < limbs
      invariant v0 <= i <= limbs && r0 < P
      invariant MlaSum(X[v0..i], r0, seq(i - v0, _ => 0), x[..i - v0], P, 0)
      invariant forall j :: i <= j < limbs ==> X[j] == x[j - v0]
      invariant OnlyChanged(X, v0, limbs - v0)
    {
      ghost var y, k := X[v0..i], i - v0;
      assert X[i] == x[k];
      ShiftLeftLimb(X[i], r0, v1);
      var r1 := Shr(X[i], 32 - v1);
      ghost var t: Limb := BitOr(Shl(X[i], v1), r0);
      MlaSumExtend(y, r0, seq(k, _ => 0), x[..k], P, 0, t, r1, 0, x[k]);
      assert seq(k + 1, _ => 0) == seq(k, _ => 0) + [0];
      assert x[..k + 1] == x[..k] + [x[k]];
      X[i] := BitOr(Shl(X[i], v1), r0);
      assert X[v0..i + 1] == y + [t];
      r0 := r1;
      i := i + 1;
    }
    assert x[..limbs - v0] == x;
    ScaledModulo(X[v0..limbs], r0, x, P);
  }
}
