/**
 * Montgomery arithmetic of bignum_core.c: the inverse of the modulus, Montgomery
 * multiplication, and fixed-window exponentiation.
 */
module Montgomery {
  import opened Limbs
  import opened LimbArithmetic
  import opened Bits
  import opened LimbShift
  import opened Division

  // ---------------------------------------------------------------- -N^-1 modulo the limb base

  /** One Newton step: an inverse of N modulo m becomes an inverse modulo m * m. */
  lemma NewtonDoubles(N: int, x: int, x1: int, m: int, base: int, t: int)
    requires m > 1 && base == m * m * t && base > 0
    requires Cong(N * x, 1, m) && Cong(x1, x * (2 - N * x), base)
    ensures m * m > 0 && Cong(N * x1, 1, m * m)
  {
    var k := CongQuotient(N * x, 1, m);
    var j := CongQuotient(x1, x * (2 - N * x), base);
    var y := N * x;
    assert N * x1 == y * (2 - y) + (N * j) * base by {
      assert N * (x * (2 - N * x)) == y * (2 - y);
      assert N * (j * base) == (N * j) * base;
    }
    NewtonSquare(k, m);
    assert (N * j) * (m * m * t) == (N * j * t) * (m * m);
    var q := N * j * t - k * k;
    assert q * (m * m) == (N * j * t) * (m * m) - (k * k) * (m * m);
    CongIntro(N * x1, 1, q, m * m);
  }

  lemma NewtonSquare(k: int, m: int)
    ensures (1 + k * m) * (2 - (1 + k * m)) == 1 - (k * k) * (m * m)
  {
    var z := k * m;
    assert (1 + z) * (1 - z) == 1 - z * z;
    assert z * z == (k * k) * (m * m);
  }

  /** x = N + ((N + 2) & 4) << 1, the starting value of the iteration. */
  function NewtonSeed(n: Limb): (x: Limb)
  {
    var t: int := (n + 2) % 0x1_0000_0000;
    var bit2: int := ((t / 4) % 2) * 4;
    (n + 2 * bit2) % 0x1_0000_0000
  }

  lemma BitTwo(t: int)
    requires 0 <= t
    ensures (t / 4) % 2 == (t % 16) / 4 % 2
  {
    var q, r := t / 16, t % 16;
    DivUnique(t, 4, 4 * q + r / 4, r % 4);
    DivUnique(t / 4, 2, 2 * q + r / 4 / 2, r / 4 % 2);
  }

  lemma SeedResidue(n: Limb)
    requires n % 2 == 1
    ensures Cong(n, n % 16, 16)
    ensures Cong(NewtonSeed(n), n % 16 + (if (n % 16) % 8 == 3 || (n % 16) % 8 == 5 then 8 else 0), 16)
  {
    hide Cong;
    var t: int := (n + 2) % 0x1_0000_0000;
    BitTwo(t);
    SeedCarry(n);
    SeedBit(n % 16, t % 16);
    SeedSum(n, ((t / 4) % 2) * 8);
  }

  lemma SeedCarry(n: Limb)
    ensures (n + 2) % 0x1_0000_0000 % 16 == (n % 16 + 2) % 16
    ensures n % 2 == 1 ==> n % 16 % 2 == 1
  {
    var s: int := n + 2;
    var t: int := s % 0x1_0000_0000;
    assert t == s || t == s + (-0x1000_0000) * 16;
    AddMultiple(s, 16, -0x1000_0000);
    AddMultiple(n % 16 + 2, 16, n / 16);
    DivMod(n, 16);
    AddMultiple(n % 16, 2, 8 * (n / 16));
  }

  lemma SeedBit(r: int, u: int)
    requires 0 <= r < 16 && r % 2 == 1 && u == (r + 2) % 16
    ensures u / 4 % 2 == if r % 8 == 3 || r % 8 == 5 then 1 else 0
  {
  }

  lemma SeedSum(n: Limb, b: int)
    requires 0 <= b <= 8
    ensures Cong((n + b) % 0x1_0000_0000, n % 16 + b, 16) && Cong(n, n % 16, 16)
  {
    var x := n + b;
    assert x % 0x1_0000_0000 == if x < 0x1_0000_0000 then x else x - 0x1_0000_0000;
  }

  lemma InverseModulo16(r: int)
    requires 0 <= r < 16 && r % 2 == 1
    ensures Cong(r * (r + (if r % 8 == 3 || r % 8 == 5 then 8 else 0)), 1, 16)
  {
    assert r == 1 || r == 3 || r == 5 || r == 7 || r == 9 || r == 11 || r == 13 || r == 15;
  }

  /** The starting value is an inverse modulo 16. */
  lemma NewtonStart(n: Limb)
    requires n % 2 == 1
    ensures Cong(n * NewtonSeed(n), 1, 16)
  {
    hide Cong, NewtonSeed;
    var r, x := n % 16, NewtonSeed(n);
    var s := r + (if r % 8 == 3 || r % 8 == 5 then 8 else 0);
    SeedResidue(n);
    CongMul(n, r, x, s, 16);
    InverseModulo16(r);
    CongTrans(n * x, r * s, 1, 16);
  }

  /** The correct bits after each Newton step: 4, then 8, 16 and 32. */
  function CorrectModulus(i: nat): (m: int)
    requires i in {32, 16, 8, 4}
  {
    if i == 32 then 16 else if i == 16 then 0x100 else if i == 8 then 0x1_0000 else 0x1_0000_0000
  }

  lemma InverseStep(n: Limb, x: Limb, i: nat)
    requires i in {32, 16, 8}
    requires Cong(n * x, 1, CorrectModulus(i))
    ensures Cong(n * ((x * ((2 - n * x) % 0x1_0000_0000)) % 0x1_0000_0000), 1, CorrectModulus(i / 2))
  {
    var d := (2 - n * x) % 0x1_0000_0000;
    var x1 := (x * d) % 0x1_0000_0000;
    CongMod(2 - n * x, 0x1_0000_0000);
    CongScale(d, 2 - n * x, x, 0x1_0000_0000);
    CongMod(x * d, 0x1_0000_0000);
    assert d * x == x * d && (2 - n * x) * x == x * (2 - n * x);
    NewtonDoubles(n, x, x1, CorrectModulus(i), 0x1_0000_0000,
                  if i == 32 then 0x100_0000 else if i == 16 then 0x1_0000 else 1);
  }

  lemma NegatedLimb(x: Limb)
    ensures (0xFFFF_FFFF - x + 1) % 0x1_0000_0000 == if x == 0 then 0 else 0x1_0000_0000 - x
  {
  }

  lemma Negated(n: Limb, x: Limb)
    requires Cong(n * x, 1, 0x1_0000_0000)
    ensures Cong(n * ((0xFFFF_FFFF - x + 1) % 0x1_0000_0000), -1, 0x1_0000_0000)
  {
    hide Cong;
    var k := CongQuotient(n * x, 1, 0x1_0000_0000);
    var y := (0xFFFF_FFFF - x + 1) % 0x1_0000_0000;
    var z := if x == 0 then 0 else 1;
    NegatedLimb(x);
    assert y == z * 0x1_0000_0000 - x;
    assert n * (z * 0x1_0000_0000 - x) == (n * z) * 0x1_0000_0000 - n * x;
    CongIntro(n * y, -1, n * z - k, 0x1_0000_0000);
  }

  /** mbedtls_mpi_core_montmul_init: -N^-1 modulo 2^32, for every odd lowest limb. */
  method MontmulInit(N: array<Limb>) returns (mm: Limb)
    requires N.Length > 0 && N[0] % 2 == 1
    ensures Cong(N[0] * mm, -1, 0x1_0000_0000)
  {
    hide Cong;
    var x: Limb := N[0];
    NewtonStart(x);
    x := NewtonSeed(x);
    var i := 32;
    while i >= 8
      invariant i in {32, 16, 8, 4}
      invariant Cong(N[0] * x, 1, CorrectModulus(i))
    {
      InverseStep(N[0], x, i);
      x := (x * ((2 - N[0] * x) % 0x1_0000_0000)) % 0x1_0000_0000;
      i := i / 2;
    }
    Negated(N[0], x);
    mm := (0xFFFF_FFFF - x + 1) % 0x1_0000_0000;
  }

  // ---------------------------------------------------------------- Montgomery multiplication

  /** x is the Montgomery product of a and b: a * b / Radix(n) modulo N, fully reduced. */
  ghost predicate IsMontProduct(x: int, a: int, b: int, N: int, n: nat)
  {
    0 <= x < N && Cong(x * Radix(n), a * b, N)
  }

  /** The radix can be cancelled modulo an odd number. */
  lemma CancelRadix(x: int, y: int, N: int, n: nat)
    requires N > 0 && N % 2 == 1 && Cong(x * Radix(n), y * Radix(n), N)
    ensures Cong(x, y, N)
  {
    hide Radix, Pow2, Cong;
    RadixIsPow2(n);
    var p := Pow2(32 * n);
    assert x * p == p * x && y * p == p * y;
    CancelPow2(x, y, N, 32 * n);
  }

  lemma {:induction false} CancelPow2(x: int, y: int, N: int, k: nat)
    requires N > 0 && N % 2 == 1 && Cong(Pow2(k) * x, Pow2(k) * y, N)
    ensures Cong(x, y, N)
  {
    if k > 0 {
      var p := Pow2(k - 1);
      assert Pow2(k) * x == 2 * (p * x) && Pow2(k) * y == 2 * (p * y);
      CancelTwo(p * x, p * y, N);
      CancelPow2(x, y, N, k - 1);
    }
  }

  /** There is only one Montgomery product. */
  lemma MontProductUnique(x: int, y: int, a: int, b: int, N: int, n: nat)
    requires N > 0 && N % 2 == 1
    requires IsMontProduct(x, a, b, N, n) && IsMontProduct(y, a, b, N, n)
    ensures x == y
  {
    hide Radix;
    CancelRadix(x, y, N, n);
    CongSmall(x, y, N);
    DivUnique(y, N, 0, y);
  }

  /** Both row additions of one Montgomery step fit in n + 2 limbs (weight W): no carry is lost. */
  lemma MontRowFits(v: nat, v1: nat, v2: nat, c1: nat, c2: nat, u0: Limb, u1: Limb, B: nat, N: nat, R: int, W: int)
    requires v < N + B && B <= N < R && W == 0x1_0000_0000 * (0x1_0000_0000 * R)
    requires v1 + c1 * W == v + B * u0 && v2 + c2 * W == v1 + N * u1
    ensures c1 == 0 && c2 == 0 && v2 == v + B * u0 + N * u1 && v2 < 0x1_0000_0000 * (N + B)
  {
    MulMono(B, u0, B, 0xFFFF_FFFF);
    MulMono(N, u1, N, 0xFFFF_FFFF);
    if c1 > 0 {
      MulIncreases(1, c1, W);
    }
    if c2 > 0 {
      MulIncreases(1, c2, W);
    }
  }

  /** u1 = (T[0] + u0 * B[0]) * mm in limb arithmetic: the multiple of N one row adds. */
  function RowFactor(t0: Limb, u0: Limb, b0: Limb, mm: Limb): (u1: Limb)
  {
    ((t0 + u0 * b0) * mm) % 0x1_0000_0000
  }

  /** The multiple of N is chosen so that the lowest limb vanishes. */
  lemma LowLimbVanishes(v: nat, t0: Limb, B: nat, b0: Limb, N: nat, n0: Limb, u0: Limb, mm: Limb)
    requires v % 0x1_0000_0000 == t0 && B % 0x1_0000_0000 == b0 && N % 0x1_0000_0000 == n0
    requires Cong(n0 * mm, -1, 0x1_0000_0000)
    ensures (v + B * u0 + N * RowFactor(t0, u0, b0, mm)) % 0x1_0000_0000 == 0
  {
    hide Cong;
    var w := t0 + u0 * b0;
    var u1 := (w * mm) % 0x1_0000_0000;
    CongMod(w * mm, 0x1_0000_0000);
    CongResidue(N, n0);
    CongMul(N, n0, u1, w * mm, 0x1_0000_0000);
    CongScale(n0 * mm, -1, w, 0x1_0000_0000);
    assert n0 * (w * mm) == (n0 * mm) * w;
    CongTrans(N * u1, n0 * (w * mm), -w, 0x1_0000_0000);
    CongResidue(B, b0);
    CongScale(B, b0, u0, 0x1_0000_0000);
    assert b0 * u0 == u0 * b0;
    SumVanishes(v, t0, B * u0, u0 * b0, N * u1);
  }

  lemma CongResidue(x: int, r: int)
    requires x % 0x1_0000_0000 == r
    ensures Cong(x, r, 0x1_0000_0000)
  {
  }

  lemma SumVanishes(v: int, t0: int, x: int, y: int, z: int)
    requires v % 0x1_0000_0000 == t0 && Cong(x, y, 0x1_0000_0000) && Cong(z, -(t0 + y), 0x1_0000_0000)
    ensures (v + x + z) % 0x1_0000_0000 == 0
  {
  }

  /** The step's value, scaled by the weight of its row, is congruent to the product so far. */
  lemma MontRowCongruent(v: nat, v2: nat, t: nat, u0: Limb, u1: Limb, B: nat, N: nat, Ri: int, Rn: int, a0: nat, a1: nat)
    requires N > 0 && Rn == 0x1_0000_0000 * Ri && a1 == a0 + Ri * u0
    requires v2 == v + B * u0 + N * u1 && v2 == 0x1_0000_0000 * t
    requires Cong(v * Ri, a0 * B, N)
    ensures Cong(t * Rn, a1 * B, N)
  {
    var k := CongQuotient(v * Ri, a0 * B, N);
    assert t * Rn == v2 * Ri;
    assert (v + B * u0 + N * u1) * Ri == v * Ri + (Ri * u0) * B + (u1 * Ri) * N;
    assert a1 * B == a0 * B + (Ri * u0) * B;
    assert (k + u1 * Ri) * N == k * N + (u1 * Ri) * N;
    CongIntro(t * Rn, a1 * B, k + u1 * Ri, N);
  }

  /**
   * The scratch limbs T after i rows: the n + 1 limbs from i hold a number below N + B whose
   * i-fold shift is congruent to the low i limbs of A times B; the limbs above are still zero.
   */
  ghost predicate MontState(T: seq<Limb>, i: nat, n: nat, a: seq<Limb>, B: nat, N: nat)
  {
    && |T| == 2 * n + 1 && i <= n == |a| && N > 0
    && (i < n ==> T[i + n + 1..] == seq(n - i, _ => 0))
    && Val(T[i..i + n + 1]) < N + B
    && Cong(Val(T[i..i + n + 1]) * Radix(i), Val(a[..i]) * B, N)
  }

  lemma MontStart(T: seq<Limb>, n: nat, a: seq<Limb>, B: nat, N: nat)
    requires |T| == 2 * n + 1 && n == |a| && N > 0
    requires forall j :: 0 <= j < |T| ==> T[j] == 0
    ensures MontState(T, 0, n, a, B, N)
  {
    ValZeros(T[0..n + 1]);
  }

  /** One row: two multiply-accumulates over n + 2 limbs from limb i. */
  lemma MontRow(T: seq<Limb>, T1: seq<Limb>, T2: seq<Limb>, i: nat, a: seq<Limb>, b: seq<Limb>, m: seq<Limb>,
                c1: Limb, c2: Limb, u1: Limb, mm: Limb)
    requires i < |a| == |m| && |T| == |T1| == |T2| == 2 * |a| + 1 && b != []
    requires MontState(T, i, |a|, a, Val(b), Val(m)) && Val(b) <= Val(m)
    requires Cong(m[0] * mm, -1, 0x1_0000_0000) && u1 == RowFactor(T[i], a[i], b[0], mm)
    requires MlaSum(T1[i..i + |a| + 2], c1, T[i..i + |a| + 2], b, a[i], 0)
    requires MlaSum(T2[i..i + |a| + 2], c2, T1[i..i + |a| + 2], m, u1, 0)
    requires T2[i + |a| + 2..] == T[i + |a| + 2..]
    ensures c1 == 0 && c2 == 0
    ensures MontState(T2, i + 1, |a|, a, Val(b), Val(m))
  {
    hide RowFactor, Cong, Radix, Val, MlaSum;
    var n := |a|;
    var s2 := T2[i..i + n + 2];
    assert T[i + n + 1] == T[i + n + 1..][0] == 0;
    TopLimbZero(T, i, n);
    MontRowValue(T[i..i + n + 2], T1[i..i + n + 2], s2, b, m, c1, c2, a[i], u1, mm);
    assert T2[i + 1..i + 1 + n + 1] == s2[1..];
    assert T2[i + n + 2..] == T[i + n + 1..][1..];
    ValTakeNext(a, i);
    RadixStep(i);
    MontRowCongruent(Val(T[i..i + n + 1]), Val(s2), Val(s2[1..]), a[i], u1, Val(b), Val(m), Radix(i), Radix(i + 1),
                     Val(a[..i]), Val(a[..i + 1]));
  }

  lemma RowFits(s: seq<Limb>, s1: seq<Limb>, s2: seq<Limb>, c1: Limb, c2: Limb, u0: Limb, u1: Limb,
                b: seq<Limb>, m: seq<Limb>)
    requires |s| == |s1| == |s2| == |m| + 2
    requires Val(s) < Val(m) + Val(b) && Val(b) <= Val(m)
    requires MlaSum(s1, c1, s, b, u0, 0) && MlaSum(s2, c2, s1, m, u1, 0)
    ensures c1 == 0 && c2 == 0 && Val(s2) == Val(s) + Val(b) * u0 + Val(m) * u1
    ensures Val(s2) < 0x1_0000_0000 * (Val(m) + Val(b))
  {
    hide Radix, Val;
    ValBound(m);
    RadixStep(|m|);
    RadixStep(|m| + 1);
    MontRowFits(Val(s), Val(s1), Val(s2), c1, c2, u0, u1, Val(b), Val(m), Radix(|m|), Radix(|m| + 2));
  }

  /** The number left by one row: exact, a multiple of the base, and below base * (N + B). */
  lemma MontRowValue(s: seq<Limb>, s1: seq<Limb>, s2: seq<Limb>, b: seq<Limb>, m: seq<Limb>,
                     c1: Limb, c2: Limb, u0: Limb, u1: Limb, mm: Limb)
    requires |s| == |s1| == |s2| == |m| + 2 && b != [] && m != []
    requires Val(s) < Val(m) + Val(b) && Val(b) <= Val(m)
    requires Cong(m[0] * mm, -1, 0x1_0000_0000) && u1 == RowFactor(s[0], u0, b[0], mm)
    requires MlaSum(s1, c1, s, b, u0, 0) && MlaSum(s2, c2, s1, m, u1, 0)
    ensures c1 == 0 && c2 == 0
    ensures Val(s2) == Val(s) + Val(b) * u0 + Val(m) * u1
    ensures Val(s2) == 0x1_0000_0000 * Val(s2[1..])
    ensures Val(s2) < 0x1_0000_0000 * (Val(m) + Val(b))
  {
    hide RowFactor, Cong, Radix, Val, MlaSum;
    RowFits(s, s1, s2, c1, c2, u0, u1, b, m);
    LowLimbs(s, b, m);
    LowLimbVanishes(Val(s), s[0], Val(b), b[0], Val(m), m[0], u0, mm);
    LowLimbIsZero(s2, Val(s) + Val(b) * u0 + Val(m) * u1);
  }

  lemma TopLimbZero(T: seq<Limb>, i: nat, n: nat)
    requires i + n + 2 <= |T| && T[i + n + 1] == 0
    ensures Val(T[i..i + n + 2]) == Val(T[i..i + n + 1])
  {
    hide Val, Radix;
    ValSnoc(T[i..i + n + 1], 0);
    assert T[i..i + n + 2] == T[i..i + n + 1] + [0];
  }

  lemma LowLimbs(s: seq<Limb>, b: seq<Limb>, m: seq<Limb>)
    requires s != [] && b != [] && m != []
    ensures Val(s) % 0x1_0000_0000 == s[0]
    ensures Val(b) % 0x1_0000_0000 == b[0] && Val(m) % 0x1_0000_0000 == m[0]
  {
    ValLowLimb(s);
    ValLowLimb(b);
    ValLowLimb(m);
  }

  lemma LowLimbIsZero(s: seq<Limb>, v: int)
    requires s != [] && Val(s) == v && v % 0x1_0000_0000 == 0
    ensures v == 0x1_0000_0000 * Val(s[1..])
  {
    ValLowLimb(s);
  }

  /** The loop body of the Montgomery multiplication: T[i..] := T[i..] + u0 * B + u1 * N. */
  method MontStep(T: array<Limb>, to: nat, i: nat, n: nat, A: array<Limb>, ao: nat, B: array<Limb>, bo: nat, bLimbs: nat,
                  N: array<Limb>, no: nat, mm: Limb, ghost a: seq<Limb>, ghost b: seq<Limb>, ghost m: seq<Limb>)
    requires i < n && to + 2 * n + 1 <= T.Length
    requires ao + n <= A.Length && bo + bLimbs <= B.Length && no + n <= N.Length && 0 < bLimbs <= n
    requires Apart(T, to, 2 * n + 1, A, ao, n) && Apart(T, to, 2 * n + 1, B, bo, bLimbs) && Apart(T, to, 2 * n + 1, N, no, n)
    requires a == A[ao..ao + n] && b == B[bo..bo + bLimbs] && m == N[no..no + n]
    requires Val(b) <= Val(m) && Cong(m[0] * mm, -1, 0x1_0000_0000)
    requires MontState(T[to..to + 2 * n + 1], i, n, a, Val(b), Val(m))
    modifies T
    ensures MontState(T[to..to + 2 * n + 1], i + 1, n, a, Val(b), Val(m))
    ensures OnlyChanged(T, to, 2 * n + 1)
  {
    hide RowFactor, MlaSum, MontState, Cong, Val, Radix;
    ghost var t0 := T[to..to + 2 * n + 1];
    SliceOfSlice(T, to, 2 * n + 1, i, n + 2);
    assert A[ao + i] == a[i] && B[bo] == b[0] && T[to + i] == t0[i];
    var u0 := A[ao + i];
    var u1: Limb := RowFactor(T[to + i], u0, B[bo], mm);
    assert Min(bLimbs, n + 2) == bLimbs && Min(n, n + 2) == n;
    ghost var c1 := RowAdd(T, to, i, n, B, bo, bLimbs, u0);
    ghost var t1 := T[to..to + 2 * n + 1];
    assert N[no..no + n] == m;
    ghost var c2 := RowAdd(T, to, i, n, N, no, n, u1);
    ghost var t2 := T[to..to + 2 * n + 1];
    assert t2[i + n + 2..] == t0[i + n + 2..] by {
      forall j | i + n + 2 <= j < |t0|
        ensures t2[j] == t0[j]
      {
        assert T[to + j] == old(T[to + j]);
      }
    }
    MontRow(t0, t1, t2, i, a, b, m, c1, c2, u1, mm);
  }

  /** One multiply-accumulate into the n + 2 scratch limbs from limb i. */
  method RowAdd(T: array<Limb>, to: nat, i: nat, n: nat, S: array<Limb>, so: nat, sLimbs: nat, u: Limb)
    returns (ghost c: Limb)
    requires i < n && to + 2 * n + 1 <= T.Length && so + sLimbs <= S.Length && sLimbs <= n
    requires Apart(T, to, 2 * n + 1, S, so, sLimbs)
    modifies T
    ensures MlaSum(T[to..to + 2 * n + 1][i..i + n + 2], c, old(T[to..to + 2 * n + 1])[i..i + n + 2],
                   old(S[so..so + sLimbs]), u, 0)
    ensures OnlyChanged(T, to + i, n + 2)
  {
    hide MlaSum;
    SliceOfSlice(T, to, 2 * n + 1, i, n + 2);
    assert Min(sLimbs, n + 2) == sLimbs;
    var carry := Mla(T, to + i, n + 2, S, so, sLimbs, u);
    c := carry;
    SliceOfSlice(T, to, 2 * n + 1, i, n + 2);
  }

  /** What is left after n rows: one limb of carry, and the carry/borrow pair tells which result to keep. */
  lemma MontFinish(T: seq<Limb>, a: seq<Limb>, b: seq<Limb>, m: seq<Limb>, x: seq<Limb>, borrow: Limb)
    requires |a| == |m| == |x| && MontState(T, |a|, |a|, a, Val(b), Val(m)) && Val(b) <= Val(m)
    requires IsDifference(x, borrow, T[|a|..2 * |a|], m)
    requires borrow == if Val(T[|a|..2 * |a|]) < Val(m) then 1 else 0
    ensures var carry := T[2 * |a|];
            && carry <= 1 && !(carry == 1 && borrow == 0)
            && IsMontProduct(Val(if carry != borrow then T[|a|..2 * |a|] else x), Val(a), Val(b), Val(m), |a|)
  {
    hide Cong, Val, Radix;
    var n := |a|;
    var low, carry := T[n..2 * n], T[2 * n];
    var t := Val(T[n..2 * n + 1]);
    assert T[n..2 * n + 1] == low + [carry];
    ValSnoc(low, carry);
    ValBound(low);
    ValBound(m);
    ValBound(x);
    CarryIsBit(Val(low), carry, Radix(n), Val(m), t);
    var r := if carry != borrow then low else x;
    assert a[..n] == a;
    assert Val(r) == t || Val(r) == t - Val(m);
    KeepCongruent(t, Val(r), Radix(n), Val(a) * Val(b), Val(m));
  }

  lemma CarryIsBit(low: nat, carry: Limb, R: int, N: int, t: int)
    requires t == low + R * carry && t < 2 * N && 0 <= N < R
    ensures carry <= 1 && (carry == 1 ==> low < N)
    ensures carry == 0 ==> t == low
    ensures carry == 1 ==> t == low + R
  {
    if carry > 1 {
      MulIncreases(2, carry, R);
    }
  }

  lemma KeepCongruent(t: int, x: int, R: int, p: int, N: int)
    requires N > 0 && Cong(t * R, p, N) && (x == t || x == t - N)
    ensures Cong(x * R, p, N)
  {
    if x == t - N {
      assert (t - N) * R == t * R + (-R) * N;
      CongIntro(x * R, t * R, -R, N);
    }
  }

  /** Nothing of x has changed outside the n limbs from o and, where x is y, the k limbs from p. */
  twostate predicate OnlyChangedBoth(x: array<Limb>, o: nat, n: nat, y: array<Limb>, p: nat, k: nat)
    reads x
  {
    forall j {:trigger x[j]} :: 0 <= j < x.Length && !(o <= j < o + n) && !(x == y && p <= j < p + k) ==> x[j] == old(x[j])
  }

  /** Before the first row the scratch area is zero. */
  method ClearScratch(T: array<Limb>, to: nat, n: nat, ghost a: seq<Limb>, ghost B: nat, ghost N: nat)
    requires 0 < n == |a| && to + 2 * n + 1 <= T.Length && B <= N && N > 0
    modifies T
    ensures MontState(T[to..to + 2 * n + 1], 0, n, a, B, N)
    ensures OnlyChanged(T, to, 2 * n + 1)
  {
    hide MontState;
    ClearLimbs(T, to, 2 * n + 1);
    MontStart(T[to..to + 2 * n + 1], n, a, B, N);
  }

  lemma OperandsKept(T: array<Limb>, t0: seq<Limb>, to: nat, k: nat, A: array<Limb>, ao: nat, a: seq<Limb>,
                     B: array<Limb>, bo: nat, b: seq<Limb>, N: array<Limb>, no: nat, m: seq<Limb>)
    requires ao + |a| <= A.Length && bo + |b| <= B.Length && no + |m| <= N.Length && |t0| == T.Length
    requires Apart(T, to, k, A, ao, |a|) && Apart(T, to, k, B, bo, |b|) && Apart(T, to, k, N, no, |m|)
    requires forall j {:trigger T[j]} :: 0 <= j < T.Length && !(to <= j < to + k) ==> T[j] == t0[j]
    requires if T == A then a == t0[ao..ao + |a|] else a == A[ao..ao + |a|]
    requires if T == B then b == t0[bo..bo + |b|] else b == B[bo..bo + |b|]
    requires if T == N then m == t0[no..no + |m|] else m == N[no..no + |m|]
    ensures A[ao..ao + |a|] == a && B[bo..bo + |b|] == b && N[no..no + |m|] == m
  {
    SliceKept(T, t0, to, k, A, ao, a);
    SliceKept(T, t0, to, k, B, bo, b);
    SliceKept(T, t0, to, k, N, no, m);
  }

  /** The n rows of the Montgomery multiplication, from a cleared scratch area. */
  method MontLoop(T: array<Limb>, to: nat, A: array<Limb>, ao: nat, B: array<Limb>, bo: nat, bLimbs: nat,
                  N: array<Limb>, no: nat, n: nat, mm: Limb)
    requires ao + n <= A.Length && bo + bLimbs <= B.Length && no + n <= N.Length
    requires 0 < bLimbs <= n && to + 2 * n + 1 <= T.Length
    requires Apart(T, to, 2 * n + 1, A, ao, n) && Apart(T, to, 2 * n + 1, B, bo, bLimbs) && Apart(T, to, 2 * n + 1, N, no, n)
    requires Val(B[bo..bo + bLimbs]) <= Val(N[no..no + n]) && Val(N[no..no + n]) > 0 && Cong(N[no] * mm, -1, 0x1_0000_0000)
    modifies T
    ensures MontState(T[to..to + 2 * n + 1], n, n, old(A[ao..ao + n]), Val(old(B[bo..bo + bLimbs])),
                      Val(old(N[no..no + n])))
    ensures OnlyChanged(T, to, 2 * n + 1)
  {
    hide MontState, Cong, Val, Radix;
    ghost var a, b, m := A[ao..ao + n], B[bo..bo + bLimbs], N[no..no + n];
    ghost var t0 := T[..];
    assert m[0] == N[no];
    ClearScratch(T, to, n, a, Val(b), Val(m));
    for i := 0 to n
      invariant MontState(T[to..to + 2 * n + 1], i, n, a, Val(b), Val(m))
      invariant OnlyChanged(T, to, 2 * n + 1)
    {
      OperandsKept(T, t0, to, 2 * n + 1, A, ao, a, B, bo, b, N, no, m);
      MontStep(T, to, i, n, A, ao, B, bo, bLimbs, N, no, mm, a, b, m);
    }
  }

  /**
   * mbedtls_mpi_core_montmul: X := A * B / 2^(32 n) modulo N, fully reduced. A only has to fit
   * its n limbs; X may be A, B or N, or any other place that does not overlap the scratch T.
   */
  method Montmul(X: array<Limb>, xo: nat, A: array<Limb>, ao: nat, B: array<Limb>, bo: nat, bLimbs: nat,
                 N: array<Limb>, no: nat, n: nat, mm: Limb, T: array<Limb>, to: nat)
    requires xo + n <= X.Length && ao + n <= A.Length && bo + bLimbs <= B.Length && no + n <= N.Length
    requires 0 < bLimbs <= n && to + 2 * n + 1 <= T.Length
    requires Apart(T, to, 2 * n + 1, A, ao, n) && Apart(T, to, 2 * n + 1, B, bo, bLimbs)
    requires Apart(T, to, 2 * n + 1, N, no, n) && Apart(T, to, 2 * n + 1, X, xo, n) && SameOrApart(X, xo, N, no, n)
    requires Val(B[bo..bo + bLimbs]) <= Val(N[no..no + n]) && Val(N[no..no + n]) > 0 && Cong(N[no] * mm, -1, 0x1_0000_0000)
    modifies X, T
    ensures IsMontProduct(Val(X[xo..xo + n]), Val(old(A[ao..ao + n])), Val(old(B[bo..bo + bLimbs])),
                          Val(old(N[no..no + n])), n)
    ensures OnlyChangedBoth(X, xo, n, T, to, 2 * n + 1) && OnlyChangedBoth(T, to, 2 * n + 1, X, xo, n)
  {
    hide MontState, Cong, Val, IsMontProduct;
    ghost var a, b, m := A[ao..ao + n], B[bo..bo + bLimbs], N[no..no + n];
    MontLoop(T, to, A, ao, B, bo, bLimbs, N, no, n, mm);
    assert N[no..no + n] == m;
    MontReduce(X, xo, N, no, n, T, to, a, b, m);
  }

  /** The final conditional subtraction: X := T - N, or T when carry and borrow differ. */
  method MontReduce(X: array<Limb>, xo: nat, N: array<Limb>, no: nat, n: nat, T: array<Limb>, to: nat,
                    ghost a: seq<Limb>, ghost b: seq<Limb>, ghost m: seq<Limb>)
    requires xo + n <= X.Length && no + n <= N.Length && to + 2 * n + 1 <= T.Length && |a| == |m| == n
    requires Apart(T, to, 2 * n + 1, N, no, n) && Apart(T, to, 2 * n + 1, X, xo, n) && SameOrApart(X, xo, N, no, n)
    requires m == N[no..no + n] && Val(b) <= Val(m) && MontState(T[to..to + 2 * n + 1], n, n, a, Val(b), Val(m))
    modifies X
    ensures IsMontProduct(Val(X[xo..xo + n]), Val(a), Val(b), Val(m), n)
    ensures OnlyChanged(X, xo, n)
  {
    hide MontState, Val, IsDifference, IsMontProduct;
    ghost var t := T[to..to + 2 * n + 1];
    SliceOfSlice(T, to, 2 * n + 1, n, n);
    var carry := T[to + 2 * n];
    var borrow := Sub(X, xo, T, to + n, N, no, n);
    assert T[to..to + 2 * n + 1] == t;
    MontFinish(t, a, b, m, X[xo..xo + n], borrow);
    if carry != borrow {
      SliceOfSlice(T, to, 2 * n + 1, n, n);
      CopyLimbs(X, xo, T, to + n, n);
    }
  }

  /** mbedtls_ct_memcpy_if with a true condition */
  method CopyLimbs(X: array<Limb>, xo: nat, Y: array<Limb>, yo: nat, n: nat)
    requires xo + n <= X.Length && yo + n <= Y.Length && Apart(X, xo, n, Y, yo, n)
    modifies X
    ensures X[xo..xo + n] == old(Y[yo..yo + n])
    ensures OnlyChanged(X, xo, n)
  {
    for i := 0 to n
      invariant X[xo..xo + i] == old(Y[yo..yo + i])
      invariant OnlyChanged(X, xo, n)
    {
      assert Y[yo + i] == old(Y[yo + i]);
      ghost var x := X[xo..xo + i];
      X[xo + i] := Y[yo + i];
      assert X[xo..xo + i + 1] == x + [old(Y[yo + i])];
      assert old(Y[yo..yo + i + 1]) == old(Y[yo..yo + i]) + [old(Y[yo + i])];
    }
  }
}
