/**
 * Limb-array arithmetic of bignum_core.c: multiply-accumulate, multiplication, addition,
 * subtraction, comparison and conditional copy. Every method works in place on arrays;
 * an operand is an array, an offset (the C pointer) and a limb count.
 */
module LimbArithmetic {
  import opened Limbs

  /** Two operand ranges that share no limb. */
  predicate Apart(x: array<Limb>, xo: nat, xn: nat, y: array<Limb>, yo: nat, yn: nat)
  {
    x != y || xo + xn <= yo || yo + yn <= xo
  }

  /** Two operand ranges of n limbs that are the same range or share no limb. */
  predicate SameOrApart(x: array<Limb>, xo: nat, y: array<Limb>, yo: nat, n: nat)
  {
    (x == y && xo == yo) || Apart(x, xo, n, y, yo, n)
  }

  /** Outside n limbs from offset o nothing of x has changed. */
  twostate predicate OnlyChanged(x: array<Limb>, o: nat, n: nat)
    reads x
  {
    forall j {:trigger x[j]} :: 0 <= j < x.Length && !(o <= j < o + n) ==> x[j] == old(x[j])
  }

  /** An operand apart from the limbs of x that have changed since x held x0 is as it was. */
  lemma SliceKept(x: array<Limb>, x0: seq<Limb>, o: nat, m: nat, y: array<Limb>, yo: nat, s: seq<Limb>)
    requires yo + |s| <= y.Length && Apart(x, o, m, y, yo, |s|) && |x0| == x.Length
    requires forall j {:trigger x[j]} :: 0 <= j < x.Length && !(o <= j < o + m) ==> x[j] == x0[j]
    requires if x == y then s == x0[yo..yo + |s|] else s == y[yo..yo + |s|]
    ensures y[yo..yo + |s|] == s
  {
  }

  function Min(a: nat, b: nat): (r: nat)
  {
    if a < b then a else b
  }

  // ---------------------------------------------------------------- multiply-accumulate

  lemma MulMono(x: int, y: int, m: int, n: int)
    requires 0 <= x <= m && 0 <= y <= n
    ensures 0 <= x * y <= m * n
  {
    assert x * y <= m * y <= m * n;
  }

  lemma CarryFits(d: Limb, s: Limb, b: Limb, c: Limb)
    ensures 0 <= d + s * b + c < 0x1_0000_0000 * 0x1_0000_0000
  {
    MulMono(s, b, 0xFFFF_FFFF, 0xFFFF_FFFF);
  }

  /** One multiply-accumulate step at a limb of weight R; Q is the next weight. */
  lemma MlaStep(R: int, Q: int, r0: int, r1: int, x: int, c: int, c1: int,
                D0: int, D1: int, d: int, S0: int, S1: int, s: int, b: int, c0: int)
    requires Q == 0x1_0000_0000 * R
    requires r1 == r0 + R * x && D1 == D0 + R * d && S1 == S0 + R * s
    requires r0 + c * R == D0 + S0 * b + c0
    requires x + 0x1_0000_0000 * c1 == d + s * b + c
    ensures r1 + c1 * Q == D1 + S1 * b + c0
  {
    assert R * (x + 0x1_0000_0000 * c1) == R * x + c1 * Q;
    assert R * (d + s * b + c) == R * d + (R * s) * b + c * R;
    assert S1 * b == S0 * b + (R * s) * b;
  }

  /** r with carry c above it is exactly d + s * b + c0. */
  ghost predicate MlaSum(r: seq<Limb>, c: Limb, d: seq<Limb>, s: seq<Limb>, b: Limb, c0: Limb)
  {
    Val(r) + c * Radix(|r|) == Val(d) + Val(s) * b + c0
  }

  lemma MlaSumEmpty(b: Limb, c: Limb)
    ensures MlaSum([], c, [], [], b, c)
  {
  }

  lemma MlaSumExtend(r: seq<Limb>, c: Limb, d: seq<Limb>, s: seq<Limb>, b: Limb, c0: Limb,
                     x: Limb, c1: Limb, dv: Limb, sv: Limb)
    requires |r| == |d| == |s|
    requires MlaSum(r, c, d, s, b, c0)
    requires x + 0x1_0000_0000 * c1 == dv + sv * b + c
    ensures MlaSum(r + [x], c1, d + [dv], s + [sv], b, c0)
  {
    hide Val, Radix;
    ValSnoc(r, x);
    ValSnoc(d, dv);
    ValSnoc(s, sv);
    RadixStep(|r|);
    MlaStep(Radix(|r|), Radix(|r| + 1), Val(r), Val(r + [x]), x, c, c1,
            Val(d), Val(d + [dv]), dv, Val(s), Val(s + [sv]), sv, b, c0);
  }

  lemma MlaSumCarry(r: seq<Limb>, c: Limb, d: seq<Limb>, s: seq<Limb>, b: Limb, c0: Limb,
                    x: Limb, c1: Limb, dv: Limb)
    requires |r| == |d|
    requires MlaSum(r, c, d, s, b, c0)
    requires x + 0x1_0000_0000 * c1 == dv + c
    ensures MlaSum(r + [x], c1, d + [dv], s, b, c0)
  {
    hide Val, Radix;
    ValSnoc(r, x);
    ValSnoc(d, dv);
    RadixStep(|r|);
    MlaStep(Radix(|r|), Radix(|r| + 1), Val(r), Val(r + [x]), x, c, c1,
            Val(d), Val(d + [dv]), dv, Val(s), Val(s), 0, b, c0);
  }

  lemma MlaJoin(a1: int, a2: int, d1: int, d2: int, s1: int, s2: int, R: int, Q: int, b: int, c0: int, c: int, c1: int)
    requires a1 + c * R == d1 + s1 * b + c0
    requires a2 + c1 * Q == d2 + s2 * b + c
    ensures (a1 + R * a2) + c1 * (R * Q) == (d1 + R * d2) + (s1 + R * s2) * b + c0
  {
    assert R * (a2 + c1 * Q) == R * (d2 + s2 * b + c);
    assert R * (a2 + c1 * Q) == R * a2 + c1 * (R * Q);
    assert R * (d2 + s2 * b + c) == R * d2 + (R * s2) * b + c * R;
    assert (s1 + R * s2) * b == s1 * b + (R * s2) * b;
  }

  lemma MlaSumJoin(r1: seq<Limb>, d1: seq<Limb>, s1: seq<Limb>, r2: seq<Limb>, d2: seq<Limb>, s2: seq<Limb>,
                   b: Limb, c0: Limb, c: Limb, c1: Limb)
    requires |r1| == |d1| == |s1| && |r2| == |d2| == |s2|
    requires MlaSum(r1, c, d1, s1, b, c0) && MlaSum(r2, c1, d2, s2, b, c)
    ensures MlaSum(r1 + r2, c1, d1 + d2, s1 + s2, b, c0)
  {
    hide Val, Radix;
    ValAppend(r1, r2);
    ValAppend(d1, d2);
    ValAppend(s1, s2);
    RadixAdd(|r1|, |r2|);
    MlaJoin(Val(r1), Val(r2), Val(d1), Val(d2), Val(s1), Val(s2), Radix(|r1|), Radix(|r2|), b, c0, c, c1);
  }

  /** `count` multiply-accumulate steps (the MULADDC core) with an incoming and an outgoing carry. */
  method MulAddCRun(d: array<Limb>, o: nat, s: array<Limb>, so: nat, count: nat, b: Limb, cin: Limb)
    returns (c: Limb)
    requires o + count <= d.Length && so + count <= s.Length
    requires Apart(d, o, count, s, so, count)
    modifies d
    ensures MlaSum(d[o..o + count], c, old(d[o..o + count]), old(s[so..so + count]), b, cin)
    ensures OnlyChanged(d, o, count)
  {
    hide MlaSum;
    ghost var d0, s0 := d[o..o + count], s[so..so + count];
    c := cin;
    MlaSumEmpty(b, cin);
    assert d[o..o] == [] && d0[..0] == [] && s0[..0] == [];
    for i := 0 to count
      invariant MlaSum(d[o..o + i], c, d0[..i], s0[..i], b, cin)
      invariant forall j :: i <= j < count ==> d[o + j] == d0[j] && s[so + j] == s0[j]
      invariant OnlyChanged(d, o, count)
    {
      ghost var r := d[o..o + i];
      CarryFits(d[o + i], s[so + i], b, c);
      var t := d[o + i] + s[so + i] * b + c;
      MlaSumExtend(r, c, d0[..i], s0[..i], b, cin, t % 0x1_0000_0000, t / 0x1_0000_0000, d0[i], s0[i]);
      d[o + i] := t % 0x1_0000_0000;
      c := t / 0x1_0000_0000;
      assert d[o..o + i + 1] == r + [d[o + i]];
      assert d0[..i + 1] == d0[..i] + [d0[i]] && s0[..i + 1] == s0[..i] + [s0[i]];
    }
    assert d0[..count] == d0 && s0[..count] == s0;
  }

  /** After k limbs of d0 + s0 * b the k limbs and the carry are the exact sum so far. */
  ghost predicate MlaChain(d: array<Limb>, o: nat, k: nat, s: array<Limb>, so: nat, b: Limb, c: Limb,
                           d0: seq<Limb>, s0: seq<Limb>)
    reads d, s
  {
    && k <= |s0| <= |d0| && o + |d0| <= d.Length && so + |s0| <= s.Length
    && Apart(d, o, |d0|, s, so, |s0|)
    && (forall j :: k <= j < |d0| ==> d[o + j] == d0[j])
    && (forall j :: 0 <= j < |s0| ==> s[so + j] == s0[j])
    && MlaSum(d[o..o + k], c, d0[..k], s0[..k], b, 0)
  }

  /** The next m limbs are untouched. */
  lemma MlaRest(d: array<Limb>, o: nat, k: nat, m: nat, s: array<Limb>, so: nat, b: Limb, c: Limb,
                d0: seq<Limb>, s0: seq<Limb>)
    requires MlaChain(d, o, k, s, so, b, c, d0, s0) && k + m <= |s0|
    ensures d[o + k..o + k + m] == d0[k..k + m] && s[so + k..so + k + m] == s0[k..k + m]
  {
    hide MlaSum;
    forall i | k <= i < k + m
      ensures d[o + k..o + k + m][i - k] == d0[i] && s[so + k..so + k + m][i - k] == s0[i]
    {
      assert d[o + i] == d0[i] && s[so + i] == s0[i];
    }
  }

  /** `m` more limbs of the multiply-accumulate chain. */
  method MlaBlock(d: array<Limb>, o: nat, k: nat, m: nat, s: array<Limb>, so: nat, b: Limb, cin: Limb,
                  ghost d0: seq<Limb>, ghost s0: seq<Limb>)
    returns (c: Limb)
    requires MlaChain(d, o, k, s, so, b, cin, d0, s0)
    requires k + m <= |s0|
    modifies d
    ensures MlaChain(d, o, k + m, s, so, b, c, d0, s0)
    ensures OnlyChanged(d, o + k, m)
  {
    hide MlaSum;
    ghost var r := d[o..o + k];
    ghost var d1, s1 := d0[k..k + m], s0[k..k + m];
    MlaRest(d, o, k, m, s, so, b, cin, d0, s0);
    assert d0[..k + m] == d0[..k] + d1 && s0[..k + m] == s0[..k] + s1;
    c := MulAddCRun(d, o + k, s, so + k, m, b, cin);
    ghost var r1 := d[o + k..o + k + m];
    assert d[o..o + k] == r;
    assert d[o..o + k + m] == r + r1;
    MlaSumJoin(r, d0[..k], s0[..k], r1, d1, s1, b, 0, cin, c);
  }

  /** `steps` blocks of m limbs: the two counted loops of the multiply-accumulate. */
  method MlaChunks(d: array<Limb>, o: nat, k0: nat, m: nat, steps0: nat, s: array<Limb>, so: nat, b: Limb,
                   cin: Limb, ghost d0: seq<Limb>, ghost s0: seq<Limb>, ghost k1: nat)
    returns (c: Limb)
    requires MlaChain(d, o, k0, s, so, b, cin, d0, s0)
    requires m * steps0 == k1 - k0 && k1 <= |s0|
    modifies d
    ensures MlaChain(d, o, k1, s, so, b, c, d0, s0)
    ensures OnlyChanged(d, o + k0, k1 - k0)
  {
    hide MlaSum, MlaChain;
    var k, steps := k0, steps0;
    c := cin;
    while steps > 0
      invariant steps >= 0 && k0 <= k && m * steps == k1 - k
      invariant MlaChain(d, o, k, s, so, b, c, d0, s0)
      invariant OnlyChanged(d, o + k0, k - k0)
    {
      assert m * steps == m * (steps - 1) + m;
      assert m * (steps - 1) >= 0;
      c := MlaBlock(d, o, k, m, s, so, b, c, d0, s0);
      k, steps := k + m, steps - 1;
    }
  }

  /** The tail of the multiply-accumulate: the carry runs through the excess limbs. */
  method PropagateCarry(d: array<Limb>, o: nat, k0: nat, excess0: nat, s: array<Limb>, so: nat, b: Limb, cin: Limb,
                        ghost d0: seq<Limb>, ghost s0: seq<Limb>)
    returns (c: Limb)
    requires k0 == |s0| && k0 + excess0 == |d0|
    requires MlaChain(d, o, |s0|, s, so, b, cin, d0, s0)
    modifies d
    ensures MlaSum(d[o..o + |d0|], c, d0, s0, b, 0)
    ensures OnlyChanged(d, o + |s0|, excess0)
  {
    hide MlaSum;
    var k, excess := k0, excess0;
    c := cin;
    assert s0[..|s0|] == s0;
    while excess > 0
      invariant excess >= 0 && |s0| <= k && k + excess == |d0|
      invariant MlaSum(d[o..o + k], c, d0[..k], s0, b, 0)
      invariant OnlyChanged(d, o + |s0|, k - |s0|)
    {
      var i := o + k;
      ghost var r := d[o..i];
      var x := (d[i] + c) % 0x1_0000_0000;
      var c1 := if x < c then 1 else 0;
      MlaSumCarry(r, c, d0[..k], s0, b, 0, x, c1, d0[k]);
      d[i], c := x, c1;
      assert d[o..o + k + 1] == r + [x];
      assert d0[..k + 1] == d0[..k] + [d0[k]];
      k, excess := k + 1, excess - 1;
    }
    assert d0[..k] == d0;
  }

  /**
   * mbedtls_mpi_core_mla: d += s * b over dLen limbs, eight limbs at a time, then one at a
   * time, then carry propagation through the excess limbs; returns the carry.
   */
  method Mla(d: array<Limb>, o: nat, dLen: nat, s: array<Limb>, so: nat, sLen0: nat, b: Limb)
    returns (c: Limb)
    requires o + dLen <= d.Length && so + sLen0 <= s.Length
    requires Apart(d, o, dLen, s, so, sLen0)
    modifies d
    ensures MlaSum(d[o..o + dLen], c, old(d[o..o + dLen]), old(s[so..so + Min(sLen0, dLen)]), b, 0)
    ensures OnlyChanged(d, o, dLen)
  {
    hide MlaSum;
    var sLen := if dLen < sLen0 then dLen else sLen0;
    var excess := dLen - sLen;
    var stepsX8, stepsX1 := sLen / 8, sLen % 8;
    ghost var d0, s0 := d[o..o + dLen], s[so..so + sLen];
    assert d[o..o] == [] && d0[..0] == [] && s0[..0] == [];
    MlaSumEmpty(b, 0);
    assert MlaChain(d, o, 0, s, so, b, 0, d0, s0);
    c := MlaChunks(d, o, 0, 8, stepsX8, s, so, b, 0, d0, s0, 8 * stepsX8);
    c := MlaChunks(d, o, 8 * stepsX8, 1, stepsX1, s, so, b, c, d0, s0, sLen);
    c := PropagateCarry(d, o, sLen, excess, s, so, b, c, d0, s0);
  }

  // ---------------------------------------------------------------- multiplication

  /** x_low, then v at weight R: adding a * b there keeps the product exact and carries nothing out. */
  lemma MulAccumulate(low: int, R: int, v: int, v1: int, c: int, Q: int, a: int, b: int, p0: int, p1: int, bound: int)
    requires low + R * v == a * p0
    requires v1 + c * Q == v + a * b
    requires p1 == p0 + R * b
    requires 0 <= low && 0 < R && 0 <= v1 && 0 <= c && 0 <= a * p1
    requires a * p1 < bound == R * Q
    ensures c == 0 && low + R * v1 == a * p1
  {
    assert R * (v1 + c * Q) == R * v1 + c * (R * Q);
    assert R * (v + a * b) == R * v + a * (R * b);
    assert a * p1 == a * p0 + a * (R * b);
    MulMono(0, 0, R, v1);
    if c > 0 {
      MulMono(1, R * Q, c, R * Q);
    }
  }

  /** A product of numbers below their radixes is below the product of the radixes. */
  lemma ProductBound(a: int, b: int, m: int, n: int)
    requires 0 <= a < m && 0 <= b < n
    ensures a * b < m * n
  {
    MulMono(a, b, m - 1, n - 1);
    assert (m - 1) * (n - 1) == m * n - m - n + 1;
  }

  /** x stands for a * b and its limbs above |a| + |b| are zero. */
  ghost predicate IsProduct(x: seq<Limb>, a: seq<Limb>, b: seq<Limb>)
  {
    |a| + |b| <= |x| && Val(x[..|a| + |b|]) == Val(a) * Val(b) && forall j :: |a| + |b| <= j < |x| ==> x[j] == 0
  }

  lemma IsProductStart(x: seq<Limb>, a: seq<Limb>)
    requires |a| <= |x| && forall j :: 0 <= j < |x| ==> x[j] == 0
    ensures IsProduct(x, a, [])
  {
    ValZeros(x[..|a|]);
  }

  /** One row of schoolbook multiplication; the row's carry is zero. */
  lemma IsProductStep(x: seq<Limb>, y: seq<Limb>, a: seq<Limb>, b: seq<Limb>, bi: Limb, c: Limb)
    requires |x| == |y| && |a| + |b| + 1 <= |x|
    requires IsProduct(x, a, b)
    requires forall j :: 0 <= j < |x| && !(|b| <= j < |b| + |a| + 1) ==> y[j] == x[j]
    requires MlaSum(y[|b|..|b| + |a| + 1], c, x[|b|..|b| + |a| + 1], a, bi, 0)
    ensures c == 0 && IsProduct(y, a, b + [bi])
  {
    hide Val, Radix;
    var i, n := |b|, |a|;
    var xs, ys := x[i..i + n + 1], y[i..i + n + 1];
    assert x[..n + i] + [0] == y[..i] + xs;
    assert y[..i + n + 1] == y[..i] + ys;
    ProductWeights(y[..i], x[..n + i], xs, ys, a, b, bi, c);
    assert y[..|a| + |b + [bi]|] == y[..i + n + 1];
  }

  lemma ProductFits(a: seq<Limb>, b: seq<Limb>)
    ensures Val(a) * Val(b) < Radix(|a| + |b|)
  {
    hide Val, Radix;
    ValBound(a);
    ValBound(b);
    ProductBound(Val(a), Val(b), Radix(|a|), Radix(|b|));
    RadixAdd(|a|, |b|);
  }

  lemma ProductRoom(a: seq<Limb>, b: seq<Limb>, bi: Limb)
    ensures Val(a) * Val(b + [bi]) < Radix(|b|) * Radix(|a| + 1)
  {
    hide Val, Radix;
    ProductFits(a, b + [bi]);
    RadixAdd(|b|, |a| + 1);
    assert |a| + |b + [bi]| == |b| + (|a| + 1);
  }

  lemma ShiftedRow(low: seq<Limb>, xs: seq<Limb>, before: seq<Limb>)
    requires before + [0] == low + xs
    ensures Val(before) == Val(low) + Radix(|low|) * Val(xs)
  {
    hide Val, Radix;
    ValSnoc(before, 0);
    assert Radix(|before|) * 0 == 0;
    ValAppend(low, xs);
  }

  lemma ProductWeights(low: seq<Limb>, before: seq<Limb>, xs: seq<Limb>, ys: seq<Limb>, a: seq<Limb>, b: seq<Limb>, bi: Limb, c: Limb)
    requires |low| == |b| && |xs| == |ys| == |a| + 1
    requires Val(before) == Val(a) * Val(b) && before + [0] == low + xs
    requires Val(ys) + c * Radix(|a| + 1) == Val(xs) + Val(a) * bi
    ensures c == 0 && Val(low + ys) == Val(a) * Val(b + [bi])
  {
    hide Val, Radix;
    ProductRoom(a, b, bi);
    ShiftedRow(low, xs, before);
    ValSnoc(b, bi);
    ValAppend(low, ys);
    ProductWeightsSum(Val(low), Radix(|b|), Val(xs), Val(ys), c, Radix(|a| + 1), Val(a), bi, Val(b), Val(b + [bi]));
  }

  lemma ProductWeightsSum(low: nat, R: nat, v: nat, v1: nat, c: nat, Q: int, a: nat, b: int, p0: int, p1: nat)
    requires low + R * v == a * p0
    requires v1 + c * Q == v + a * b
    requires p1 == p0 + R * b
    requires 0 < R
    requires a * p1 < R * Q
    ensures c == 0 && low + R * v1 == a * p1
  {
    MulMono(0, 0, a, p1);
    MulAccumulate(low, R, v, v1, c, Q, a, b, p0, p1, R * Q);
  }

  /** A slice of an operand's range is a slice of the array. */
  lemma SliceOfSlice(x: array<Limb>, o: nat, n: nat, i: nat, m: nat)
    requires o + n <= x.Length && i + m <= n
    ensures x[o..o + n][i..i + m] == x[o + i..o + i + m]
  {
    var s, t := x[o..o + n][i..i + m], x[o + i..o + i + m];
    forall k | 0 <= k < m
      ensures s[k] == t[k]
    {
      assert s[k] == x[o..o + n][i + k] == x[o + (i + k)];
      assert t[k] == x[(o + i) + k];
    }
  }

  /** One row of the multiplication: X[i..] += A * bi, where the mla carry is always zero. */
  method MulRow(X: array<Limb>, xo: nat, n: nat, A: array<Limb>, ao: nat, aLimbs: nat, i: nat, bi: Limb,
                ghost a: seq<Limb>, ghost b: seq<Limb>)
    requires xo + n <= X.Length && ao + aLimbs <= A.Length && i + aLimbs < n
    requires Apart(X, xo, n, A, ao, aLimbs)
    requires a == A[ao..ao + aLimbs] && |b| == i && IsProduct(X[xo..xo + n], a, b)
    modifies X
    ensures IsProduct(X[xo..xo + n], a, b + [bi])
    ensures OnlyChanged(X, xo, n)
  {
    hide Val, Radix, IsProduct, MlaSum;
    ghost var x := X[xo..xo + n];
    SliceOfSlice(X, xo, n, i, aLimbs + 1);
    assert Min(aLimbs, aLimbs + 1) == aLimbs;
    var c := Mla(X, xo + i, aLimbs + 1, A, ao, aLimbs, bi);
    ghost var y := X[xo..xo + n];
    SliceOfSlice(X, xo, n, i, aLimbs + 1);
    forall j | 0 <= j < n && !(i <= j < i + aLimbs + 1)
      ensures y[j] == x[j]
    {
      assert X[xo + j] == old(X[xo + j]);
    }
    IsProductStep(x, y, a, b, bi, c);
  }

  /** mbedtls_mpi_core_mul: X := A * B, exactly. */
  method Mul(X: array<Limb>, xo: nat, A: array<Limb>, ao: nat, aLimbs: nat, B: array<Limb>, bo: nat, bLimbs: nat)
    requires xo + aLimbs + bLimbs <= X.Length && ao + aLimbs <= A.Length && bo + bLimbs <= B.Length
    requires Apart(X, xo, aLimbs + bLimbs, A, ao, aLimbs) && Apart(X, xo, aLimbs + bLimbs, B, bo, bLimbs)
    modifies X
    ensures Val(X[xo..xo + aLimbs + bLimbs]) == Val(old(A[ao..ao + aLimbs])) * Val(old(B[bo..bo + bLimbs]))
    ensures OnlyChanged(X, xo, aLimbs + bLimbs)
  {
    hide Val, Radix, IsProduct;
    ghost var a, b := A[ao..ao + aLimbs], B[bo..bo + bLimbs];
    var n := aLimbs + bLimbs;
    ClearLimbs(X, xo, n);
    IsProductStart(X[xo..xo + n], a);
    assert b[..0] == [];
    for i := 0 to bLimbs
      invariant IsProduct(X[xo..xo + n], a, b[..i])
      invariant A[ao..ao + aLimbs] == a && B[bo..bo + bLimbs] == b
      invariant OnlyChanged(X, xo, n)
    {
      assert b[..i + 1] == b[..i] + [B[bo + i]] by {
        assert B[bo + i] == b[i];
      }
      MulRow(X, xo, n, A, ao, aLimbs, i, B[bo + i], a, b[..i]);
    }
    assert b[..bLimbs] == b;
    FinishProduct(X[xo..xo + n], a, b);
  }

  /** memset(X, 0, n * ciL) */
  method ClearLimbs(X: array<Limb>, xo: nat, n: nat)
    requires xo + n <= X.Length
    modifies X
    ensures forall k :: xo <= k < xo + n ==> X[k] == 0
    ensures OnlyChanged(X, xo, n)
  {
    for j := 0 to n
      invariant forall k :: xo <= k < xo + j ==> X[k] == 0
      invariant OnlyChanged(X, xo, n)
    {
      X[xo + j] := 0;
    }
  }

  lemma FinishProduct(x: seq<Limb>, a: seq<Limb>, b: seq<Limb>)
    requires IsProduct(x, a, b) && |x| == |a| + |b|
    ensures Val(x) == Val(a) * Val(b)
  {
    assert x[..|a| + |b|] == x;
  }

  // ---------------------------------------------------------------- addition and subtraction

  /** x with carry c above it is a + b. */
  ghost predicate IsSum(x: seq<Limb>, c: Limb, a: seq<Limb>, b: seq<Limb>)
  {
    Val(x) + c * Radix(|x|) == Val(a) + Val(b)
  }

  /** x is a - b with borrow c from above. */
  ghost predicate IsDifference(x: seq<Limb>, c: Limb, a: seq<Limb>, b: seq<Limb>)
  {
    Val(x) + Val(b) == Val(a) + c * Radix(|x|)
  }

  lemma CarryStep(R: int, Q: int, p: int, p1: int, x: int, c: int, c1: int, q: int, q1: int, d: int)
    requires Q == 0x1_0000_0000 * R && p1 == p + R * x && q1 == q + R * d
    requires p + c * R == q && x + 0x1_0000_0000 * c1 == d + c
    ensures p1 + c1 * Q == q1
  {
    assert R * (x + 0x1_0000_0000 * c1) == R * x + c1 * Q;
    assert R * (d + c) == R * d + c * R;
  }

  lemma IsSumExtend(x: seq<Limb>, c: Limb, a: seq<Limb>, b: seq<Limb>, xi: Limb, c1: Limb, ai: Limb, bi: Limb)
    requires |x| == |a| == |b| && IsSum(x, c, a, b)
    requires xi + 0x1_0000_0000 * c1 == ai + bi + c
    ensures IsSum(x + [xi], c1, a + [ai], b + [bi])
  {
    hide Val, Radix;
    ValSnoc(x, xi);
    ValSnoc(a, ai);
    ValSnoc(b, bi);
    RadixStep(|x|);
    assert Radix(|x|) * ai + Radix(|x|) * bi == Radix(|x|) * (ai + bi);
    CarryStep(Radix(|x|), Radix(|x| + 1), Val(x), Val(x + [xi]), xi, c, c1,
              Val(a) + Val(b), Val(a + [ai]) + Val(b + [bi]), ai + bi);
  }

  lemma IsDifferenceExtend(x: seq<Limb>, c: Limb, a: seq<Limb>, b: seq<Limb>, xi: Limb, c1: Limb, ai: Limb, bi: Limb)
    requires |x| == |a| == |b| && IsDifference(x, c, a, b)
    requires xi + bi + c == ai + 0x1_0000_0000 * c1
    ensures IsDifference(x + [xi], c1, a + [ai], b + [bi])
  {
    hide Val, Radix;
    ValSnoc(x, xi);
    ValSnoc(a, ai);
    ValSnoc(b, bi);
    RadixStep(|x|);
    assert Radix(|x|) * xi + Radix(|x|) * bi == Radix(|x|) * (xi + bi);
    CarryStep(Radix(|x|), Radix(|x| + 1), Val(a), Val(a + [ai]), ai, c, c1,
              Val(x) + Val(b), Val(x + [xi]) + Val(b + [bi]), xi + bi);
  }

  /** The two wrap-around tests of one addition step find the carry. */
  lemma AddWithCarry(a: Limb, b: Limb, c: Limb)
    requires c <= 1
    ensures var t := (c + a) % 0x1_0000_0000; var x := (t + b) % 0x1_0000_0000;
            var c1 := (if t < a then 1 else 0) + (if x < b then 1 else 0);
            c1 <= 1 && x + 0x1_0000_0000 * c1 == a + b + c
  {
  }

  /** The two tests of one subtraction step find the borrow. */
  lemma SubtractWithBorrow(a: Limb, b: Limb, c: Limb)
    requires c <= 1
    ensures var t := (a - c) % 0x1_0000_0000; var x := (t - b) % 0x1_0000_0000;
            var c1 := (if t < b then 1 else 0) + (if a < c then 1 else 0);
            c1 <= 1 && x + b + c == a + 0x1_0000_0000 * c1
  {
  }

  /** One limb of the addition. */
  method AddLimb(a: Limb, b: Limb, c: Limb) returns (x: Limb, carry: Limb)
    requires c <= 1
    ensures carry <= 1 && x + 0x1_0000_0000 * carry == a + b + c
  {
    AddWithCarry(a, b, c);
    var t := (c + a) % 0x1_0000_0000;
    carry := if t < a then 1 else 0;
    x := (t + b) % 0x1_0000_0000;
    carry := carry + if x < b then 1 else 0;
  }

  /** mbedtls_mpi_core_add: X := A + B; the carry is 0 or 1. */
  method Add(X: array<Limb>, xo: nat, A: array<Limb>, ao: nat, B: array<Limb>, bo: nat, limbs: nat)
    returns (c: Limb)
    requires xo + limbs <= X.Length && ao + limbs <= A.Length && bo + limbs <= B.Length
    requires SameOrApart(X, xo, A, ao, limbs) && SameOrApart(X, xo, B, bo, limbs)
    modifies X
    ensures c <= 1
    ensures IsSum(X[xo..xo + limbs], c, old(A[ao..ao + limbs]), old(B[bo..bo + limbs]))
    ensures OnlyChanged(X, xo, limbs)
  {
    hide IsSum, Val, Radix;
    ghost var a, b := A[ao..ao + limbs], B[bo..bo + limbs];
    c := 0;
    StartSum();
    assert X[xo..xo] == [] && a[..0] == [] && b[..0] == [];
    for i := 0 to limbs
      invariant c <= 1 && IsSum(X[xo..xo + i], c, a[..i], b[..i])
      invariant OnlyChanged(X, xo, i)
    {
      assert A[ao + i] == a[i] && B[bo + i] == b[i];
      ghost var x, c0 := X[xo..xo + i], c;
      var t;
      t, c := AddLimb(A[ao + i], B[bo + i], c);
      IsSumExtend(x, c0, a[..i], b[..i], t, c, a[i], b[i]);
      X[xo + i] := t;
      assert X[xo..xo + i + 1] == x + [t];
      assert a[..i + 1] == a[..i] + [a[i]] && b[..i + 1] == b[..i] + [b[i]];
    }
    assert a[..limbs] == a && b[..limbs] == b;
  }

  lemma StartSum()
    ensures IsSum([], 0, [], []) && IsDifference([], 0, [], [])
  {
  }

  /** A borrow of 0 or 1 tells whether the minuend is the smaller number. */
  lemma BorrowIsLess(x: seq<Limb>, c: Limb, a: seq<Limb>, b: seq<Limb>)
    requires |x| == |a| == |b| && c <= 1 && IsDifference(x, c, a, b)
    ensures c == 1 <==> Val(a) < Val(b)
  {
    ValBound(x);
    ValBound(a);
  }

  /** One limb of the subtraction. */
  method SubLimb(a: Limb, b: Limb, c: Limb) returns (x: Limb, borrow: Limb)
    requires c <= 1
    ensures borrow <= 1 && x + b + c == a + 0x1_0000_0000 * borrow
  {
    SubtractWithBorrow(a, b, c);
    var z := if a < c then 1 else 0;
    var t := (a - c) % 0x1_0000_0000;
    borrow := (if t < b then 1 else 0) + z;
    x := (t - b) % 0x1_0000_0000;
  }

  /** mbedtls_mpi_core_sub: X := A - B modulo the width; the borrow is 1 exactly when A < B. */
  method Sub(X: array<Limb>, xo: nat, A: array<Limb>, ao: nat, B: array<Limb>, bo: nat, limbs: nat)
    returns (c: Limb)
    requires xo + limbs <= X.Length && ao + limbs <= A.Length && bo + limbs <= B.Length
    requires SameOrApart(X, xo, A, ao, limbs) && SameOrApart(X, xo, B, bo, limbs)
    modifies X
    ensures c == if Val(old(A[ao..ao + limbs])) < Val(old(B[bo..bo + limbs])) then 1 else 0
    ensures IsDifference(X[xo..xo + limbs], c, old(A[ao..ao + limbs]), old(B[bo..bo + limbs]))
    ensures OnlyChanged(X, xo, limbs)
  {
    hide IsDifference, Val, Radix;
    ghost var a, b := A[ao..ao + limbs], B[bo..bo + limbs];
    c := 0;
    StartSum();
    assert X[xo..xo] == [] && a[..0] == [] && b[..0] == [];
    for i := 0 to limbs
      invariant c <= 1 && IsDifference(X[xo..xo + i], c, a[..i], b[..i])
      invariant OnlyChanged(X, xo, i)
    {
      assert A[ao + i] == a[i] && B[bo + i] == b[i];
      ghost var x, c0 := X[xo..xo + i], c;
      var xi;
      xi, c := SubLimb(A[ao + i], B[bo + i], c);
      IsDifferenceExtend(x, c0, a[..i], b[..i], xi, c, a[i], b[i]);
      X[xo + i] := xi;
      assert X[xo..xo + i + 1] == x + [xi];
      assert a[..i + 1] == a[..i] + [a[i]] && b[..i + 1] == b[..i] + [b[i]];
    }
    assert a[..limbs] == a && b[..limbs] == b;
    BorrowIsLess(X[xo..xo + limbs], c, a, b);
  }

  /** mbedtls_mpi_core_lt_ct: whether A < B, visiting every limb from the top. */
  method LtCt(A: array<Limb>, B: array<Limb>, limbs: nat) returns (ret: bool)
    requires limbs <= A.Length && limbs <= B.Length
    ensures ret <==> Val(A[..limbs]) < Val(B[..limbs])
  {
    ret := false;
    var cond, done := false, false;
    var i := limbs;
    ghost var a, b := A[..limbs], B[..limbs];
    while i > 0
      invariant 0 <= i <= limbs
      invariant done <==> Val(a[i..]) != Val(b[i..])
      invariant ret <==> Val(a[i..]) < Val(b[i..])
    {
      assert a[i - 1..][1..] == a[i..] && b[i - 1..][1..] == b[i..];
      cond := B[i - 1] < A[i - 1];
      done := done || cond;
      cond := A[i - 1] < B[i - 1];
      ret := ret || (cond && !done);
      done := done || cond;
      i := i - 1;
    }
    assert a[0..] == a && b[0..] == b;
  }
}
