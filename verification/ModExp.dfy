/**
 * Fixed-window modular exponentiation over Montgomery multiplication:
 * mbedtls_mpi_core_exp_mod and the conversions to and from Montgomery form.
 */
module ModExp {
  import opened Limbs
  import opened LimbArithmetic
  import opened Bits
  import opened LimbShift
  import opened Division
  import opened Montgomery

  function Pow(a: int, e: nat): (p: int)
  {
    if e == 0 then 1 else a * Pow(a, e - 1)
  }

  lemma {:induction false} PowAdd(a: int, d: nat, e: nat)
    ensures Pow(a, d + e) == Pow(a, d) * Pow(a, e)
  {
    if d > 0 {
      PowAdd(a, d - 1, e);
      assert d + e - 1 == (d - 1) + e;
      assert a * (Pow(a, d - 1) * Pow(a, e)) == Pow(a, d) * Pow(a, e);
    }
  }

  /** The Montgomery form of a modulo N with n limbs: a * 2^(32 n) mod N. */
  function MontForm(a: int, N: int, n: nat): (x: int)
    requires N > 0
    ensures 0 <= x < N
  {
    CongMod(a * Radix(n), N);
    (a * Radix(n)) % N
  }

  lemma MontFormIntro(x: int, a: int, N: int, n: nat)
    requires N > 0 && N % 2 == 1 && 0 <= x < N && Cong(x * Radix(n), (a * Radix(n)) * Radix(n), N)
    ensures x == MontForm(a, N, n)
  {
    hide Radix, Cong;
    CancelRadix(x, a * Radix(n), N, n);
    CongSmall(x, a * Radix(n), N);
  }

  /** The Montgomery product of two Montgomery forms is the form of the product. */
  lemma FormsMultiply(x: int, a: int, b: int, N: int, n: nat)
    requires N > 0 && N % 2 == 1
    requires IsMontProduct(x, MontForm(a, N, n), MontForm(b, N, n), N, n)
    ensures x == MontForm(a * b, N, n)
  {
    hide Radix, Cong;
    var R := Radix(n);
    CongMod(a * R, N);
    CongMod(b * R, N);
    CongMul(MontForm(a, N, n), a * R, MontForm(b, N, n), b * R, N);
    assert (a * R) * (b * R) == ((a * b) * R) * R;
    CongTrans(x * R, MontForm(a, N, n) * MontForm(b, N, n), ((a * b) * R) * R, N);
    MontFormIntro(x, a * b, N, n);
  }

  /** Multiplying by R^2 mod N converts to Montgomery form. */
  lemma ToForm(x: int, a: int, rr: int, N: int, n: nat)
    requires N > 0 && N % 2 == 1 && rr == (Radix(n) * Radix(n)) % N
    requires IsMontProduct(x, a, rr, N, n)
    ensures x == MontForm(a, N, n)
  {
    hide Radix, Cong;
    var R := Radix(n);
    CongMod(R * R, N);
    CongScale(rr, R * R, a, N);
    assert (R * R) * a == (a * R) * R && rr * a == a * rr;
    CongTrans(x * R, a * rr, (a * R) * R, N);
    MontFormIntro(x, a, N, n);
  }

  /** Multiplying a form by 1 converts back. */
  lemma FromForm(x: int, a: int, N: int, n: nat)
    requires N > 0 && N % 2 == 1 && IsMontProduct(x, MontForm(a, N, n), 1, N, n)
    ensures x == a % N
  {
    hide Radix, Cong;
    CongMod(a * Radix(n), N);
    CongTrans(x * Radix(n), MontForm(a, N, n), a * Radix(n), N);
    CancelRadix(x, a, N, n);
    CongSmall(x, a, N);
  }

  lemma {:induction false} HalfPower(N: int, k: nat)
    requires N > 0 && N % 2 == 1
    ensures Cong(Pow((N + 1) / 2, k) * Pow2(k), 1, N)
  {
    hide Cong, Pow, Pow2;
    var h := (N + 1) / 2;
    PowUnfold(h, k);
    if k == 0 {
      CongIntro(1, 1, 0, N);
    } else {
      HalfPower(N, k - 1);
      HalfStep(N, h, Pow(h, k - 1), Pow2(k - 1));
    }
  }

  lemma HalfStep(N: int, h: int, u: int, v: int)
    requires N > 0 && 2 * h == N + 1 && Cong(u * v, 1, N)
    ensures Cong((h * u) * (2 * v), 1, N)
  {
    hide Cong;
    assert (h * u) * (2 * v) == (u * v) * (1 + N) by {
      assert (h * u) * (2 * v) == (u * v) * (2 * h);
    }
    CongIntro(1 + N, 1, 1, N);
    CongMul(u * v, 1, 1 + N, 1, N);
  }

  lemma PowUnfold(a: int, k: nat)
    ensures k == 0 ==> Pow(a, k) * Pow2(k) == 1
    ensures k > 0 ==> Pow(a, k) == a * Pow(a, k - 1) && Pow2(k) == 2 * Pow2(k - 1)
  {
  }

  /** Every number below N is the Montgomery form of some a below N. */
  lemma EveryNumberIsAForm(x: nat, N: int, n: nat) returns (a: int)
    requires N % 2 == 1 && x < N
    ensures 0 <= a < N && MontForm(a, N, n) == x
  {
    hide Radix, Pow2, Pow, Cong;
    var h, R := Pow((N + 1) / 2, 32 * n), Radix(n);
    HalfPower(N, 32 * n);
    RadixIsPow2(n);
    a := (x * h) % N;
    CongMod(x * h, N);
    CongScale(a, x * h, R, N);
    CongScale(h * R, 1, x, N);
    assert (x * h) * R == (h * R) * x;
    CongTrans(a * R, (h * R) * x, x, N);
    CongSymmetric(a * R, x, N);
    CongSmall(x, a * R, N);
  }

  // ---------------------------------------------------------------- the window table

  /** s holds k consecutive entries of n limbs: the Montgomery forms of a^0, ..., a^(k-1). */
  ghost predicate TableHolds(s: seq<Limb>, n: nat, k: nat, a: int, N: int)
    requires N > 0
    decreases k
  {
    if k == 0 then s == []
    else n <= |s| && Val(s[|s| - n..]) == MontForm(Pow(a, k - 1), N, n) && TableHolds(s[..|s| - n], n, k - 1, a, N)
  }

  lemma TableSnoc(s: seq<Limb>, e: seq<Limb>, n: nat, k: nat, a: int, N: int)
    requires N > 0 && TableHolds(s, n, k, a, N) && |e| == n && Val(e) == MontForm(Pow(a, k), N, n)
    ensures TableHolds(s + e, n, k + 1, a, N)
  {
    hide Val, MontForm, Pow;
    assert (s + e)[|s + e| - n..] == e && (s + e)[..|s + e| - n] == s;
  }

  lemma {:induction false} TableLength(s: seq<Limb>, n: nat, k: nat, a: int, N: int)
    requires N > 0 && TableHolds(s, n, k, a, N)
    ensures |s| == k * n
    decreases k
  {
    hide Val, MontForm, Pow;
    if k > 0 {
      TableLength(s[..|s| - n], n, k - 1, a, N);
      assert (k - 1) * n + n == k * n;
    }
  }

  lemma {:induction false} TableEntry(s: seq<Limb>, n: nat, k: nat, i: nat, a: int, N: int)
    requires N > 0 && TableHolds(s, n, k, a, N) && i < k
    ensures 0 <= i * n && i * n + n <= |s|
    ensures Val(s[i * n..i * n + n]) == MontForm(Pow(a, i), N, n)
    decreases k
  {
    hide Val, MontForm, Pow;
    var r := s[..|s| - n];
    if i == k - 1 {
      TableLength(r, n, i, a, N);
      assert s[i * n..i * n + n] == s[|s| - n..];
    } else {
      TableEntry(r, n, k - 1, i, a, N);
      assert r[i * n..i * n + n] == s[i * n..i * n + n];
    }
  }

  lemma ValOne(s: seq<Limb>)
    requires s != [] && s[0] == 1 && forall i :: 1 <= i < |s| ==> s[i] == 0
    ensures Val(s) == 1
  {
    ValZeros(s[1..]);
  }

  /** A valid modulus with its Montgomery constant. */
  ghost predicate IsModulus(m: seq<Limb>, mm: Limb)
  {
    m != [] && m[0] % 2 == 1 && Val(m) > 0 && Cong(m[0] * mm, -1, 0x1_0000_0000)
  }

  lemma ModulusOdd(m: seq<Limb>)
    requires m != [] && m[0] % 2 == 1
    ensures Val(m) % 2 == 1
  {
  }

  /** A Montgomery multiplication of two Montgomery forms. */
  method MulForms(X: array<Limb>, xo: nat, A: array<Limb>, ao: nat, B: array<Limb>, bo: nat, N: array<Limb>, n: nat,
                  mm: Limb, T: array<Limb>, to: nat, ghost x: int, ghost y: int)
    requires xo + n <= X.Length && ao + n <= A.Length && bo + n <= B.Length && n <= N.Length && to + 2 * n + 1 <= T.Length
    requires Apart(T, to, 2 * n + 1, A, ao, n) && Apart(T, to, 2 * n + 1, B, bo, n) && Apart(T, to, 2 * n + 1, X, xo, n)
    requires T != N && X != N && IsModulus(N[..n], mm)
    requires Val(A[ao..ao + n]) == MontForm(x, Val(N[..n]), n) && Val(B[bo..bo + n]) == MontForm(y, Val(N[..n]), n)
    modifies X, T
    ensures Val(X[xo..xo + n]) == MontForm(x * y, Val(N[..n]), n)
    ensures OnlyChangedBoth(X, xo, n, T, to, 2 * n + 1) && OnlyChangedBoth(T, to, 2 * n + 1, X, xo, n)
  {
    hide Val, Radix, Cong, IsMontProduct, MontForm;
    ghost var m := N[..n];
    assert N[0..0 + n] == m && N[0] == m[0];
    ModulusOdd(m);
    Montmul(X, xo, A, ao, B, bo, n, N, 0, n, mm, T, to);
    FormsMultiply(Val(X[xo..xo + n]), x, y, Val(m), n);
    assert N[..n] == m;
  }

  /**
   * exp_mod_precompute_window: fills Wtable (the first welem * n limbs of the pool T) with the
   * forms of a^0, a^1, ..., a^(welem - 1); the montmul scratch is at offset to of the pool.
   */
  method PrecomputeWindow(A: array<Limb>, N: array<Limb>, n: nat, mm: Limb, RR: array<Limb>, welem: nat,
                          T: array<Limb>, to: nat, ghost a: int)
    requires n <= A.Length && 0 < n <= N.Length && n <= RR.Length && 2 <= welem
    requires welem * n <= to && to + 2 * n + 1 <= T.Length && T != A && T != N && T != RR
    requires IsModulus(N[..n], mm)
    requires Val(RR[..n]) == (Radix(n) * Radix(n)) % Val(N[..n])
    requires Val(A[..n]) == MontForm(a, Val(N[..n]), n)
    modifies T
    ensures TableHolds(T[..welem * n], n, welem, a, Val(N[..n]))
  {
    hide Val, Radix, Cong, MontForm, TableHolds, Pow, IsModulus;
    ghost var m := N[..n];
    var tableLimbs := welem * n;
    NextOffset(n, 1, welem);
    FirstEntries(A, N, n, mm, RR, T, to, a);
    var prev, i := n, 2;
    while i < welem
      invariant 2 <= i <= welem && prev + n == i * n && prev + n <= tableLimbs
      invariant TableHolds(T[..prev + n], n, i, a, Val(m))
    {
      NextOffset(n, i, welem);
      NextEntry(N, n, mm, T, to, prev, i, a);
      prev, i := prev + n, i + 1;
    }
  }

  lemma NextOffset(n: nat, i: nat, count: nat)
    requires i < count
    ensures (i + 1) * n == i * n + n && (i + 1) * n <= count * n
  {
    MulIncreases(i + 1, count, n);
  }

  /** W[i] := W[i - 1] * W[1] */
  method NextEntry(N: array<Limb>, n: nat, mm: Limb, T: array<Limb>, to: nat, prev: nat, ghost i: nat, ghost a: int)
    requires 0 < n <= N.Length && 2 <= i && prev + n == i * n
    requires prev + 2 * n <= to && to + 2 * n + 1 <= T.Length && T != N
    requires IsModulus(N[..n], mm) && TableHolds(T[..prev + n], n, i, a, Val(N[..n]))
    modifies T
    ensures TableHolds(T[..prev + 2 * n], n, i + 1, a, Val(N[..n]))
  {
    hide Val, Radix, Cong, MontForm, TableHolds, Pow;
    ghost var m := N[..n];
    var cur := prev + n;
    ghost var table := T[..cur];
    EntryValue(T, cur, n, i, 1, a, m);
    EntryValue(T, cur, n, i, i - 1, a, m);
    assert 1 * n == n && (i - 1) * n == prev;
    MulForms(T, cur, T, prev, T, n, N, n, mm, T, to, Pow(a, i - 1), a);
    assert T[..cur] == table;
    PowStep(a, i);
    TableSnoc(table, T[cur..cur + n], n, i, a, Val(m));
    assert T[..cur + n] == table + T[cur..cur + n];
  }

  lemma PowStep(a: int, i: nat)
    requires i > 0
    ensures Pow(a, i) == Pow(a, i - 1) * a
  {
  }

  lemma EntryValue(T: array<Limb>, len: nat, n: nat, k: nat, i: nat, a: int, m: seq<Limb>)
    requires Val(m) > 0 && len <= T.Length && TableHolds(T[..len], n, k, a, Val(m)) && i < k
    ensures len == k * n && 0 <= i * n && i * n + n <= len
    ensures Val(T[i * n..i * n + n]) == MontForm(Pow(a, i), Val(m), n)
    ensures Pow(a, 1) == a
  {
    hide Val, MontForm;
    TableLength(T[..len], n, k, a, Val(m));
    TableEntry(T[..len], n, k, i, a, Val(m));
    assert T[..len][i * n..i * n + n] == T[i * n..i * n + n];
  }

  /** W[0] := the form of 1, W[1] := A. */
  method FirstEntries(A: array<Limb>, N: array<Limb>, n: nat, mm: Limb, RR: array<Limb>, T: array<Limb>, to: nat, ghost a: int)
    requires n <= A.Length && 0 < n <= N.Length && n <= RR.Length
    requires 2 * n <= to && to + 2 * n + 1 <= T.Length && T != A && T != N && T != RR
    requires IsModulus(N[..n], mm)
    requires Val(RR[..n]) == (Radix(n) * Radix(n)) % Val(N[..n])
    requires Val(A[..n]) == MontForm(a, Val(N[..n]), n)
    modifies T
    ensures TableHolds(T[..2 * n], n, 2, a, Val(N[..n]))
  {
    hide Val, Radix, Cong, MontForm, TableHolds, Pow, IsMontProduct;
    ghost var m := N[..n];
    assert N[0..0 + n] == m && N[0] == m[0] && RR[0..0 + n] == RR[..n] && A[0..0 + n] == A[..n];
    ModulusOdd(m);
    CongMod(Radix(n) * Radix(n), Val(m));
    ClearLimbs(T, 0, n);
    T[0] := 1;
    assert Val(T[0..0 + n]) == 1 by {
      ValOne(T[0..0 + n]);
    }
    Montmul(T, 0, T, 0, RR, 0, n, N, 0, n, mm, T, to);
    ToForm(Val(T[0..0 + n]), 1, Val(RR[..n]), Val(m), n);
    ghost var w0 := T[0..0 + n];
    assert A[0..0 + n] == A[..n];
    CopyLimbs(T, n, A, 0, n);
    ghost var w1 := T[n..n + n];
    assert T[0..0 + n] == w0;
    assert T[..2 * n] == w0 + w1;
    TwoEntries(w0, w1, n, a, Val(m));
  }

  lemma TwoEntries(w0: seq<Limb>, w1: seq<Limb>, n: nat, a: int, N: int)
    requires N > 0 && |w0| == |w1| == n && Val(w0) == MontForm(1, N, n) && Val(w1) == MontForm(a, N, n)
    ensures TableHolds(w0 + w1, n, 2, a, N)
  {
    hide Val, MontForm;
    assert TableHolds([], n, 0, a, N);
    TableSnoc([], w0, n, 0, a, N);
    assert [] + w0 == w0;
    assert Pow(a, 1) == a;
    TableSnoc(w0, w1, n, 1, a, N);
  }

  /** mbedtls_mpi_core_cond_assign */
  method CondAssign(X: array<Limb>, xo: nat, A: array<Limb>, ao: nat, limbs: nat, assign: bool)
    requires xo + limbs <= X.Length && ao + limbs <= A.Length && Apart(X, xo, limbs, A, ao, limbs)
    modifies X
    ensures X[xo..xo + limbs] == if assign then old(A[ao..ao + limbs]) else old(X[xo..xo + limbs])
    ensures OnlyChanged(X, xo, limbs)
  {
    for i := 0 to limbs
      invariant forall j :: ao <= j < ao + limbs ==> A[j] == old(A[j])
      invariant forall j :: xo <= j < xo + i && assign ==> X[j] == old(A[ao + (j - xo)])
      invariant forall j :: xo <= j < xo + limbs && (!assign || xo + i <= j) ==> X[j] == old(X[j])
      invariant OnlyChanged(X, xo, limbs)
    {
      X[xo + i] := if assign then A[ao + i] else X[xo + i];
    }
  }

  /**
   * mbedtls_mpi_core_ct_uint_table_lookup: visits every entry of the table at the front of the
   * pool and keeps the one at `index`.
   */
  method TableLookup(T: array<Limb>, dest: nat, limbs: nat, count: nat, index: nat)
    requires index < count && count * limbs <= dest && dest + limbs <= T.Length
    modifies T
    ensures 0 <= index * limbs && index * limbs + limbs <= dest
    ensures T[dest..dest + limbs] == old(T[index * limbs..index * limbs + limbs])
    ensures OnlyChanged(T, dest, limbs)
  {
    NextOffset(limbs, index, count);
    ghost var at := index * limbs;
    ghost var want := T[at..at + limbs];
    var i, table := 0, 0;
    while i < count
      invariant 0 <= i <= count && table == i * limbs && 0 <= table <= dest
      invariant i > index ==> T[dest..dest + limbs] == want
      invariant OnlyChanged(T, dest, limbs)
    {
      NextOffset(limbs, i, count);
      CondAssign(T, dest, T, table, limbs, i == index);
      if i == index {
        assert want == T[at..at + limbs];
      }
      i, table := i + 1, table + limbs;
    }
  }

  // ---------------------------------------------------------------- exponentiation

  /** The bits of e from position p up, shifted down. */
  lemma PrefixStep(e: seq<Limb>, l: nat, b: nat)
    requires l < |e| && b < 32
    ensures Val(e) / Pow2(32 * l + b)
         == 2 * (Val(e) / Pow2(32 * l + b + 1)) + (e[l] / Pow2(b)) % 2
  {
    hide Val, Radix, Pow2;
    var p := Pow2(32 * l + b);
    Pow2Add(32 * l + b, 1);
    Pow2One();
    DivTwice(Val(e), p, 2);
    assert p * 2 == Pow2(32 * l + b + 1);
    LimbBit(e, l, b);
  }

  /** Bit 32 l + b of a number is bit b of its limb l. */
  lemma LimbBit(e: seq<Limb>, l: nat, b: nat)
    requires l < |e| && b < 32
    ensures (Val(e) / Pow2(32 * l + b)) % 2 == (e[l] / Pow2(b)) % 2
  {
    hide Val, Radix, Pow2;
    DropIsDivision(e, l);
    RadixIsPow2(l);
    Pow2Add(32 * l, b);
    DivTwice(Val(e), Radix(l), Pow2(b));
    FirstLimb(e[l..]);
    LowBit(e[l], Val(e[l..][1..]), b);
  }

  lemma FirstLimb(s: seq<Limb>)
    requires s != []
    ensures Val(s) == s[0] + 0x1_0000_0000 * Val(s[1..])
  {
  }

  lemma LowBit(x: Limb, hi: nat, b: nat)
    requires b < 32
    ensures ((x + 0x1_0000_0000 * hi) / Pow2(b)) % 2 == (x / Pow2(b)) % 2
  {
    hide Pow2;
    var P, h := Pow2(b), Pow2(31 - b);
    LimbPow2(b);
    Pow2Add(1, 31 - b);
    Pow2One();
    EvenShift(x, hi, P, h);
  }

  lemma EvenShift(x: nat, hi: nat, P: int, h: int)
    requires P > 0 && P * (2 * h) == 0x1_0000_0000
    ensures ((x + 0x1_0000_0000 * hi) / P) % 2 == (x / P) % 2
  {
    var k := h * hi;
    assert (P * (2 * h)) * hi == (2 * k) * P;
    AddMultiple(x, P, 2 * k);
    ParityKept(x / P, k);
  }

  lemma ParityKept(q: int, k: int)
    ensures (q + 2 * k) % 2 == q % 2
  {
  }

  /** exp_mod_get_window_size for the configured MBEDTLS_MPI_WINDOW_SIZE */
  function WindowSize(maxWindow: nat, eBits: nat): (w: nat)
    ensures 1 <= w <= 6
  {
    if maxWindow >= 6 then (if eBits > 671 then 6 else if eBits > 239 then 5 else if eBits > 79 then 4 else 1)
    else if maxWindow == 5 then (if eBits > 239 then 5 else if eBits > 79 then 4 else 1)
    else if maxWindow > 1 then (if eBits > 79 then maxWindow else 1)
    else 1
  }

  /** mbedtls_mpi_core_exp_mod_working_limbs */
  function WorkingLimbs(maxWindow: nat, n: nat, eLimbs: nat): (limbs: nat)
  {
    var welem := Pow2(WindowSize(maxWindow, 32 * eLimbs));
    MulIncreases(0, welem, n);
    welem * n + n + (2 * n + 1)
  }

  /** Everything exponentiation needs of its pool, modulus and table. */
  ghost predicate ExpReady(X: array<Limb>, N: array<Limb>, n: nat, mm: Limb, T: array<Limb>, tl: nat, welem: nat, a: int)
    reads X, N, T
  {
    && 0 < n <= N.Length && n <= X.Length && tl == welem * n && tl + n + 2 * n + 1 <= T.Length
    && T != X && T != N && X != N && IsModulus(N[..n], mm)
    && TableHolds(T[..tl], n, welem, a, Val(N[..n]))
  }

  /** X := X * X */
  method Square(X: array<Limb>, N: array<Limb>, n: nat, mm: Limb, T: array<Limb>, ghost tl: nat, to: nat,
                ghost welem: nat, ghost a: int, ghost e: nat)
    requires ExpReady(X, N, n, mm, T, tl, welem, a) && to == tl + n
    requires Val(X[..n]) == MontForm(Pow(a, e), Val(N[..n]), n)
    modifies X, T
    ensures ExpReady(X, N, n, mm, T, tl, welem, a)
    ensures Val(X[..n]) == MontForm(Pow(a, 2 * e), Val(N[..n]), n)
    ensures OnlyChanged(X, 0, n)
  {
    hide Val, Radix, Cong, MontForm, TableHolds, Pow, IsModulus;
    ghost var table := T[..tl];
    assert X[0..0 + n] == X[..n];
    MulForms(X, 0, X, 0, X, 0, N, n, mm, T, to, Pow(a, e), Pow(a, e));
    PowAdd(a, e, e);
    assert X[0..0 + n] == X[..n] && T[..tl] == table;
  }

  /** X := X * Wtable[window] */
  method MulByEntry(X: array<Limb>, N: array<Limb>, n: nat, mm: Limb, T: array<Limb>, tl: nat, to: nat, welem: nat,
                    window: nat, ghost a: int, ghost e: nat)
    requires ExpReady(X, N, n, mm, T, tl, welem, a) && to == tl + n && window < welem
    requires Val(X[..n]) == MontForm(Pow(a, e), Val(N[..n]), n)
    modifies X, T
    ensures ExpReady(X, N, n, mm, T, tl, welem, a)
    ensures Val(X[..n]) == MontForm(Pow(a, e + window), Val(N[..n]), n)
    ensures OnlyChanged(X, 0, n)
  {
    hide Val, Radix, Cong, MontForm, TableHolds, Pow, IsModulus;
    ghost var table, m := T[..tl], N[..n];
    EntryValue(T, tl, n, welem, window, a, m);
    TableLookup(T, tl, n, welem, window);
    assert T[..tl] == table && X[0..0 + n] == X[..n];
    MulForms(X, 0, X, 0, T, tl, N, n, mm, T, to, Pow(a, e), Pow(a, window));
    PowAdd(a, e, window);
    assert X[0..0 + n] == X[..n] && T[..tl] == table;
  }

  /** One turn of the loop on the integers: the prefix, the window and the bits still to read. */
  ghost predicate Progress(e: nat, p: nat, q: nat, window: nat, windowBits: nat, wsize: nat)
  {
    && q == e / Pow2(p) && window <= q && window < Pow2(windowBits) && windowBits < wsize
    && (p == 0 ==> window == 0)
  }

  lemma ProgressStep(e: seq<Limb>, l: nat, b: nat, q: nat, window: nat, windowBits: nat, wsize: nat, bit: nat)
    requires l < |e| && b < 32 && Progress(Val(e), 32 * l + b + 1, q, window, windowBits, wsize)
    requires bit == (e[l] / Pow2(b)) % 2
    ensures 2 * q + bit == Val(e) / Pow2(32 * l + b)
    ensures 2 * window + bit <= 2 * q + bit && 2 * window + bit < Pow2(windowBits + 1) <= Pow2(wsize)
  {
    hide Val, Pow2;
    PrefixStep(e, l, b);
    Pow2Add(windowBits, 1);
    Pow2One();
    Pow2Add(windowBits + 1, wsize - (windowBits + 1));
    MulIncreases(1, Pow2(wsize - (windowBits + 1)), Pow2(windowBits + 1));
  }

  lemma WindowInsert(window: Limb, bit: nat)
    requires window < 0x8000_0000 && bit <= 1
    ensures BitOr(Shl(window, 1), bit) == 2 * window + bit
  {
    hide BitOr, Pow2;
    Pow2One();
    assert Shl(window, 1) == window * 2;
    OrIsSum(window, 1, bit);
  }

  lemma ProgressStart(e: seq<Limb>, wsize: nat)
    requires 1 <= wsize
    ensures Progress(Val(e), 32 * |e|, 0, 0, 0, wsize)
  {
    hide Val, Radix;
    ValBound(e);
    RadixIsPow2(|e|);
    DivUnique(Val(e), Pow2(32 * |e|), 0, Val(e));
  }

  /** X is the form of a^e for the modulus N. */
  ghost predicate HoldsPower(X: array<Limb>, N: array<Limb>, n: nat, a: int, e: int)
    reads X, N
  {
    && n <= N.Length && n <= X.Length && Val(N[..n]) > 0 && e >= 0
    && Val(X[..n]) == MontForm(Pow(a, e), Val(N[..n]), n)
  }

  /** The state of the exponentiation loop between two bits. */
  ghost predicate LoopState(X: array<Limb>, N: array<Limb>, n: nat, mm: Limb, T: array<Limb>, tl: nat, wsize: nat, a: int,
                            e: nat, p: nat, q: nat, window: nat, windowBits: nat)
    reads X, N, T
  {
    && ExpReady(X, N, n, mm, T, tl, Pow2(wsize), a)
    && Progress(e, p, q, window, windowBits, wsize)
    && HoldsPower(X, N, n, a, q - window)
  }

  /** One turn of the loop: square, take bit b of limb l into the window, and use the window when it is due. */
  method LoopStep(X: array<Limb>, N: array<Limb>, n: nat, mm: Limb, E: array<Limb>, l: nat, b: nat, T: array<Limb>,
                  tl: nat, wsize: nat, windowBits0: nat, window0: Limb, ghost e: seq<Limb>, ghost q0: nat, ghost a: int)
    returns (windowBits: nat, window: Limb, ghost q: nat)
    requires b < 32 && l < |e| <= E.Length && e == E[..|e|] && E != X && E != T && wsize <= 6
    requires LoopState(X, N, n, mm, T, tl, wsize, a, Val(e), 32 * l + b + 1, q0, window0, windowBits0)
    modifies X, T
    ensures LoopState(X, N, n, mm, T, tl, wsize, a, Val(e), 32 * l + b, q, window, windowBits)
    ensures OnlyChanged(X, 0, n)
  {
    hide Val, Radix, Cong, MontForm, TableHolds, Pow, IsModulus, ExpReady, Pow2, Shl, BitOr;
    var to := tl + n;
    Square(X, N, n, mm, T, tl, to, Pow2(wsize), a, q0 - window0);
    var bit := Shr(E[l], b) % 2;
    assert E[l] == e[l];
    ProgressStep(e, l, b, q0, window0, windowBits0, wsize, bit);
    WindowBound(wsize);
    WindowInsert(window0, bit);
    windowBits := windowBits0 + 1;
    window := Shl(window0, 1);
    window := BitOr(window, bit);
    q := 2 * q0 + bit;
    if windowBits == wsize || (b == 0 && l == 0) {
      MulByEntry(X, N, n, mm, T, tl, to, Pow2(wsize), window, a, q - window);
      window, windowBits := 0, 0;
      Pow2One();
    }
  }

  lemma WindowBound(wsize: nat)
    requires wsize <= 6
    ensures Pow2(wsize) <= 64
  {
    Pow2Add(wsize, 6 - wsize);
    assert Pow2(6) == 64;
    MulIncreases(1, Pow2(6 - wsize), Pow2(wsize));
  }

  /**
   * The loop of mbedtls_mpi_core_exp_mod: reads the exponent from the top bit down, squares for
   * every bit, and multiplies by a table entry when the window is full or the exponent is used up.
   */
  method ExpLoop(X: array<Limb>, N: array<Limb>, n: nat, mm: Limb, E: array<Limb>, eLimbs: nat, T: array<Limb>,
                 tl: nat, wsize: nat, ghost a: int)
    requires 0 < eLimbs <= E.Length && E != X && E != T && 1 <= wsize <= 6
    requires ExpReady(X, N, n, mm, T, tl, Pow2(wsize), a) && HoldsPower(X, N, n, a, 0)
    modifies X, T
    ensures HoldsPower(X, N, n, a, Val(E[..eLimbs]))
    ensures OnlyChanged(X, 0, n)
  {
    hide Val, Pow2, Shl, BitOr, ExpReady, Progress, HoldsPower, LoopState;
    var limb, bitIndex := eLimbs, 0;
    var windowBits, window: Limb := 0, 0;
    ghost var q, e := 0, E[..eLimbs];
    LoopStarts(X, N, n, mm, T, tl, wsize, a, e);
    while !(bitIndex == 0 && limb == 0)
      invariant 0 <= limb <= eLimbs && 0 <= bitIndex < 32 && (limb == eLimbs ==> bitIndex == 0)
      invariant E[..eLimbs] == e
      invariant OnlyChanged(X, 0, n)
      invariant LoopState(X, N, n, mm, T, tl, wsize, a, Val(e), 32 * limb + bitIndex, q, window, windowBits)
      decreases 32 * limb + bitIndex
    {
      if bitIndex == 0 {
        limb := limb - 1;
        bitIndex := 31;
      } else {
        bitIndex := bitIndex - 1;
      }
      windowBits, window, q := LoopStep(X, N, n, mm, E, limb, bitIndex, T, tl, wsize, windowBits, window, e, q, a);
    }
    LoopEnds(X, N, n, mm, T, tl, wsize, a, Val(e), q, window, windowBits);
  }

  lemma LoopStarts(X: array<Limb>, N: array<Limb>, n: nat, mm: Limb, T: array<Limb>, tl: nat, wsize: nat, a: int, e: seq<Limb>)
    requires 1 <= wsize && ExpReady(X, N, n, mm, T, tl, Pow2(wsize), a) && HoldsPower(X, N, n, a, 0)
    ensures LoopState(X, N, n, mm, T, tl, wsize, a, Val(e), 32 * |e|, 0, 0, 0)
  {
    hide ExpReady, HoldsPower, Progress;
    ProgressStart(e, wsize);
  }

  lemma LoopEnds(X: array<Limb>, N: array<Limb>, n: nat, mm: Limb, T: array<Limb>, tl: nat, wsize: nat, a: int,
                 e: nat, q: nat, window: nat, windowBits: nat)
    requires LoopState(X, N, n, mm, T, tl, wsize, a, e, 0, q, window, windowBits)
    ensures HoldsPower(X, N, n, a, e)
  {
    hide ExpReady, Val;
    Pow2One();
    assert q == e && window == 0;
  }

  /**
   * mbedtls_mpi_core_exp_mod: for A in Montgomery form (of a), leaves in X the Montgomery form of
   * a^E modulo N. T is the pool: window table, selected entry, montmul scratch. X may be A.
   */
  method ExpMod(X: array<Limb>, A: array<Limb>, N: array<Limb>, n: nat, E: array<Limb>, eLimbs: nat, RR: array<Limb>,
                T: array<Limb>, maxWindow: nat, ghost a: int)
    requires 0 < n <= N.Length && n <= X.Length && n <= A.Length && n <= RR.Length && 0 < eLimbs <= E.Length
    requires WorkingLimbs(maxWindow, n, eLimbs) <= T.Length
    requires T != X && T != A && T != N && T != E && T != RR && X != N && X != E && X != RR
    requires N[0] % 2 == 1
    requires Val(RR[..n]) == (Radix(n) * Radix(n)) % Modulus(N[..n])
    requires Val(A[..n]) == MontForm(a, Modulus(N[..n]), n)
    modifies X, T
    ensures HoldsPower(X, N, n, a, Val(old(E[..eLimbs])))
    ensures OnlyChanged(X, 0, n)
  {
    hide Val, Radix, Cong, MontForm, TableHolds, Pow, IsModulus, Pow2;
    var wsize := WindowSize(maxWindow, eLimbs * 32);
    var welem := Pow2(wsize);
    var tableLimbs := welem * n;
    ghost var m := N[..n];
    var mm := MontmulInit(N);
    StartModulus(m, mm);
    AtLeastTwo(wsize);
    PrecomputeWindow(A, N, n, mm, RR, welem, T, tableLimbs + n, a);
    assert E[..eLimbs] == old(E[..eLimbs]);
    EntryValue(T, tableLimbs, n, welem, 0, a, m);
    assert 0 * n == 0;
    CopyLimbs(X, 0, T, 0, n);
    assert X[0..0 + n] == X[..n];
    ExpLoop(X, N, n, mm, E, eLimbs, T, tableLimbs, wsize, a);
  }

  /** The number an odd modulus stands for; it is positive. */
  function Modulus(m: seq<Limb>): (v: int)
    requires m != [] && m[0] % 2 == 1
    ensures v > 0
  {
    Val(m)
  }

  lemma StartModulus(m: seq<Limb>, mm: Limb)
    requires m != [] && m[0] % 2 == 1 && Cong(m[0] * mm, -1, 0x1_0000_0000)
    ensures IsModulus(m, mm) && Modulus(m) == Val(m)
  {
    ModulusOdd(m);
  }

  lemma AtLeastTwo(wsize: nat)
    requires 1 <= wsize
    ensures Pow2(wsize) >= 2
  {
  }

  /** mbedtls_mpi_core_to_mont_rep */
  method ToMontRep(X: array<Limb>, A: array<Limb>, N: array<Limb>, n: nat, mm: Limb, rr: array<Limb>, T: array<Limb>)
    requires 0 < n <= N.Length && n <= X.Length && n <= A.Length && n <= rr.Length && 2 * n + 1 <= T.Length
    requires T != X && T != A && T != N && T != rr && X != N && IsModulus(N[..n], mm)
    requires Val(rr[..n]) == (Radix(n) * Radix(n)) % Val(N[..n])
    modifies X, T
    ensures Val(X[..n]) == MontForm(Val(old(A[..n])), Val(N[..n]), n)
    ensures OnlyChanged(X, 0, n)
  {
    hide Val, Radix, Cong, MontForm, IsMontProduct;
    ghost var m, a := N[..n], A[..n];
    assert N[0..0 + n] == m && N[0] == m[0] && rr[0..0 + n] == rr[..n] && A[0..0 + n] == a;
    ModulusOdd(m);
    CongMod(Radix(n) * Radix(n), Val(m));
    Montmul(X, 0, A, 0, rr, 0, n, N, 0, n, mm, T, 0);
    ToForm(Val(X[0..0 + n]), Val(a), Val(old(rr[..n])), Val(m), n);
    assert X[0..0 + n] == X[..n];
  }

  /** mbedtls_mpi_core_from_mont_rep: a multiplication by the one-limb number 1. */
  method FromMontRep(X: array<Limb>, A: array<Limb>, N: array<Limb>, n: nat, mm: Limb, T: array<Limb>, ghost a: int)
    requires 0 < n <= N.Length && n <= X.Length && n <= A.Length && 2 * n + 1 <= T.Length
    requires T != X && T != A && T != N && X != N && IsModulus(N[..n], mm)
    requires Val(A[..n]) == MontForm(a, Val(N[..n]), n)
    modifies X, T
    ensures Val(X[..n]) == a % Val(N[..n])
    ensures OnlyChanged(X, 0, n)
  {
    hide Val, Radix, Cong, MontForm, IsMontProduct;
    ghost var m := N[..n];
    assert N[0..0 + n] == m && N[0] == m[0] && A[0..0 + n] == A[..n];
    ModulusOdd(m);
    var rinv := new Limb[1](_ => 1);
    OneLimb(rinv[0..0 + 1]);
    Montmul(X, 0, A, 0, rinv, 0, 1, N, 0, n, mm, T, 0);
    FromForm(Val(X[0..0 + n]), a, Val(m), n);
    assert X[0..0 + n] == X[..n];
  }

  /**
   * Conversion, exponentiation and conversion back, one call after the other: a power modulo any odd
   * N. A need not be below N, and X may be A.
   */
  method PowerModulo(X: array<Limb>, A: array<Limb>, N: array<Limb>, n: nat, E: array<Limb>, eLimbs: nat, RR: array<Limb>,
                     T: array<Limb>, maxWindow: nat)
    requires 0 < n <= N.Length && n <= X.Length && n <= A.Length && n <= RR.Length && 0 < eLimbs <= E.Length
    requires WorkingLimbs(maxWindow, n, eLimbs) <= T.Length
    requires T != X && T != A && T != N && T != E && T != RR && X != N && X != E && X != RR
    requires N[0] % 2 == 1
    requires Val(RR[..n]) == (Radix(n) * Radix(n)) % Modulus(N[..n])
    modifies X, T
    ensures Val(X[..n]) == Pow(Val(old(A[..n])), Val(E[..eLimbs])) % Modulus(N[..n])
    ensures OnlyChanged(X, 0, n)
  {
    hide Val, Radix, Cong, MontForm, Pow, IsModulus, Pow2;
    ghost var m, a := N[..n], Val(A[..n]);
    var mm := MontmulInit(N);
    StartModulus(m, mm);
    assert N[..n] == m;
    ScratchFits(maxWindow, n, eLimbs);
    ToMontRep(X, A, N, n, mm, RR, T);
    ExpMod(X, X, N, n, E, eLimbs, RR, T, maxWindow, a);
    FromMontRep(X, X, N, n, mm, T, Pow(a, Val(E[..eLimbs])));
  }

  lemma ScratchFits(maxWindow: nat, n: nat, eLimbs: nat)
    ensures 2 * n + 1 <= WorkingLimbs(maxWindow, n, eLimbs)
  {
  }

  lemma OneLimb(s: seq<Limb>)
    requires |s| == 1 && s[0] == 1
    ensures Val(s) == 1
  {
  }
}
