/**
 * Import and export of numbers as byte strings: mbedtls_mpi_core_read_le, read_be, write_le,
 * write_be and the in-place reversal mbedtls_mpi_core_bigendian_to_host (little-endian host).
 */
module LimbBytes {
  import opened Limbs
  import opened LimbArithmetic
  import opened Bits
  import opened Division
  import opened LimbShift
  import opened Bytes

  datatype Status = Done | BufferTooSmall

  /** The number a little-endian byte string stands for. */
  function ByteVal(s: seq<Byte>): (v: nat)
  {
    if s == [] then 0 else s[0] + 0x100 * ByteVal(s[1..])
  }

  function Reverse<T>(s: seq<T>): (r: seq<T>)
    ensures |r| == |s|
    ensures forall i :: 0 <= i < |s| ==> r[i] == s[|s| - 1 - i]
  {
    seq(|s|, i requires 0 <= i < |s| => s[|s| - 1 - i])
  }

  /** Byte k of a limb, the lowest first: the GET_BYTE macro. */
  function LimbByte(x: Limb, k: nat): (b: Byte)
    requires k < 4
  {
    if k == 0 then x % 0x100 else if k == 1 then x / 0x100 % 0x100
    else if k == 2 then x / 0x1_0000 % 0x100 else x / 0x100_0000
  }

  function FromBytes(b0: Byte, b1: Byte, b2: Byte, b3: Byte): (x: Limb)
  {
    b0 + 0x100 * b1 + 0x1_0000 * b2 + 0x100_0000 * b3
  }

  lemma LimbOfItsBytes(x: Limb)
    ensures FromBytes(LimbByte(x, 0), LimbByte(x, 1), LimbByte(x, 2), LimbByte(x, 3)) == x
  {
    var y, z := x / 0x100, x / 0x1_0000;
    DivTwice(x, 0x100, 0x100);
    DivTwice(x, 0x1_0000, 0x100);
    assert x == 0x100 * y + x % 0x100;
    assert y == 0x100 * z + y % 0x100;
    assert z == 0x100 * (z / 0x100) + z % 0x100;
  }

  lemma BytesOfLimb(b0: Byte, b1: Byte, b2: Byte, b3: Byte)
    ensures var x := FromBytes(b0, b1, b2, b3);
            LimbByte(x, 0) == b0 && LimbByte(x, 1) == b1 && LimbByte(x, 2) == b2 && LimbByte(x, 3) == b3
  {
    var x: int := FromBytes(b0, b1, b2, b3);
    DivUnique(x, 0x100, b1 + 0x100 * b2 + 0x1_0000 * b3, b0);
    DivUnique(b1 + 0x100 * b2 + 0x1_0000 * b3, 0x100, b2 + 0x100 * b3, b1);
    DivUnique(x, 0x1_0000, b2 + 0x100 * b3, b0 + 0x100 * b1);
    DivUnique(b2 + 0x100 * b3, 0x100, b3, b2);
    DivUnique(x, 0x100_0000, b3, b0 + 0x100 * b1 + 0x1_0000 * b2);
  }

  /** The memory of a limb array, byte by byte, on a little-endian host. */
  function Memory(s: seq<Limb>): (m: seq<Byte>)
    ensures |m| == 4 * |s|
  {
    seq(4 * |s|, i requires 0 <= i < 4 * |s| => LimbByte(s[i / 4], i % 4))
  }

  lemma {:induction false} MemoryValue(s: seq<Limb>)
    ensures ByteVal(Memory(s)) == Val(s)
  {
    if s != [] {
      var m, r := Memory(s), Memory(s[1..]);
      MemoryValue(s[1..]);
      assert m[1..][1..][1..][1..] == r by {
        forall i | 0 <= i < |r|
          ensures m[i + 4] == r[i]
        {
          assert (i + 4) / 4 == i / 4 + 1 && (i + 4) % 4 == i % 4;
        }
      }
      LimbOfItsBytes(s[0]);
      assert m[0] == LimbByte(s[0], 0) && m[1] == LimbByte(s[0], 1) && m[2] == LimbByte(s[0], 2) && m[3] == LimbByte(s[0], 3);
      FourBytes(m);
    }
  }

  lemma FourBytes(m: seq<Byte>)
    requires |m| >= 4
    ensures ByteVal(m) == FromBytes(m[0], m[1], m[2], m[3]) + 0x1_0000_0000 * ByteVal(m[1..][1..][1..][1..])
  {
    assert m[1..][0] == m[1] && m[1..][1..][0] == m[2] && m[1..][1..][1..][0] == m[3];
    assert ByteVal(m) == m[0] + 0x100 * ByteVal(m[1..]);
    assert ByteVal(m[1..]) == m[1] + 0x100 * ByteVal(m[1..][1..]);
    assert ByteVal(m[1..][1..]) == m[2] + 0x100 * ByteVal(m[1..][1..][1..]);
  }

  lemma {:induction false} ByteValAppend(s: seq<Byte>, t: seq<Byte>)
    ensures ByteVal(s + t) == ByteVal(s) + Pow2(8 * |s|) * ByteVal(t)
  {
    if s == [] {
      assert s + t == t;
    } else {
      ByteValAppend(s[1..], t);
      assert (s + t)[1..] == s[1..] + t;
      Pow2Of8(|s| - 1);
      var p := Pow2(8 * (|s| - 1));
      assert 0x100 * (p * ByteVal(t)) == Pow2(8 * |s|) * ByteVal(t);
    }
  }

  lemma Pow2Of8(n: nat)
    ensures Pow2(8 * (n + 1)) == 0x100 * Pow2(8 * n)
  {
    Pow2Add(8, 8 * n);
    assert Pow2(8) == 0x100;
  }

  lemma {:induction false} ByteValBound(s: seq<Byte>)
    ensures ByteVal(s) < Pow2(8 * |s|)
  {
    if s != [] {
      ByteValBound(s[1..]);
      Pow2Of8(|s| - 1);
    }
  }

  lemma {:induction false} ByteValZeros(s: seq<Byte>)
    requires forall i :: 0 <= i < |s| ==> s[i] == 0
    ensures ByteVal(s) == 0
  {
    if s != [] {
      ByteValZeros(s[1..]);
    }
  }

  lemma {:induction false} ByteValPositive(s: seq<Byte>, j: nat)
    requires j < |s| && s[j] != 0
    ensures ByteVal(s) > 0
  {
    if j > 0 {
      ByteValPositive(s[1..], j - 1);
    }
  }

  /** Equal numbers in equally many bytes are the same bytes. */
  lemma {:induction false} ByteValInjective(s: seq<Byte>, t: seq<Byte>)
    requires |s| == |t| && ByteVal(s) == ByteVal(t)
    ensures s == t
  {
    if s != [] {
      ByteValInjective(s[1..], t[1..]);
      assert s == [s[0]] + s[1..] && t == [t[0]] + t[1..];
    }
  }

  /** A value fits k bytes exactly when all its bytes from k on are zero. */
  lemma FitsWhenHighBytesZero(s: seq<Byte>, k: nat)
    requires k <= |s|
    ensures ByteVal(s) < Pow2(8 * k) <==> forall i :: k <= i < |s| ==> s[i] == 0
    ensures (forall i :: k <= i < |s| ==> s[i] == 0) ==> ByteVal(s) == ByteVal(s[..k])
  {
    hide ByteVal, Pow2;
    assert s == s[..k] + s[k..];
    ByteValAppend(s[..k], s[k..]);
    ByteValBound(s[..k]);
    HighPart(ByteVal(s[..k]), ByteVal(s[k..]), Pow2(8 * k));
    if forall i :: k <= i < |s| ==> s[i] == 0 {
      ByteValZeros(s[k..]);
    } else {
      var j :| k <= j < |s| && s[j] != 0;
      ByteValPositive(s[k..], j - k);
    }
  }

  lemma HighPart(low: nat, high: nat, p: int)
    requires low < p
    ensures low + p * high < p <==> high == 0
    ensures high == 0 ==> low + p * high == low
  {
    if high > 0 {
      MulIncreases(1, high, p);
    }
  }

  // ---------------------------------------------------------------- import

  /** CHARS_TO_LIMBS */
  function LimbsFor(bytes: nat): (limbs: nat)
    ensures 4 * limbs >= bytes && (bytes > 0 ==> 4 * (limbs - 1) < bytes)
  {
    bytes / 4 + if bytes % 4 != 0 then 1 else 0
  }

  lemma PadWithZeros(s: seq<Byte>, n: nat)
    ensures ByteVal(s + seq(n, _ => 0)) == ByteVal(s)
  {
    hide ByteVal, Pow2;
    ByteValAppend(s, seq(n, _ => 0));
    ByteValZeros(seq(n, _ => 0));
  }

  lemma ByteWeights()
    ensures Pow2(0) == 1 && Pow2(8) == 0x100 && Pow2(16) == 0x1_0000 && Pow2(24) == 0x100_0000
  {
    assert Pow2(8) == 0x100;
    Pow2Add(8, 8);
    Pow2Add(16, 8);
  }

  /** A limb with byte k, zero so far, set to b. */
  function WithByte(x: Limb, k: nat, b: Byte): (y: int)
    requires k < 4
  {
    x + if k == 0 then b else if k == 1 then 0x100 * b else if k == 2 then 0x1_0000 * b else 0x100_0000 * b
  }

  lemma WithByteBytes(x: Limb, k: nat, b: Byte)
    requires k < 4 && LimbByte(x, k) == 0
    ensures 0 <= WithByte(x, k, b) < 0x1_0000_0000
    ensures forall j :: 0 <= j < 4 ==> LimbByte(WithByte(x, k, b), j) == if j == k then b else LimbByte(x, j)
  {
    hide LimbByte;
    LimbOfItsBytes(x);
    var b0, b1, b2, b3 := LimbByte(x, 0), LimbByte(x, 1), LimbByte(x, 2), LimbByte(x, 3);
    BytesOfLimb(if k == 0 then b else b0, if k == 1 then b else b1, if k == 2 then b else b2, if k == 3 then b else b3);
  }

  lemma LowBytesOnly(x: Limb, k: nat)
    requires k < 4 && forall j :: k <= j < 4 ==> LimbByte(x, j) == 0
    ensures x < if k == 0 then 1 else if k == 1 then 0x100 else if k == 2 then 0x1_0000 else 0x100_0000
  {
    LimbOfItsBytes(x);
  }

  /** x |= b << (8 * k) on a limb whose bytes from k on are zero */
  lemma OrByte(x: Limb, k: nat, b: Byte)
    requires k < 4 && forall j :: k <= j < 4 ==> LimbByte(x, j) == 0
    ensures BitOr(x, Shl(b, 8 * k)) == WithByte(x, k, b)
  {
    hide BitOr, Pow2, LimbByte;
    ByteWeights();
    LowBytesOnly(x, k);
    OrIsSum(b, 8 * k, x);
    OrCommutes(x, b * Pow2(8 * k));
  }

  /** mbedtls_mpi_core_read_le */
  method ReadLe(X: array?<Limb>, xLimbs: nat, input: seq<Byte>) returns (status: Status)
    requires X != null ==> xLimbs <= X.Length
    modifies X
    ensures status == if xLimbs < LimbsFor(|input|) then BufferTooSmall else Done
    ensures X != null && status == Done ==> Val(X[..xLimbs]) == ByteVal(input)
    ensures X != null ==> forall j :: 0 <= j < X.Length && (status != Done || xLimbs <= j) ==> X[j] == old(X[j])
  {
    hide Val, ByteVal, LimbByte, BitOr, Shl, WithByte;
    if xLimbs < LimbsFor(|input|) {
      return BufferTooSmall;
    }
    if X != null {
      ClearLimbs(X, 0, xLimbs);
      ZeroBytes();
      for i := 0 to |input|
        invariant forall j :: 0 <= j < i ==> LimbByte(X[j / 4], j % 4) == input[j]
        invariant forall j :: i <= j < 4 * xLimbs ==> LimbByte(X[j / 4], j % 4) == 0
        invariant OnlyChanged(X, 0, xLimbs)
      {
        StoreLe(X, i, input[i], xLimbs);
      }
      ghost var m := Memory(X[..xLimbs]);
      assert m == input + seq(4 * xLimbs - |input|, _ => 0);
      PadWithZeros(input, 4 * xLimbs - |input|);
      MemoryValue(X[..xLimbs]);
    }
    status := Done;
  }

  lemma ZeroBytes()
    ensures forall k :: 0 <= k < 4 ==> LimbByte(0, k) == 0
  {
  }

  /** X[i / ciL] |= b << (8 * (i % ciL)), where the bytes of X from i on are still zero */
  method StoreLe(X: array<Limb>, i: nat, b: Byte, xLimbs: nat)
    requires i < 4 * xLimbs && xLimbs <= X.Length
    requires forall j :: i <= j < 4 * xLimbs ==> LimbByte(X[j / 4], j % 4) == 0
    modifies X
    ensures LimbByte(X[i / 4], i % 4) == b
    ensures forall j :: 0 <= j < 4 * xLimbs && j != i ==> LimbByte(X[j / 4], j % 4) == old(LimbByte(X[j / 4], j % 4))
    ensures forall j :: 0 <= j < X.Length && j != i / 4 ==> X[j] == old(X[j])
  {
    hide LimbByte, BitOr, Shl, WithByte;
    var q, k := i / 4, i % 4;
    assert forall j :: k <= j < 4 ==> LimbByte(X[q], j) == 0 by {
      forall j | k <= j < 4
        ensures LimbByte(X[q], j) == 0
      {
        var p := 4 * q + j;
        assert p / 4 == q && p % 4 == j;
      }
    }
    OrByte(X[q], k, b);
    WithByteBytes(X[q], k, b);
    X[q] := BitOr(X[q], Shl(b, 8 * k));
  }

  /** MBEDTLS_BSWAP32 */
  function BSwap(x: Limb): (y: Limb)
    ensures forall k :: 0 <= k < 4 ==> LimbByte(y, k) == LimbByte(x, 3 - k)
  {
    BytesOfLimb(LimbByte(x, 3), LimbByte(x, 2), LimbByte(x, 1), LimbByte(x, 0));
    FromBytes(LimbByte(x, 3), LimbByte(x, 2), LimbByte(x, 1), LimbByte(x, 0))
  }

  /** Limbs in the opposite order with swapped bytes: the memory read backwards. */
  lemma SwappedMemory(x: seq<Limb>, y: seq<Limb>)
    requires |x| == |y| && forall j :: 0 <= j < |x| ==> y[j] == BSwap(x[|x| - 1 - j])
    ensures Memory(y) == Reverse(Memory(x))
  {
    hide LimbByte, BSwap;
    var m, r := Memory(y), Reverse(Memory(x));
    forall i | 0 <= i < 4 * |x|
      ensures m[i] == r[i]
    {
      var q, k := i / 4, i % 4;
      var p := 4 * |x| - 1 - i;
      assert p / 4 == |x| - 1 - q && p % 4 == 3 - k;
      assert m[i] == LimbByte(y[q], k) == LimbByte(x[|x| - 1 - q], 3 - k);
    }
  }

  /**
   * mbedtls_mpi_core_bigendian_to_host on a little-endian host: reverses the memory of the limbs
   * in place, from both ends at once; a middle limb is swapped with itself.
   */
  method BigEndianToHost(A: array<Limb>, limbs: nat)
    requires limbs <= A.Length
    modifies A
    ensures Memory(A[..limbs]) == Reverse(Memory(old(A[..limbs])))
    ensures OnlyChanged(A, 0, limbs)
  {
    hide BSwap, Memory;
    if limbs == 0 {
      return;
    }
    var left, right := 0, limbs - 1;
    while left <= right
      invariant 0 <= left <= right + 2 && left + right == limbs - 1
      invariant forall j :: 0 <= j < left ==> A[j] == BSwap(old(A[limbs - 1 - j]))
      invariant forall j :: right < j < limbs ==> A[j] == BSwap(old(A[limbs - 1 - j]))
      invariant forall j :: left <= j <= right ==> A[j] == old(A[j])
      invariant OnlyChanged(A, 0, limbs)
    {
      var tmp := BSwap(A[left]);
      A[left] := BSwap(A[right]);
      A[right] := tmp;
      left, right := left + 1, right - 1;
    }
    SwappedMemory(old(A[..limbs]), A[..limbs]);
  }

  /** A limb with byte k replaced. */
  function ReplaceByte(x: Limb, k: nat, b: Byte): (y: Limb)
    requires k < 4
    ensures forall j :: 0 <= j < 4 ==> LimbByte(y, j) == if j == k then b else LimbByte(x, j)
  {
    var b0, b1, b2, b3 := if k == 0 then b else LimbByte(x, 0), if k == 1 then b else LimbByte(x, 1),
                          if k == 2 then b else LimbByte(x, 2), if k == 3 then b else LimbByte(x, 3);
    BytesOfLimb(b0, b1, b2, b3);
    FromBytes(b0, b1, b2, b3)
  }

  /** memcpy((unsigned char *) X + at, input, |input|) */
  method CopyIntoMemory(X: array<Limb>, limbs: nat, at: nat, input: seq<Byte>)
    requires limbs <= X.Length && at + |input| <= 4 * limbs
    modifies X
    ensures Memory(X[..limbs]) == old(Memory(X[..limbs]))[..at] + input + old(Memory(X[..limbs]))[at + |input|..]
    ensures OnlyChanged(X, 0, limbs)
  {
    hide LimbByte, ReplaceByte;
    for i := 0 to |input|
      invariant forall j :: 0 <= j < 4 * limbs && !(at <= j < at + i) ==> LimbByte(X[j / 4], j % 4) == old(LimbByte(X[j / 4], j % 4))
      invariant forall j :: at <= j < at + i ==> LimbByte(X[j / 4], j % 4) == input[j - at]
      invariant OnlyChanged(X, 0, limbs)
    {
      var p := at + i;
      X[p / 4] := ReplaceByte(X[p / 4], p % 4, input[i]);
    }
  }

  /** mbedtls_mpi_core_read_be: X becomes the big-endian value of the input, or nothing happens. */
  method ReadBe(X: array<Limb>, xLimbs: nat, input: seq<Byte>) returns (status: Status)
    requires xLimbs <= X.Length
    modifies X
    ensures status == if xLimbs < LimbsFor(|input|) then BufferTooSmall else Done
    ensures status == Done ==> Val(X[..xLimbs]) == ByteVal(Reverse(input))
    ensures forall j :: 0 <= j < X.Length && (status != Done || xLimbs <= j) ==> X[j] == old(X[j])
  {
    hide Val, ByteVal, Memory;
    if xLimbs < LimbsFor(|input|) {
      return BufferTooSmall;
    }
    if xLimbs == 0 {
      EmptyValue(X[..xLimbs], Reverse(input));
      return Done;
    }
    ClearLimbs(X, 0, xLimbs);
    ZeroMemory(X[..xLimbs]);
    var overhead := xLimbs * 4 - |input|;
    ghost var m0 := Memory(X[..xLimbs]);
    if |input| != 0 {
      CopyIntoMemory(X, xLimbs, overhead, input);
    }
    assert Memory(X[..xLimbs]) == seq(overhead, _ => 0) + input by {
      assert m0[..overhead] == seq(overhead, _ => 0) && m0[overhead + |input|..] == [];
      assert |input| == 0 ==> m0 == seq(overhead, _ => 0) + input;
    }
    BigEndianToHost(X, xLimbs);
    assert Reverse(seq(overhead, _ => 0) + input) == Reverse(input) + seq(overhead, _ => 0);
    PadWithZeros(Reverse(input), overhead);
    MemoryValue(X[..xLimbs]);
    status := Done;
  }

  lemma EmptyValue(x: seq<Limb>, b: seq<Byte>)
    requires x == [] && b == []
    ensures Val(x) == ByteVal(b)
  {
  }

  lemma ZeroMemory(x: seq<Limb>)
    requires forall i :: 0 <= i < |x| ==> x[i] == 0
    ensures forall i :: 0 <= i < 4 * |x| ==> Memory(x)[i] == 0
  {
  }

  // ---------------------------------------------------------------- export

  /** The bytes of the memory from k on are zero, read with GET_BYTE; stops at the first other byte. */
  method HighBytesZero(A: array<Limb>, limbs: nat, k: nat) returns (zero: bool)
    requires limbs <= A.Length && k <= 4 * limbs
    ensures zero <==> Val(A[..limbs]) < Pow2(8 * k)
  {
    hide LimbByte, Val, Pow2, ByteVal;
    ghost var m := Memory(A[..limbs]);
    MemoryValue(A[..limbs]);
    FitsWhenHighBytesZero(m, k);
    for i := k to 4 * limbs
      invariant forall j :: k <= j < i ==> m[j] == 0
    {
      assert m[i] == LimbByte(A[i / 4], i % 4);
      if LimbByte(A[i / 4], i % 4) != 0 {
        return false;
      }
    }
    zero := true;
  }

  /** The low k bytes stand for the whole number when it fits them. */
  lemma LowBytesSuffice(x: seq<Limb>, k: nat)
    requires k <= 4 * |x| && Val(x) < Pow2(8 * k)
    ensures ByteVal(Memory(x)[..k]) == Val(x)
  {
    hide LimbByte, Val, Pow2, ByteVal, Memory;
    MemoryValue(x);
    FitsWhenHighBytesZero(Memory(x), k);
  }

  /** A number always fits the bytes it is stored in. */
  lemma FitsStorage(x: seq<Limb>, k: nat)
    requires 4 * |x| <= k
    ensures Val(x) < Pow2(8 * k)
  {
    hide LimbByte, Val, Pow2, ByteVal, Memory;
    MemoryValue(x);
    ByteValBound(Memory(x));
    Pow2Add(8 * 4 * |x|, 8 * k - 8 * 4 * |x|);
    MulIncreases(1, Pow2(8 * k - 8 * 4 * |x|), Pow2(8 * 4 * |x|));
  }

  /** mbedtls_mpi_core_write_le: fails exactly when the number needs more bytes. */
  method WriteLe(A: array<Limb>, limbs: nat, output: array<Byte>, outLen: nat) returns (status: Status)
    requires limbs <= A.Length && outLen <= output.Length
    modifies output
    ensures status == if Val(A[..limbs]) < Pow2(8 * outLen) then Done else BufferTooSmall
    ensures status == Done ==> ByteVal(output[..outLen]) == Val(A[..limbs])
    ensures forall j :: 0 <= j < output.Length && (status != Done || outLen <= j) ==> output[j] == old(output[j])
  {
    hide LimbByte, Val, Pow2, ByteVal;
    ghost var m := Memory(A[..limbs]);
    var stored := limbs * 4;
    var toCopy := stored;
    if outLen <= stored {
      toCopy := outLen;
      var fits := HighBytesZero(A, limbs, toCopy);
      if !fits {
        return BufferTooSmall;
      }
    } else {
      FitsStorage(A[..limbs], outLen);
      FitsStorage(A[..limbs], stored);
    }
    for i := 0 to toCopy
      invariant forall j :: 0 <= j < i ==> output[j] == m[j]
      invariant forall j :: i <= j < output.Length ==> output[j] == old(output[j])
    {
      assert m[i] == LimbByte(A[i / 4], i % 4);
      output[i] := LimbByte(A[i / 4], i % 4);
    }
    for i := toCopy to outLen
      invariant forall j :: 0 <= j < toCopy ==> output[j] == m[j]
      invariant forall j :: toCopy <= j < i ==> output[j] == 0
      invariant forall j :: i <= j < output.Length ==> output[j] == old(output[j])
    {
      output[i] := 0;
    }
    assert output[..outLen] == m[..toCopy] + seq(outLen - toCopy, _ => 0);
    PadWithZeros(m[..toCopy], outLen - toCopy);
    LowBytesSuffice(A[..limbs], toCopy);
    status := Done;
  }

  /** mbedtls_mpi_core_write_be: fails exactly when the number needs more bytes. */
  method WriteBe(X: array<Limb>, limbs: nat, output: array<Byte>, outLen: nat) returns (status: Status)
    requires limbs <= X.Length && outLen <= output.Length
    modifies output
    ensures status == if Val(X[..limbs]) < Pow2(8 * outLen) then Done else BufferTooSmall
    ensures status == Done ==> ByteVal(Reverse(output[..outLen])) == Val(X[..limbs])
    ensures forall j :: 0 <= j < output.Length && (status != Done || outLen <= j) ==> output[j] == old(output[j])
  {
    hide LimbByte, Val, Pow2, ByteVal;
    ghost var m := Memory(X[..limbs]);
    var stored := limbs * 4;
    var toCopy, p := stored, 0;
    if stored < outLen {
      p := outLen - stored;
      FitsStorage(X[..limbs], outLen);
      FitsStorage(X[..limbs], stored);
    } else {
      toCopy := outLen;
      var fits := HighBytesZero(X, limbs, toCopy);
      if !fits {
        return BufferTooSmall;
      }
    }
    for i := 0 to p
      invariant forall j :: 0 <= j < i ==> output[j] == 0
      invariant forall j :: i <= j < output.Length ==> output[j] == old(output[j])
    {
      output[i] := 0;
    }
    for i := 0 to toCopy
      invariant forall j :: 0 <= j < p ==> output[j] == 0
      invariant forall j :: outLen - i <= j < outLen ==> output[j] == m[outLen - 1 - j]
      invariant forall j :: outLen <= j < output.Length ==> output[j] == old(output[j])
    {
      assert m[i] == LimbByte(X[i / 4], i % 4);
      output[p + (toCopy - i - 1)] := LimbByte(X[i / 4], i % 4);
    }
    assert Reverse(output[..outLen]) == m[..toCopy] + seq(p, _ => 0);
    PadWithZeros(m[..toCopy], p);
    LowBytesSuffice(X[..limbs], toCopy);
    status := Done;
  }

  // ---------------------------------------------------------------- round trips

  /** Reading big-endian and writing big-endian into at least as many bytes pads on the left. */
  lemma ReadWriteBe(input: seq<Byte>, output: seq<Byte>)
    requires |input| <= |output|
    requires ByteVal(Reverse(output)) == ByteVal(Reverse(input))
    ensures output == seq(|output| - |input|, _ => 0) + input
  {
    hide ByteVal;
    var pad := |output| - |input|;
    PadWithZeros(Reverse(input), pad);
    ByteValInjective(Reverse(output), Reverse(input) + seq(pad, _ => 0));
    var want := seq(pad, _ => 0) + input;
    assert Reverse(want) == Reverse(output);
    assert Reverse(Reverse(want)) == want && Reverse(Reverse(output)) == output;
  }

  /** Reading little-endian and writing little-endian into at least as many bytes pads on the right. */
  lemma ReadWriteLe(input: seq<Byte>, output: seq<Byte>)
    requires |input| <= |output|
    requires ByteVal(output) == ByteVal(input)
    ensures output == input + seq(|output| - |input|, _ => 0)
  {
    hide ByteVal;
    PadWithZeros(input, |output| - |input|);
    ByteValInjective(output, input + seq(|output| - |input|, _ => 0));
  }

  /** Writing and reading back recovers every limb. */
  lemma WriteReadLimbs(x: seq<Limb>, y: seq<Limb>, bytes: seq<Byte>)
    requires |x| == |y|
    requires (ByteVal(bytes) == Val(x) && Val(y) == ByteVal(bytes))
          || (ByteVal(Reverse(bytes)) == Val(x) && Val(y) == ByteVal(Reverse(bytes)))
    ensures x == y
  {
    hide ByteVal, Val;
    ValInjective(x, y);
  }
}
