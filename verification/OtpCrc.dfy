/**
 * The CRC-16 of otp.c (ISO 13239): the bitwise loop, the check of a received configuration, and the
 * complemented CRC appended to a frame.
 */
module OtpCrc {

  type Octet = bv8

  /** The 16-bit register. */
  datatype Reg = Reg(v: bv16)

  const ONES := Reg(0xFFFF)
  const RESIDUE := Reg(0xF0B8)

  function Add(x: Reg, y: Reg): Reg
  {
    Reg(x.v ^ y.v)
  }

  /** A byte in the low half, or in the high half. */
  function Lo(b: Octet): Reg { Reg(b as bv16) }
  function Hi(b: Octet): Reg { Reg((b as bv16) << 8) }

  // ---------------------------------------------------------------- the loop as functions

  /** One turn of the inner loop. */
  function BitStep(c: Reg): Reg
  {
    Reg(BitStepValue(c.v))
  }

  function BitStepValue(c: bv16): bv16
  {
    if c & 1 == 1 then (c >> 1) ^ 0x8408 else c >> 1
  }

  function BitSteps(c: Reg, k: nat): Reg
  {
    if k == 0 then c else BitStep(BitSteps(c, k - 1))
  }

  /** One turn of the outer loop. */
  function ByteStep(c: Reg, b: Octet): Reg
  {
    BitSteps(Add(c, Lo(b)), 8)
  }

  function Crc(c: Reg, s: seq<Octet>): Reg
  {
    if s == [] then c else ByteStep(Crc(c, s[..|s| - 1]), s[|s| - 1])
  }

  lemma {:induction false} CrcAppend(c: Reg, s: seq<Octet>, t: seq<Octet>)
    ensures Crc(c, s + t) == Crc(Crc(c, s), t)
  {
    hide ByteStep;
    if t == [] {
      assert s + t == s;
    } else {
      CrcAppend(c, s, t[..|t| - 1]);
      assert (s + t)[..|s + t| - 1] == s + t[..|t| - 1];
    }
  }

  // ---------------------------------------------------------------- every step can be undone

  /** The top bit tells whether the feedback was added. */
  function BitUnstep(d: Reg): Reg
  {
    if d.v & 0x8000 != 0 then Reg(((d.v ^ 0x8408) << 1) | 1) else Reg(d.v << 1)
  }

  lemma BitUnstepInverse(c: Reg)
    ensures BitUnstep(BitStep(c)) == c
  {
  }

  lemma {:induction false} BitStepsInjective(c: Reg, d: Reg, k: nat)
    requires BitSteps(c, k) == BitSteps(d, k)
    ensures c == d
  {
    hide BitStep, BitUnstep;
    if k > 0 {
      BitUnstepInverse(BitSteps(c, k - 1));
      BitUnstepInverse(BitSteps(d, k - 1));
      BitStepsInjective(c, d, k - 1);
    }
  }

  lemma AddCancels(c: Reg, d: Reg, b: Reg)
    requires Add(c, b) == Add(d, b) || Add(b, c) == Add(b, d)
    ensures c == d
  {
  }

  /** Equal bytes never hide a difference. */
  lemma {:induction false} CrcInjective(c: Reg, d: Reg, s: seq<Octet>)
    requires Crc(c, s) == Crc(d, s)
    ensures c == d
  {
    hide BitSteps, Add, Lo;
    if s != [] {
      var t, b := s[..|s| - 1], s[|s| - 1];
      BitStepsInjective(Add(Crc(c, t), Lo(b)), Add(Crc(d, t), Lo(b)), 8);
      AddCancels(Crc(c, t), Crc(d, t), Lo(b));
      CrcInjective(c, d, t);
    }
  }

  // ---------------------------------------------------------------- two bytes at a time

  function Half(y: Reg): Reg { Reg(y.v >> 1) }

  predicate Even(y: Reg) { y.v & 1 == 0 }

  /** A part of the register whose low bit is clear is only shifted. */
  lemma BitStepAdd(x: Reg, y: Reg)
    requires Even(y)
    ensures BitStep(Add(x, y)) == Add(BitStep(x), Half(y))
  {
    hide BitStepValue, BitStep, Add, Half, Even;
    var Reg(a) := x;
    var Reg(b) := y;
    EvenIs(b);
    BitStepValueAdd(a, b);
    StepOfSum(a, b);
    SumOfStep(BitStepValue(a), b);
    StepIs(a);
  }

  lemma EvenIs(b: bv16)
    ensures Even(Reg(b)) <==> b & 1 == 0
  {
  }

  lemma StepIs(a: bv16)
    ensures BitStep(Reg(a)) == Reg(BitStepValue(a))
  {
  }

  lemma StepOfSum(a: bv16, b: bv16)
    ensures BitStep(Add(Reg(a), Reg(b))) == Reg(BitStepValue(a ^ b))
  {
    hide BitStepValue;
  }

  lemma SumOfStep(a: bv16, b: bv16)
    ensures Add(Reg(a), Half(Reg(b))) == Reg(a ^ (b >> 1))
  {
  }

  lemma BitStepValueAdd(x: bv16, y: bv16)
    requires y & 1 == 0
    ensures BitStepValue(x ^ y) == BitStepValue(x) ^ (y >> 1)
  {
  }

  /** y after k shifts */
  function Halves(y: Reg, k: nat): Reg
  {
    if k == 0 then y else Half(Halves(y, k - 1))
  }

  lemma HighByteShifts(b: Octet)
    ensures forall k :: 0 <= k < 8 ==> Even(Halves(Hi(b), k))
    ensures Halves(Hi(b), 8) == Lo(b)
  {
    var y := (b as bv16) << 8;
    ShiftedByte(b);
    ShiftAgain(y);
    HalvesFirst(Hi(b));
  }

  lemma HalvesFirst(y: Reg)
    ensures Halves(y, 0) == y && Halves(y, 1) == Half(y) && Halves(y, 2) == Half(Halves(y, 1))
    ensures Halves(y, 3) == Half(Halves(y, 2)) && Halves(y, 4) == Half(Halves(y, 3))
    ensures Halves(y, 5) == Half(Halves(y, 4)) && Halves(y, 6) == Half(Halves(y, 5))
    ensures Halves(y, 7) == Half(Halves(y, 6)) && Halves(y, 8) == Half(Halves(y, 7))
  {
  }

  lemma ShiftedByte(b: Octet)
    ensures var y := (b as bv16) << 8;
            && y & 1 == 0 && (y >> 1) & 1 == 0 && (y >> 2) & 1 == 0 && (y >> 3) & 1 == 0
            && (y >> 4) & 1 == 0 && (y >> 5) & 1 == 0 && (y >> 6) & 1 == 0 && (y >> 7) & 1 == 0
            && y >> 8 == b as bv16
  {
  }

  lemma ShiftAgain(y: bv16)
    ensures (y >> 1) >> 1 == y >> 2 && (y >> 2) >> 1 == y >> 3 && (y >> 3) >> 1 == y >> 4 && (y >> 4) >> 1 == y >> 5
    ensures (y >> 5) >> 1 == y >> 6 && (y >> 6) >> 1 == y >> 7 && (y >> 7) >> 1 == y >> 8
  {
  }

  lemma {:induction false} StepsAdd(x: Reg, y: Reg, k: nat)
    requires forall i :: 0 <= i < k ==> Even(Halves(y, i))
    ensures BitSteps(Add(x, y), k) == Add(BitSteps(x, k), Halves(y, k))
  {
    hide BitStep, Add, Half, Even;
    if k > 0 {
      StepsAdd(x, y, k - 1);
      BitStepAdd(BitSteps(x, k - 1), Halves(y, k - 1));
    }
  }

  /** A high byte passes through eight steps unchanged and becomes the low byte. */
  lemma HighByteFalls(x: Reg, b: Octet)
    ensures BitSteps(Add(x, Hi(b)), 8) == Add(BitSteps(x, 8), Lo(b))
  {
    hide BitSteps, Add, Hi, Lo, Halves, Even;
    HighByteShifts(b);
    StepsAdd(x, Hi(b), 8);
  }

  function Pair(a: Octet, b: Octet): Reg
  {
    Add(Lo(a), Hi(b))
  }

  lemma PairInjective(a: Octet, b: Octet, a': Octet, b': Octet)
    requires Pair(a, b) == Pair(a', b')
    ensures a == a' && b == b'
  {
  }

  lemma AddAssoc(c: Reg, a: Reg, y: Reg)
    ensures Add(Add(c, a), y) == Add(c, Add(a, y))
  {
  }

  /** Two bytes are sixteen steps on the register with both added at once. */
  lemma TwoBytes(c: Reg, a: Octet, b: Octet)
    ensures Crc(c, [a, b]) == BitSteps(BitSteps(Add(c, Pair(a, b)), 8), 8)
  {
    hide BitSteps, Add, Lo, Hi;
    HighByteFalls(Add(c, Lo(a)), b);
    AddAssoc(c, Lo(a), Hi(b));
    assert [a, b][..1] == [a] && [a][..0] == [];
    assert Crc(c, []) == c;
    assert Crc(c, [a]) == ByteStep(c, a);
  }

  /** Different byte pairs lead to different registers. */
  lemma TwoBytesInjective(c: Reg, a: Octet, b: Octet, a': Octet, b': Octet)
    requires Crc(c, [a, b]) == Crc(c, [a', b'])
    ensures a == a' && b == b'
  {
    hide BitSteps, Pair, Add, Crc;
    TwoBytes(c, a, b);
    TwoBytes(c, a', b');
    BitStepsInjective(BitSteps(Add(c, Pair(a, b)), 8), BitSteps(Add(c, Pair(a', b')), 8), 8);
    BitStepsInjective(Add(c, Pair(a, b)), Add(c, Pair(a', b')), 8);
    AddCancels(Pair(a, b), Pair(a', b'), c);
    PairInjective(a, b, a', b');
  }

  /** Strings of equal length that differ only inside two adjacent bytes always have different CRCs. */
  lemma AdjacentBytesDetected(c: Reg, s: seq<Octet>, t: seq<Octet>, k: nat)
    requires |s| == |t| && s != t
    requires forall i :: 0 <= i < |s| && i != k && i != k + 1 ==> s[i] == t[i]
    ensures Crc(c, s) != Crc(c, t)
  {
    hide Crc;
    if k + 2 <= |s| {
      InnerPairDetected(c, s, t, k);
    } else if |s| >= 2 {
      InnerPairDetected(c, s, t, |s| - 2);
    } else {
      SingleByteDetected(c, s[0], t[0]);
      assert s == [s[0]] && t == [t[0]];
    }
  }

  lemma InnerPairDetected(c: Reg, s: seq<Octet>, t: seq<Octet>, k: nat)
    requires |s| == |t| && s != t && k + 2 <= |s|
    requires forall i :: 0 <= i < |s| && i != k && i != k + 1 ==> s[i] == t[i]
    ensures Crc(c, s) != Crc(c, t)
  {
    hide Crc;
    var p, q := s[..k], s[k + 2..];
    assert s == p + [s[k], s[k + 1]] + q && t == p + [t[k], t[k + 1]] + q;
    CrcAppend(c, p + [s[k], s[k + 1]], q);
    CrcAppend(c, p + [t[k], t[k + 1]], q);
    CrcAppend(c, p, [s[k], s[k + 1]]);
    CrcAppend(c, p, [t[k], t[k + 1]]);
    if Crc(c, s) == Crc(c, t) {
      CrcInjective(Crc(Crc(c, p), [s[k], s[k + 1]]), Crc(Crc(c, p), [t[k], t[k + 1]]), q);
      TwoBytesInjective(Crc(c, p), s[k], s[k + 1], t[k], t[k + 1]);
    }
  }

  lemma SingleByteDetected(c: Reg, a: Octet, b: Octet)
    requires a != b
    ensures Crc(c, [a]) != Crc(c, [b])
  {
    hide Crc;
    if Crc(c, [a]) == Crc(c, [b]) {
      CrcAppend(c, [a], [0]);
      CrcAppend(c, [b], [0]);
      assert [a] + [0] == [a, 0] && [b] + [0] == [b, 0];
      TwoBytesInjective(c, a, 0, b, 0);
    }
  }

  // ---------------------------------------------------------------- the residue

  /** ~crc & 0xff and ~crc >> 8 */
  function Low(c: Reg): Octet
  {
    (!c.v & 0xFF) as bv8
  }

  function High(c: Reg): Octet
  {
    (!c.v >> 8) as bv8
  }

  lemma ComplementFills(c: Reg)
    ensures Add(c, Pair(Low(c), High(c))) == ONES
  {
  }

  lemma ResidueOfOnes()
    ensures BitSteps(BitSteps(ONES, 8), 8) == RESIDUE
  {
    hide BitSteps;
    EightSteps(ONES);
    assert BitSteps(ONES, 8) == Reg(0x0F87);
    EightSteps(Reg(0x0F87));
  }

  lemma EightSteps(c: Reg)
    ensures BitSteps(c, 8) == BitStep(BitStep(BitStep(BitStep(BitStep(BitStep(BitStep(BitStep(c))))))))
  {
    hide BitStep;
    assert BitSteps(c, 0) == c;
    assert BitSteps(c, 1) == BitStep(BitSteps(c, 0));
    assert BitSteps(c, 2) == BitStep(BitSteps(c, 1));
    assert BitSteps(c, 3) == BitStep(BitSteps(c, 2));
    assert BitSteps(c, 4) == BitStep(BitSteps(c, 3));
    assert BitSteps(c, 5) == BitStep(BitSteps(c, 4));
    assert BitSteps(c, 6) == BitStep(BitSteps(c, 5));
    assert BitSteps(c, 7) == BitStep(BitSteps(c, 6));
  }

  /** The CRC of a string followed by its complemented CRC, low byte first, is always 0xF0B8. */
  lemma ResidueAlways(c: Reg, s: seq<Octet>)
    ensures var r := Crc(c, s); Crc(c, s + [Low(r), High(r)]) == RESIDUE
  {
    hide BitSteps, Crc, Low, High, Pair, Add;
    var r := Crc(c, s);
    CrcAppend(c, s, [Low(r), High(r)]);
    TwoBytes(r, Low(r), High(r));
    ComplementFills(r);
    ResidueOfOnes();
  }

  /** The check succeeds exactly when the last two bytes are the complemented CRC of the rest. */
  lemma CheckExact(c: Reg, s: seq<Octet>, a: Octet, b: Octet)
    ensures Crc(c, s + [a, b]) == RESIDUE <==> a == Low(Crc(c, s)) && b == High(Crc(c, s))
  {
    hide Crc, Low, High;
    var r := Crc(c, s);
    ResidueAlways(c, s);
    CrcAppend(c, s, [a, b]);
    CrcAppend(c, s, [Low(r), High(r)]);
    if Crc(c, s + [a, b]) == RESIDUE {
      TwoBytesInjective(r, a, b, Low(r), High(r));
    }
  }

  // ---------------------------------------------------------------- the implementation

  /** calculate_crc: the register starts with ones. */
  function CrcOf(s: seq<Octet>): Reg
  {
    Crc(ONES, s)
  }

  /**
   * The start value of ISO 13239: starting with ones is starting with zeros on the string whose first two
   * bytes are complemented.
   */
  lemma StartsWithOnes(a: Octet, b: Octet, s: seq<Octet>)
    ensures CrcOf([a, b] + s) == Crc(Reg(0), [!a, !b] + s)
  {
    hide Crc, BitSteps;
    CrcAppend(ONES, [a, b], s);
    CrcAppend(Reg(0), [!a, !b], s);
    TwoBytes(ONES, a, b);
    TwoBytes(Reg(0), !a, !b);
    ComplementedPair(a, b);
  }

  lemma ComplementedPair(a: Octet, b: Octet)
    ensures Add(ONES, Pair(a, b)) == Add(Reg(0), Pair(!a, !b))
  {
    hide Add, Lo, Hi;
    OnesAreHalves();
    ComplementLow(a);
    ComplementHigh(b);
    AddRegroups(Reg(0xFF), Reg(0xFF00), Lo(a), Hi(b));
    AddZero(Pair(!a, !b));
  }

  lemma OnesAreHalves()
    ensures Add(Reg(0xFF), Reg(0xFF00)) == ONES
  {
  }

  lemma ComplementLow(a: Octet)
    ensures Add(Reg(0xFF), Lo(a)) == Lo(!a)
  {
  }

  lemma ComplementHigh(b: Octet)
    ensures Add(Reg(0xFF00), Hi(b)) == Hi(!b)
  {
  }

  lemma AddRegroups(x: Reg, y: Reg, u: Reg, v: Reg)
    ensures Add(Add(x, y), Add(u, v)) == Add(Add(x, u), Add(y, v))
  {
  }

  lemma AddZero(x: Reg)
    ensures Add(Reg(0), x) == x
  {
  }

  /** The register after the digits 1 to 9, the customary check value of this CRC before its complement. */
  lemma CheckValue(digits: seq<Octet>)
    requires digits == [0x31, 0x32, 0x33, 0x34, 0x35, 0x36, 0x37, 0x38, 0x39]
    ensures CrcOf(digits) == Reg(0x6F91)
  {
    hide ByteStep, CrcOf;
    CrcNext(digits, 0);
    CrcNext(digits, 0);
    Stepped0();
    assert CrcOf(digits[..1]) == Reg(0x2F8D);
    CrcNext(digits, 1);
    Stepped1();
    assert CrcOf(digits[..2]) == Reg(0x4D53);
    CrcNext(digits, 2);
    Stepped2();
    assert CrcOf(digits[..3]) == Reg(0x634B);
    CrcNext(digits, 3);
    Stepped3();
    assert CrcOf(digits[..4]) == Reg(0x8B13);
    CrcNext(digits, 4);
    Stepped4();
    assert CrcOf(digits[..5]) == Reg(0x44BF);
    CrcNext(digits, 5);
    Stepped5();
    assert CrcOf(digits[..6]) == Reg(0x198D);
    CrcNext(digits, 6);
    Stepped6();
    assert CrcOf(digits[..7]) == Reg(0x1AC8);
    CrcNext(digits, 7);
    Stepped7();
    assert CrcOf(digits[..8]) == Reg(0xF795);
    CrcNext(digits, 8);
    Stepped8();
    assert CrcOf(digits[..9]) == Reg(0x6F91);
    assert digits[..9] == digits;
  }

  lemma CrcNext(s: seq<Octet>, i: nat)
    requires i < |s|
    ensures CrcOf(s[..0]) == ONES && CrcOf(s[..i + 1]) == ByteStep(CrcOf(s[..i]), s[i])
  {
    assert s[..i + 1][..i] == s[..i];
  }

  lemma Stepped0()
    ensures ByteStep(Reg(0xFFFF), 0x31) == Reg(0x2F8D)
  {
  }

  lemma Stepped1()
    ensures ByteStep(Reg(0x2F8D), 0x32) == Reg(0x4D53)
  {
  }

  lemma Stepped2()
    ensures ByteStep(Reg(0x4D53), 0x33) == Reg(0x634B)
  {
  }

  lemma Stepped3()
    ensures ByteStep(Reg(0x634B), 0x34) == Reg(0x8B13)
  {
  }

  lemma Stepped4()
    ensures ByteStep(Reg(0x8B13), 0x35) == Reg(0x44BF)
  {
  }

  lemma Stepped5()
    ensures ByteStep(Reg(0x44BF), 0x36) == Reg(0x198D)
  {
  }

  lemma Stepped6()
    ensures ByteStep(Reg(0x198D), 0x37) == Reg(0x1AC8)
  {
  }

  lemma Stepped7()
    ensures ByteStep(Reg(0x1AC8), 0x38) == Reg(0xF795)
  {
  }

  lemma Stepped8()
    ensures ByteStep(Reg(0xF795), 0x39) == Reg(0x6F91)
  {
  }

  method CalculateCrc(data: array<Octet>, at: nat, n: nat) returns (crc: Reg)
    requires at + n <= data.Length
    ensures crc == CrcOf(data[at..at + n])
  {
    hide BitStep, Add, Lo;
    crc := ONES;
    for idx := 0 to n
      invariant crc == Crc(ONES, data[at..at + n][..idx])
    {
      ghost var s := data[at..at + n];
      assert s[..idx + 1][..idx] == s[..idx] && s[idx] == data[at + idx];
      ghost var before := Add(crc, Lo(data[at + idx]));
      crc := Add(crc, Lo(data[at + idx]));
      for i := 0 to 8
        invariant crc == BitSteps(before, i)
      {
        crc := BitStep(crc);
      }
    }
    assert data[at..at + n][..n] == data[at..at + n];
  }

  /** check_crc */
  method CheckCrc(data: array<Octet>, n: nat) returns (ok: bool)
    requires n <= data.Length
    ensures ok == (CrcOf(data[..n]) == RESIDUE)
    ensures n >= 2 ==> (ok <==> data[n - 2] == Low(CrcOf(data[..n - 2])) && data[n - 1] == High(CrcOf(data[..n - 2])))
  {
    hide Crc, Low, High;
    var crc := CalculateCrc(data, 0, n);
    assert data[0..n] == data[..n];
    if n >= 2 {
      CheckExact(ONES, data[..n - 2], data[n - 2], data[n - 1]);
      assert data[..n] == data[..n - 2] + [data[n - 2], data[n - 1]];
    }
    ok := crc == RESIDUE;
  }

  /** The complemented CRC of n bytes, low byte first, is written after them. */
  method AppendCrc(data: array<Octet>, at: nat, n: nat)
    requires at + n + 2 <= data.Length
    modifies data
    ensures data[at..at + n] == old(data[at..at + n])
    ensures data[at + n] == Low(CrcOf(data[at..at + n])) && data[at + n + 1] == High(CrcOf(data[at..at + n]))
    ensures CrcOf(data[at..at + n + 2]) == RESIDUE
    ensures forall j :: 0 <= j < data.Length && j != at + n && j != at + n + 1 ==> data[j] == old(data[j])
  {
    hide Crc, Low, High;
    var crc := CalculateCrc(data, at, n);
    data[at + n] := Low(crc);
    data[at + n + 1] := High(crc);
    ResidueAlways(ONES, data[at..at + n]);
    assert data[at..at + n + 2] == data[at..at + n] + [data[at + n], data[at + n + 1]];
  }

  type Count = n: nat | n < 256

  /** 7-byte reports a frame takes. */
  function Reports(size: nat): (k: nat)
    ensures 7 * (k - 1) < size <= 7 * k
  {
    if size % 7 == 0 then size / 7 else size / 7 + 1
  }

  /**
   * otp_send_frame: the length with its CRC, and the number of reports it takes, counted in one byte.
   * The count is that number exactly up to 1785 bytes.
   */
  method SendFrame(frame: array<Octet>, frameLen: nat) returns (size: nat, expSeq: Count)
    requires frameLen + 2 <= frame.Length
    modifies frame
    ensures size == frameLen + 2 && frame[..frameLen] == old(frame[..frameLen])
    ensures forall j :: size <= j < frame.Length ==> frame[j] == old(frame[j])
    ensures CrcOf(frame[..size]) == RESIDUE
    ensures expSeq == Reports(size) % 256
    ensures expSeq == Reports(size) <==> size <= 1785
  {
    hide Crc;
    AppendCrc(frame, 0, frameLen);
    size := frameLen + 2;
    assert frame[0..size] == frame[..size];
    assert frame[0..frameLen] == frame[..frameLen];
    expSeq := CountReports(size);
  }

  /** otp_exp_seq, a uint8_t */
  method CountReports(size: nat) returns (expSeq: Count)
    ensures expSeq == Reports(size) % 256
    ensures expSeq == Reports(size) <==> size <= 1785
  {
    expSeq := size / 7 % 256;
    if size % 7 != 0 {
      expSeq := (expSeq + 1) % 256;
    }
  }
}
