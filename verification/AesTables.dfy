/**
 * The tables of aes.c as aes_gen_tables builds them: powers and logarithms to the base 3 in GF(2^8),
 * the S-boxes and the round tables, and the proof that the reverse S-box inverts the S-box.
 */
module AesTables {
  import opened Gf256
  import opened AesBlock
  import opened Division
  import opened SubstitutionTables

  // ---------------------------------------------------------------- powers of three

  /** x ^= XTIME(x) */
  function Times3(x: Byte): Byte
  {
    Add(x, XTime(x))
  }

  function Gen(i: nat): Byte
  {
    if i == 0 then Byte(1) else Times3(Gen(i - 1))
  }

  lemma Times3Injective(x: Byte, y: Byte)
    requires Times3(x) == Times3(y)
    ensures x == y
  {
  }

  lemma First()
    ensures Gen(0) == Byte(1) && Gen(1) == Byte(3)
  {
  }

  lemma Next(i: nat)
    ensures Gen(i + 1) == Times3(Gen(i))
  {
  }

  // ---------------------------------------------------------------- squaring

  /** Squaring is additive, so it is given by the squares of the eight powers of x. */
  function SquareValue(x: bv8): bv8
  {
    (if x & 0x01 != 0 then 0x01 else 0) ^ (if x & 0x02 != 0 then 0x04 else 0)
    ^ (if x & 0x04 != 0 then 0x10 else 0) ^ (if x & 0x08 != 0 then 0x40 else 0)
    ^ (if x & 0x10 != 0 then 0x1B else 0) ^ (if x & 0x20 != 0 then 0x6C else 0)
    ^ (if x & 0x40 != 0 then 0xAB else 0) ^ (if x & 0x80 != 0 then 0x9A else 0)
  }

  function Square(x: Byte): Byte
  {
    Byte(SquareValue(x.v))
  }

  function Times3Value(x: bv8): bv8
  {
    x ^ (x << 1) ^ (if x & 0x80 != 0 then 0x1B else 0)
  }

  lemma Times3IsValue(x: Byte)
    ensures Times3(x) == Byte(Times3Value(x.v))
  {
  }

  lemma SquareOfTriple(x: bv8)
    ensures SquareValue(Times3Value(x)) == Times3Value(Times3Value(SquareValue(x)))
  {
  }

  lemma SquareTimes3(x: Byte)
    ensures Square(Times3(x)) == Times3(Times3(Square(x)))
  {
    hide Times3, SquareValue, Times3Value;
    SquareOfTriple(x.v);
    Times3IsValue(x);
    Times3IsValue(Square(x));
    Times3IsValue(Times3(Square(x)));
  }

  /** Squaring doubles the exponent. */
  lemma {:induction false} Double(i: nat)
    ensures Gen(2 * i) == Square(Gen(i))
  {
    hide Times3;
    if i == 0 {
      assert Square(Byte(1)) == Byte(1);
    } else {
      Double(i - 1);
      SquareTimes3(Gen(i - 1));
      Next(2 * i - 2);
      Next(2 * i - 1);
    }
  }

  lemma SquareOf(x: bv8, y: bv8)
    requires SquareValue(x) == y
    ensures Square(Byte(x)) == Byte(y)
  {
  }

  lemma Times3Of(x: bv8, y: bv8)
    requires Times3Value(x) == y
    ensures Times3(Byte(x)) == Byte(y)
  {
  }

  lemma SmallPowers()
    ensures Gen(6) == Byte(0x55) && Gen(7) == Byte(0xFF) && Gen(12) == Byte(0xA1) && Gen(13) == Byte(0xF8)
    ensures Gen(14) == Byte(0x13)
  {
    hide Gen, Times3, Square;
    First();
    Double(1);
    SquareOf(0x03, 0x05);
    Next(2);
    Times3Of(0x05, 0x0F);
    Double(3);
    SquareOf(0x0F, 0x55);
    Next(6);
    Times3Of(0x55, 0xFF);
    Double(6);
    SquareOf(0x55, 0xA1);
    Next(12);
    Times3Of(0xA1, 0xF8);
    Double(7);
    SquareOf(0xFF, 0x13);
  }

  lemma FifteenthPower()
    ensures Gen(15) == Byte(0x35)
  {
    hide Gen, Times3, Square;
    SmallPowers();
    Next(14);
    Times3Of(0x13, 0x35);
  }

  lemma Powers51And85()
    ensures Gen(51) == Byte(0x0C) && Gen(85) == Byte(0xBD)
  {
    hide Gen, Times3, Square;
    First();
    SmallPowers();
    Double(12);
    SquareOf(0xA1, 0xF7);
    Next(24);
    Times3Of(0xF7, 0x02);
    Double(25);
    SquareOf(0x02, 0x04);
    Next(50);
    Times3Of(0x04, 0x0C);
    Double(1);
    SquareOf(0x03, 0x05);
    Double(2);
    SquareOf(0x05, 0x11);
    Next(4);
    Times3Of(0x11, 0x33);
    Double(5);
    SquareOf(0x33, 0x72);
    Double(10);
    SquareOf(0x72, 0xD8);
    Next(20);
    Times3Of(0xD8, 0x73);
    Double(21);
    SquareOf(0x73, 0xD9);
    Double(42);
    SquareOf(0xD9, 0x6B);
    Next(84);
    Times3Of(0x6B, 0xBD);
  }

  lemma Power255()
    ensures Gen(255) == Byte(0x01)
  {
    hide Gen, Times3, Square;
    FifteenthPower();
    Double(15);
    SquareOf(0x35, 0x66);
    Next(30);
    Times3Of(0x66, 0xAA);
    Double(31);
    SquareOf(0xAA, 0xB2);
    Next(62);
    Times3Of(0xB2, 0xCD);
    Double(63);
    SquareOf(0xCD, 0x60);
    Next(126);
    Times3Of(0x60, 0xA0);
    Double(127);
    SquareOf(0xA0, 0xF6);
    Next(254);
    Times3Of(0xF6, 0x01);
  }

  lemma LogOf14()
    ensures Gen(223) == Byte(0x0E)
  {
    hide Gen, Times3, Square;
    SmallPowers();
    Double(13);
    SquareOf(0xF8, 0x06);
    Next(26);
    Times3Of(0x06, 0x0A);
    Double(27);
    SquareOf(0x0A, 0x44);
    Next(54);
    Times3Of(0x44, 0xCC);
    Double(55);
    SquareOf(0xCC, 0x61);
    Next(110);
    Times3Of(0x61, 0xA3);
    Double(111);
    SquareOf(0xA3, 0xF3);
    Next(222);
    Times3Of(0xF3, 0x0E);
  }

  lemma LogOf13()
    ensures Gen(238) == Byte(0x0D)
  {
    hide Gen, Times3, Square;
    SmallPowers();
    Double(14);
    SquareOf(0x13, 0x1E);
    Next(28);
    Times3Of(0x1E, 0x22);
    Double(29);
    SquareOf(0x22, 0x68);
    Next(58);
    Times3Of(0x68, 0xB8);
    Double(59);
    SquareOf(0xB8, 0xAD);
    Next(118);
    Times3Of(0xAD, 0xEC);
    Double(119);
    SquareOf(0xEC, 0x0D);
  }

  lemma LogOf11()
    ensures Gen(104) == Byte(0x0B)
  {
    hide Gen, Times3, Square;
    SmallPowers();
    Double(13);
    SquareOf(0xF8, 0x06);
    Double(26);
    SquareOf(0x06, 0x14);
    Double(52);
    SquareOf(0x14, 0x0B);
  }

  lemma LogOf9()
    ensures Gen(199) == Byte(0x09)
  {
    hide Gen, Times3, Square;
    SmallPowers();
    Double(12);
    SquareOf(0xA1, 0xF7);
    Double(24);
    SquareOf(0xF7, 0x53);
    Next(48);
    Times3Of(0x53, 0xF5);
    Double(49);
    SquareOf(0xF5, 0x57);
    Next(98);
    Times3Of(0x57, 0xF9);
    Double(99);
    SquareOf(0xF9, 0x07);
    Next(198);
    Times3Of(0x07, 0x09);
  }

  // ---------------------------------------------------------------- the order of three

  /** Steps can be undone. */
  lemma {:induction false} GenCancel(i: nat, k: nat)
    requires Gen(i + k) == Gen(k)
    ensures Gen(i) == Gen(0)
  {
    hide Times3;
    if k > 0 {
      Next(i + k - 1);
      Next(k - 1);
      Times3Injective(Gen(i + k - 1), Gen(k - 1));
      GenCancel(i, k - 1);
    }
  }

  lemma {:induction false} GenShift(d: nat, k: nat)
    requires Gen(d) == Gen(0)
    ensures Gen(k + d) == Gen(k)
  {
    hide Times3;
    if k > 0 {
      GenShift(d, k - 1);
      Next(k - 1 + d);
      Next(k - 1);
    }
  }

  /** With a period d the exponent counts modulo d. */
  lemma {:induction false} GenModulo(d: nat, n: nat)
    requires d > 0 && Gen(d) == Gen(0)
    ensures Gen(n) == Gen(n % d)
  {
    hide Gen;
    if n >= d {
      GenShift(d, n - d);
      GenModulo(d, n - d);
      assert n % d == (n - d) % d by {
        AddMultiple(n - d, d, 1);
      }
    }
  }

  /** The proper divisors of 255 divide 15, 51 or 85. */
  lemma ProperDivisors(d: nat)
    requires 0 < d < 255 && 255 % d == 0
    ensures 15 % d == 0 || 51 % d == 0 || 85 % d == 0
  {
    var q := 255 / d;
    DivMod(255, d);
    assert q * d == 255;
    if d > 15 {
      assert q <= 15 by {
        if q >= 16 {
          MulIncreases(16, q, d);
        }
      }
      assert q == 1 || q == 2 || q == 3 || q == 4 || q == 5 || q == 6 || q == 7 || q == 8 || q == 9 || q == 10
             || q == 11 || q == 12 || q == 13 || q == 14 || q == 15;
    } else {
      assert d == 1 || d == 2 || d == 3 || d == 4 || d == 5 || d == 6 || d == 7 || d == 8 || d == 9 || d == 10
             || d == 11 || d == 12 || d == 13 || d == 14 || d == 15;
    }
  }

  /** No power of three between the 0th and the 255th is one: a period would have to divide 255. */
  lemma {:induction false} Order(d: nat)
    requires 0 < d < 255
    ensures Gen(d) != Gen(0)
  {
    hide Gen;
    if Gen(d) == Gen(0) {
      First();
      Power255();
      GenModulo(d, 255);
      if 255 % d == 0 {
        ProperDivisors(d);
        FifteenthPower();
        Powers51And85();
        GenModulo(d, 15);
        GenModulo(d, 51);
        GenModulo(d, 85);
      } else {
        Order(255 % d);
      }
    }
  }

  /** The powers with exponents below 255 are different. */
  lemma GenDistinct(i: nat, j: nat)
    requires i < j < 255
    ensures Gen(i) != Gen(j)
  {
    hide Gen;
    if Gen(i) == Gen(j) {
      GenCancel(j - i, i);
      Order(j - i);
    }
  }

  lemma Times3NotZero(x: Byte)
    requires x != ZERO
    ensures Times3(x) != ZERO
  {
  }

  lemma {:induction false} GenNotZero(i: nat)
    ensures Gen(i) != ZERO
  {
    hide Times3;
    if i > 0 {
      GenNotZero(i - 1);
      Times3NotZero(Gen(i - 1));
    }
  }

  /** So are those with exponents from 1 to 255. */
  lemma PeriodicDistinct(i: nat, j: nat)
    requires 0 < i < j <= 255
    ensures Gen(i) != Gen(j)
  {
    hide Times3;
    GenDistinct(i - 1, j - 1);
    if Gen(i) == Gen(j) {
      Times3Injective(Gen(i - 1), Gen(j - 1));
    }
  }

  // ---------------------------------------------------------------- every byte is a power

  function GenValue(i: nat): (v: int)
    ensures 0 <= v < 256
  {
    Gen(i).v as int
  }

  lemma GenValueRange(i: nat)
    ensures 0 < GenValue(i) <= 255
  {
    hide Gen;
    GenNotZero(i);
    NotZeroValue(Gen(i).v);
  }

  lemma NotZeroValue(b: bv8)
    requires b != 0
    ensures 0 < b as int <= 255
  {
    if b as int == 0 {
      SameValue(b, 0);
    }
  }

  lemma GenValueDistinct(i: nat, j: nat)
    requires 0 < i < j <= 255
    ensures GenValue(i) != GenValue(j)
  {
    hide Gen;
    PeriodicDistinct(i, j);
    if GenValue(i) == GenValue(j) {
      SameValue(Gen(i).v, Gen(j).v);
    }
  }

  /** The values of the first n powers, from the first on. */
  function Values(n: nat): (s: set<int>)
  {
    if n == 0 then {} else Values(n - 1) + {GenValue(n)}
  }

  lemma {:induction false} ValuesAre(n: nat, v: int)
    requires v in Values(n)
    ensures exists i :: 0 < i <= n && GenValue(i) == v
  {
    hide GenValue;
    if v in Values(n - 1) {
      ValuesAre(n - 1, v);
    } else {
      assert GenValue(n) == v;
    }
  }

  lemma NewValue(n: nat)
    requires 0 < n <= 255
    ensures GenValue(n) !in Values(n - 1)
  {
    hide GenValue, Values;
    if GenValue(n) in Values(n - 1) {
      ValuesAre(n - 1, GenValue(n));
      var i :| 0 < i <= n - 1 && GenValue(i) == GenValue(n);
      GenValueDistinct(i, n);
    }
  }

  lemma {:induction false} ValuesSize(n: nat, m: nat)
    requires n <= 255 <= m
    ensures |Values(n)| == n && Values(n) <= Numbers(m)
  {
    hide GenValue, Numbers;
    if n > 0 {
      ValuesSize(n - 1, m);
      GenValueRange(n);
      NewValue(n);
    }
  }

  function Numbers(n: nat): (s: set<int>)
    ensures |s| == n && forall x :: x in s <==> 0 < x <= n
  {
    if n == 0 then {} else Numbers(n - 1) + {n}
  }

  lemma SubsetOfSameSize(a: set<int>, b: set<int>)
    requires a <= b && |a| == |b|
    ensures a == b
  {
    assert b == a + (b - a);
    assert |b - a| == 0;
  }

  /** Every byte but zero is a power of three with an exponent from 1 to 255. */
  lemma EveryByteIsAPower(x: Byte) returns (i: nat)
    requires x != ZERO
    ensures 0 < i <= 255 && Gen(i) == x
  {
    hide Gen, Values, Numbers;
    var n: nat := 255;
    ValuesSize(n, n);
    SubsetOfSameSize(Values(n), Numbers(n));
    NotZeroValue(x.v);
    ValuesAre(n, x.v as int);
    i :| 0 < i <= 255 && GenValue(i) == x.v as int;
    SameValue(Gen(i).v, x.v);
  }

  // ---------------------------------------------------------------- multiplication by constants

  lemma XTimeTimes3(x: Byte)
    ensures XTime(Times3(x)) == Times3(XTime(x))
  {
    hide XTime, Add;
    XTimeLinear(x, XTime(x));
  }

  lemma Times3Linear(x: Byte, y: Byte)
    ensures Times3(Add(x, y)) == Add(Times3(x), Times3(y))
  {
    hide XTime, Add;
    XTimeLinear(x, y);
    Regroup(x, y, XTime(x), XTime(y));
  }

  /** The multiplications of the reverse tables do not mind whether three is multiplied in before or after. */
  lemma MulTimes3(x: Byte)
    ensures Mul9(Times3(x)) == Times3(Mul9(x)) && Mul11(Times3(x)) == Times3(Mul11(x))
    ensures Mul13(Times3(x)) == Times3(Mul13(x)) && Mul14(Times3(x)) == Times3(Mul14(x))
  {
    hide XTime, Times3, Add;
    XTimeTimes3(x);
    XTimeTimes3(XTime(x));
    XTimeTimes3(X2(x));
    Times3Linear(X3(x), x);
    Times3Linear(XTime(x), x);
    Times3Linear(X3(x), Add(XTime(x), x));
    Times3Linear(X2(x), x);
    Times3Linear(X3(x), Add(X2(x), x));
    Times3Linear(X2(x), XTime(x));
    Times3Linear(X3(x), Add(X2(x), XTime(x)));
  }

  /** Multiplying a power of three by 9, 11, 13 or 14 adds the logarithm of that number. */
  lemma {:induction false} MulGen(i: nat)
    ensures Mul9(Gen(i)) == Gen(i + 199) && Mul11(Gen(i)) == Gen(i + 104)
    ensures Mul13(Gen(i)) == Gen(i + 238) && Mul14(Gen(i)) == Gen(i + 223)
  {
    hide Times3, Mul9, Mul11, Mul13, Mul14, Gen;
    if i == 0 {
      First();
      MulOne();
      LogOf9();
      LogOf11();
      LogOf13();
      LogOf14();
    } else {
      MulGen(i - 1);
      MulTimes3(Gen(i - 1));
      Next(i - 1);
      Next(i - 1 + 199);
      Next(i - 1 + 104);
      Next(i - 1 + 238);
      Next(i - 1 + 223);
    }
  }

  lemma MulOne()
    ensures Mul9(Byte(1)) == Byte(9) && Mul11(Byte(1)) == Byte(11)
    ensures Mul13(Byte(1)) == Byte(13) && Mul14(Byte(1)) == Byte(14)
  {
  }

  // ---------------------------------------------------------------- logarithms and S-boxes

  /** A table of powers and a table of logarithms, the latter in the range 1 to 255. */
  ghost predicate IsPowers(pow: seq<Byte>)
  {
    |pow| == 256 && forall i :: 0 <= i < 256 ==> pow[i] == Gen(i)
  }

  ghost predicate IsLogs(log: seq<nat>)
  {
    |log| == 256 && forall x :: 0 < x < 256 ==> 0 < log[x] <= 255 && GenValue(log[x]) == x
  }

  /** After i turns the logarithm of every power written is the last exponent it was written for. */
  ghost predicate LogsTo(log: seq<nat>, i: nat)
  {
    && |log| == 256
    && forall k :: 0 <= k < i ==> k <= log[GenValue(k)] < i && GenValue(log[GenValue(k)]) == GenValue(k)
  }

  lemma LogsNext(log: seq<nat>, i: nat)
    requires LogsTo(log, i)
    ensures LogsTo(log[GenValue(i) := i], i + 1)
  {
    hide GenValue;
  }

  /** After 256 turns every byte but zero has its logarithm. */
  lemma LogsComplete(log: seq<nat>)
    requires LogsTo(log, 256)
    ensures IsLogs(log)
  {
    hide GenValue;
    forall v | 0 < v < 256
      ensures 0 < log[v] <= 255 && GenValue(log[v]) == v
    {
      var k := ExponentOf(v);
    }
  }

  lemma ExponentOf(v: nat) returns (k: nat)
    requires 0 < v < 256
    ensures 0 < k <= 255 && GenValue(k) == v
  {
    hide Gen, Element;
    ElementValue(v);
    k := EveryByteIsAPower(Element(v));
  }

  /** The first loop of aes_gen_tables; 256 powers are written, so the logarithm of one ends as 255. */
  method GenPowers() returns (pow: array<Byte>, log: array<nat>)
    ensures fresh(pow) && fresh(log) && IsPowers(pow[..]) && IsLogs(log[..])
  {
    hide Times3, XTime, Add, Gen, GenValue, LogsTo, IsLogs;
    First();
    pow, log := new Byte[256](_ => ZERO), new nat[256](_ => 0);
    var x := Byte(1);
    NoLogs(log[..]);
    for i := 0 to 256
      invariant fresh(pow) && fresh(log) && pow.Length == 256 && log.Length == 256 && x == Gen(i)
      invariant forall k :: 0 <= k < i ==> pow[k] == Gen(k)
      invariant LogsTo(log[..], i)
    {
      pow[i] := x;
      LogsNext(log[..], i);
      GenValueIs(i);
      SetLog(log, x, i, GenValue(i));
      Times3Is(x);
      Next(i);
      x := Add(x, XTime(x));
    }
    LogsComplete(log[..]);
  }

  /** log[x] = (uint8_t) i */
  method SetLog(log: array<nat>, x: Byte, i: nat, ghost at: int)
    requires log.Length == 256 && 0 <= at < 256 && at == x.v as int
    modifies log
    ensures log[..] == old(log[..])[at := i]
  {
    log[x.v as int] := i;
  }

  lemma NoLogs(log: seq<nat>)
    requires |log| == 256
    ensures LogsTo(log, 0)
  {
  }

  lemma GenValueIs(i: nat)
    ensures GenValue(i) == Gen(i).v as int
  {
  }

  lemma Times3Is(x: Byte)
    ensures Times3(x) == Add(x, XTime(x))
  {
  }

  /** The affine transformation of the S-box: y is rotated four times and added each time. */
  function Affine(x: Byte): Byte
  {
    Byte(AffineValue(x.v))
  }

  function Rotl(y: bv8): bv8
  {
    (y << 1) | (y >> 7)
  }

  function AffineValue(x: bv8): bv8
  {
    x ^ Rotl(x) ^ Rotl(Rotl(x)) ^ Rotl(Rotl(Rotl(x))) ^ Rotl(Rotl(Rotl(Rotl(x)))) ^ 0x63
  }

  lemma AffineValueInjective(x: bv8, y: bv8)
    requires AffineValue(x) == AffineValue(y)
    ensures x == y
  {
  }

  /** The S-box: the inverse of i through the tables, then the affine transformation. */
  function SubByte(log: seq<nat>, i: nat): Byte
    requires |log| == 256 && i < 256 && (i > 0 ==> log[i] <= 255)
  {
    if i == 0 then Byte(0x63) else Affine(Gen(255 - log[i]))
  }

  lemma SubByteZero()
    ensures Affine(ZERO) == Byte(0x63)
  {
  }

  /** The S-box takes no value twice. */
  lemma SubByteDistinct(log: seq<nat>, i: nat, j: nat)
    requires IsLogs(log) && i < j < 256
    ensures SubByte(log, i) != SubByte(log, j)
  {
    hide Gen, AffineValue, GenValue;
    SubByteZero();
    var y := Gen(255 - log[j]);
    GenNotZero(255 - log[j]);
    if i == 0 {
      if AffineValue(0) == AffineValue(y.v) {
        AffineValueInjective(0, y.v);
      }
    } else {
      var x := Gen(255 - log[i]);
      if AffineValue(x.v) == AffineValue(y.v) {
        AffineValueInjective(x.v, y.v);
        DistinctBothWays(255 - log[i], 255 - log[j]);
      }
    }
  }

  lemma DistinctBothWays(i: nat, j: nat)
    requires i < 255 && j < 255 && Gen(i) == Gen(j)
    ensures i == j
  {
    hide Gen;
    if i != j {
      GenDistinct(if i < j then i else j, if i < j then j else i);
    }
  }

  function SubValue(log: seq<nat>, i: nat): (v: int)
    requires |log| == 256 && i < 256 && (i > 0 ==> log[i] <= 255)
    ensures 0 <= v < 256
  {
    SubByte(log, i).v as int
  }

  lemma SubValueDistinct(log: seq<nat>, i: nat, j: nat)
    requires IsLogs(log) && i < 256 && j < 256 && i != j
    ensures SubValue(log, i) != SubValue(log, j)
  {
    hide IsLogs, SubByte;
    LogsInRange(log);
    SubByteDistinct(log, if i < j then i else j, if i < j then j else i);
    if SubValue(log, i) == SubValue(log, j) {
      SameValue(SubByte(log, i).v, SubByte(log, j).v);
    }
  }

  lemma LogsInRange(log: seq<nat>)
    requires IsLogs(log)
    ensures |log| == 256 && forall x :: 0 < x < 256 ==> 0 < log[x] <= 255
  {
  }

  /** The reverse S-box takes the first n S-box values back. */
  ghost predicate RevertsTo(log: seq<nat>, rsb: seq<Byte>, n: nat)
  {
    && IsLogs(log) && |rsb| == 256 && n <= 256
    && forall k :: 0 <= k < n ==> rsb[SubValue(log, k)] == Element(k)
  }

  lemma RevertsNext(log: seq<nat>, rsb: seq<Byte>, n: nat)
    requires RevertsTo(log, rsb, n) && n < 256
    ensures RevertsTo(log, rsb[SubValue(log, n) := Element(n)], n + 1)
  {
    hide SubValue, Element, IsLogs;
    LogsInRange(log);
    forall k | 0 <= k < n
      ensures SubValue(log, k) != SubValue(log, n)
    {
      SubValueDistinct(log, k, n);
    }
  }

  lemma RevertsFirst(log: seq<nat>, rsb: seq<Byte>)
    requires IsLogs(log) && |rsb| == 256
    ensures RevertsTo(log, rsb, 0)
  {
  }

  /** The loop that generates the forward and reverse S-boxes. */
  method GenSBoxes(pow: array<Byte>, log: array<nat>) returns (fsb: array<Byte>, rsb: array<Byte>)
    requires IsPowers(pow[..]) && IsLogs(log[..])
    ensures fresh(fsb) && fresh(rsb) && fsb.Length == 256 && RevertsTo(log[..], rsb[..], 256)
    ensures forall k :: 0 <= k < 256 ==> fsb[k] == SubByte(log[..], k)
  {
    hide SubByte, SubValue, RevertsTo, Affine, Element, Gen, IsLogs;
    ghost var logs := log[..];
    LogsInRange(logs);
    fsb, rsb := new Byte[256](_ => ZERO), new Byte[256](_ => ZERO);
    RevertsFirst(logs, rsb[..]);
    SubByteIs(logs, 0);
    fsb[0] := Byte(0x63);
    RevertsNext(logs, rsb[..], 0);
    SetEntry(rsb, Byte(0x63), 0, SubValue(logs, 0));
    for i := 1 to 256
      invariant fresh(fsb) && fresh(rsb) && fsb.Length == 256 && log[..] == logs && rsb.Length == 256
      invariant IsPowers(pow[..])
      invariant forall k :: 0 <= k < i ==> fsb[k] == SubByte(logs, k)
      invariant RevertsTo(logs, rsb[..], i)
    {
      assert pow[..][255 - log[i]] == Gen(255 - logs[i]);
      var x := Affine(pow[255 - log[i]]);
      SubByteIs(logs, i);
      fsb[i] := x;
      RevertsNext(logs, rsb[..], i);
      SetEntry(rsb, x, i, SubValue(logs, i));
    }
  }

  /** RSb[x] = (unsigned char) i */
  method SetEntry(rsb: array<Byte>, x: Byte, i: nat, ghost at: int)
    requires rsb.Length == 256 && 0 <= at < 256 && at == x.v as int
    modifies rsb
    ensures rsb[..] == old(rsb[..])[at := Element(i)]
  {
    rsb[x.v as int] := Element(i);
  }

  lemma SubByteIs(log: seq<nat>, i: nat)
    requires |log| == 256 && i < 256 && (i > 0 ==> log[i] <= 255)
    ensures SubByte(log, i) == if i == 0 then Byte(0x63) else Affine(Gen(255 - log[i]))
    ensures SubValue(log, i) == SubByte(log, i).v as int
  {
  }

  // ---------------------------------------------------------------- the S-box of FIPS 197

  /** Equation 5.1 of FIPS 197, section 5.1.1: bit i of the result. */
  lemma AffineBits(x: bv8, i: nat)
    requires i < 8
    ensures AffineValue(x).RotateRight(i) & 1
         == (x.RotateRight(i) & 1) ^ (x.RotateRight((i + 4) % 8) & 1) ^ (x.RotateRight((i + 5) % 8) & 1)
            ^ (x.RotateRight((i + 6) % 8) & 1) ^ (x.RotateRight((i + 7) % 8) & 1) ^ ((0x63 as bv8).RotateRight(i) & 1)
  {
    assert i == 0 || i == 1 || i == 2 || i == 3 || i == 4 || i == 5 || i == 6 || i == 7;
  }

  /** The sum of x and all its shifts: division by 1 + x, without reduction. */
  function ShiftSum(x: bv8): bv8
  {
    var y := x ^ (x << 1);
    var z := y ^ (y << 2);
    z ^ (z << 4)
  }

  /** Division by three. */
  function ThirdValue(x: bv8): bv8
  {
    ShiftSum(x) ^ (if ShiftSum(x) & 0x80 != 0 then 0x09 else 0)
  }

  lemma ThirdInverse(x: bv8)
    ensures ThirdValue(Times3Value(x)) == x
  {
  }

  /**
   * For n successive powers of three from x on, and the inverses of these from u on, the table holds the
   * transformed inverse; the next power is end and the next inverse last.
   */
  predicate Tabled(x: bv8, u: bv8, n: nat, end: bv8, last: bv8)
    decreases n
  {
    if n == 0 then x == end && u == last
    else Sb1(x) == AffineValue(u) && Tabled(Times3Value(x), ThirdValue(u), n - 1, end, last)
  }

  lemma Run1()
    ensures Tabled(0x03, 0xF6, 7, 0x1A, 0xFD)
  {
  }

  lemma Run8()
    ensures Tabled(0x1A, 0xFD, 8, 0x5F, 0x17)
  {
  }

  lemma Run16()
    ensures Tabled(0x5F, 0x17, 8, 0xF7, 0x8C)
  {
  }

  lemma Run24()
    ensures Tabled(0xF7, 0x8C, 8, 0xE5, 0x0E)
  {
  }

  lemma Run32()
    ensures Tabled(0xE5, 0x0E, 8, 0x6A, 0x91)
  {
  }

  lemma Run40()
    ensures Tabled(0x6A, 0x91, 8, 0x53, 0xCA)
  {
  }

  lemma Run48()
    ensures Tabled(0x53, 0xCA, 8, 0x4F, 0x09)
  {
  }

  lemma Run56()
    ensures Tabled(0x4F, 0x09, 8, 0x4C, 0x54)
  {
  }

  lemma Run64()
    ensures Tabled(0x4C, 0x54, 8, 0x62, 0xAF)
  {
  }

  lemma Run72()
    ensures Tabled(0x62, 0xAF, 8, 0x83, 0x80)
  {
  }

  lemma Run80()
    ensures Tabled(0x83, 0x80, 8, 0x81, 0x7E)
  {
  }

  lemma Run88()
    ensures Tabled(0x81, 0x7E, 8, 0xB5, 0x75)
  {
  }

  lemma Run96()
    ensures Tabled(0xB5, 0x75, 8, 0x0B, 0xC0)
  {
  }

  lemma Run104()
    ensures Tabled(0x0B, 0xC0, 8, 0xFE, 0x41)
  {
  }

  lemma Run112()
    ensures Tabled(0xFE, 0x41, 8, 0x2F, 0xC2)
  {
  }

  lemma Run120()
    ensures Tabled(0x2F, 0xC2, 8, 0xFB, 0xA0)
  {
  }

  lemma Run128()
    ensures Tabled(0xFB, 0xA0, 8, 0x5D, 0xEC)
  {
  }

  lemma Run136()
    ensures Tabled(0x5D, 0xEC, 8, 0xC3, 0xA3)
  {
  }

  lemma Run144()
    ensures Tabled(0xC3, 0xA3, 8, 0x5B, 0xF0)
  {
  }

  lemma Run152()
    ensures Tabled(0x5B, 0xF0, 8, 0x9F, 0x9A)
  {
  }

  lemma Run160()
    ensures Tabled(0x9F, 0x9A, 8, 0x82, 0x7F)
  {
  }

  lemma Run168()
    ensures Tabled(0x82, 0x7F, 8, 0x9B, 0x88)
  {
  }

  lemma Run176()
    ensures Tabled(0x9B, 0x88, 8, 0xEA, 0xD7)
  {
  }

  lemma Run184()
    ensures Tabled(0xEA, 0xD7, 8, 0xFC, 0xCD)
  {
  }

  lemma Run192()
    ensures Tabled(0xFC, 0xCD, 8, 0x1B, 0xCC)
  {
  }

  lemma Run200()
    ensures Tabled(0x1B, 0xCC, 8, 0x45, 0x31)
  {
  }

  lemma Run208()
    ensures Tabled(0x45, 0x31, 8, 0xA8, 0x26)
  {
  }

  lemma Run216()
    ensures Tabled(0xA8, 0x26, 8, 0x12, 0xAA)
  {
  }

  lemma Run224()
    ensures Tabled(0x12, 0xAA, 8, 0x8F, 0xA4)
  {
  }

  lemma Run232()
    ensures Tabled(0x8F, 0xA4, 8, 0x39, 0x35)
  {
  }

  lemma Run240()
    ensures Tabled(0x39, 0x35, 8, 0x1C, 0xFF)
  {
  }

  lemma Run248()
    ensures Tabled(0x1C, 0xFF, 8, 0x03, 0xF6)
  {
  }

  /** What one stretch says of every power in it. */
  lemma {:induction false} Stretch(i: nat, n: nat, k: nat, end: bv8, last: bv8)
    requires i + n <= 256 && k < n
    requires Tabled(Gen(i).v, Gen(255 - i).v, n, end, last)
    ensures Sb1(Gen(i + k).v) == AffineValue(Gen(255 - i - k).v)
    ensures end == Gen(i + n).v && (i + n <= 255 ==> last == Gen(255 - i - n).v)
    decreases n
  {
    hide Gen, Sb1, AffineValue, Times3Value, ThirdValue;
    Next(i);
    Times3IsValue(Gen(i));
    if i < 255 {
      Next(254 - i);
      Times3IsValue(Gen(254 - i));
      ThirdInverse(Gen(254 - i).v);
    }
    if n > 1 {
      Stretch(i + 1, n - 1, if k > 0 then k - 1 else 0, end, last);
    }
  }

  lemma TableFrom1(i: nat)
    requires Gen(1) == Byte(0x03) && Gen(254) == Byte(0xF6)
    ensures Gen(64) == Byte(0x4C) && Gen(191) == Byte(0x54)
    ensures 1 <= i < 64 ==> Sb1(Gen(i).v) == AffineValue(Gen(255 - i).v)
  {
    hide Gen, Sb1, AffineValue, Tabled;
    Run1();
    Stretch(1, 7, if 1 <= i < 8 then i - 1 else 0, 0x1A, 0xFD);
    Run8();
    Stretch(8, 8, if 8 <= i < 16 then i - 8 else 0, 0x5F, 0x17);
    Run16();
    Stretch(16, 8, if 16 <= i < 24 then i - 16 else 0, 0xF7, 0x8C);
    Run24();
    Stretch(24, 8, if 24 <= i < 32 then i - 24 else 0, 0xE5, 0x0E);
    Run32();
    Stretch(32, 8, if 32 <= i < 40 then i - 32 else 0, 0x6A, 0x91);
    Run40();
    Stretch(40, 8, if 40 <= i < 48 then i - 40 else 0, 0x53, 0xCA);
    Run48();
    Stretch(48, 8, if 48 <= i < 56 then i - 48 else 0, 0x4F, 0x09);
    Run56();
    Stretch(56, 8, if 56 <= i < 64 then i - 56 else 0, 0x4C, 0x54);
  }

  lemma TableFrom64(i: nat)
    requires Gen(64) == Byte(0x4C) && Gen(191) == Byte(0x54)
    ensures Gen(128) == Byte(0xFB) && Gen(127) == Byte(0xA0)
    ensures 64 <= i < 128 ==> Sb1(Gen(i).v) == AffineValue(Gen(255 - i).v)
  {
    hide Gen, Sb1, AffineValue, Tabled;
    Run64();
    Stretch(64, 8, if 64 <= i < 72 then i - 64 else 0, 0x62, 0xAF);
    Run72();
    Stretch(72, 8, if 72 <= i < 80 then i - 72 else 0, 0x83, 0x80);
    Run80();
    Stretch(80, 8, if 80 <= i < 88 then i - 80 else 0, 0x81, 0x7E);
    Run88();
    Stretch(88, 8, if 88 <= i < 96 then i - 88 else 0, 0xB5, 0x75);
    Run96();
    Stretch(96, 8, if 96 <= i < 104 then i - 96 else 0, 0x0B, 0xC0);
    Run104();
    Stretch(104, 8, if 104 <= i < 112 then i - 104 else 0, 0xFE, 0x41);
    Run112();
    Stretch(112, 8, if 112 <= i < 120 then i - 112 else 0, 0x2F, 0xC2);
    Run120();
    Stretch(120, 8, if 120 <= i < 128 then i - 120 else 0, 0xFB, 0xA0);
  }

  lemma TableFrom128(i: nat)
    requires Gen(128) == Byte(0xFB) && Gen(127) == Byte(0xA0)
    ensures Gen(192) == Byte(0xFC) && Gen(63) == Byte(0xCD)
    ensures 128 <= i < 192 ==> Sb1(Gen(i).v) == AffineValue(Gen(255 - i).v)
  {
    hide Gen, Sb1, AffineValue, Tabled;
    Run128();
    Stretch(128, 8, if 128 <= i < 136 then i - 128 else 0, 0x5D, 0xEC);
    Run136();
    Stretch(136, 8, if 136 <= i < 144 then i - 136 else 0, 0xC3, 0xA3);
    Run144();
    Stretch(144, 8, if 144 <= i < 152 then i - 144 else 0, 0x5B, 0xF0);
    Run152();
    Stretch(152, 8, if 152 <= i < 160 then i - 152 else 0, 0x9F, 0x9A);
    Run160();
    Stretch(160, 8, if 160 <= i < 168 then i - 160 else 0, 0x82, 0x7F);
    Run168();
    Stretch(168, 8, if 168 <= i < 176 then i - 168 else 0, 0x9B, 0x88);
    Run176();
    Stretch(176, 8, if 176 <= i < 184 then i - 176 else 0, 0xEA, 0xD7);
    Run184();
    Stretch(184, 8, if 184 <= i < 192 then i - 184 else 0, 0xFC, 0xCD);
  }

  lemma TableFrom192(i: nat)
    requires Gen(192) == Byte(0xFC) && Gen(63) == Byte(0xCD)
    ensures 192 <= i < 256 ==> Sb1(Gen(i).v) == AffineValue(Gen(255 - i).v)
  {
    hide Gen, Sb1, AffineValue, Tabled;
    Run192();
    Stretch(192, 8, if 192 <= i < 200 then i - 192 else 0, 0x1B, 0xCC);
    Run200();
    Stretch(200, 8, if 200 <= i < 208 then i - 200 else 0, 0x45, 0x31);
    Run208();
    Stretch(208, 8, if 208 <= i < 216 then i - 208 else 0, 0xA8, 0x26);
    Run216();
    Stretch(216, 8, if 216 <= i < 224 then i - 216 else 0, 0x12, 0xAA);
    Run224();
    Stretch(224, 8, if 224 <= i < 232 then i - 224 else 0, 0x8F, 0xA4);
    Run232();
    Stretch(232, 8, if 232 <= i < 240 then i - 232 else 0, 0x39, 0x35);
    Run240();
    Stretch(240, 8, if 240 <= i < 248 then i - 240 else 0, 0x1C, 0xFF);
    Run248();
    Stretch(248, 8, if 248 <= i < 256 then i - 248 else 0, 0x03, 0xF6);
  }

  lemma ThirdOfOne()
    ensures ThirdValue(1) == 0xF6
  {
  }

  lemma TableAtOne()
    ensures Sb1(1) == AffineValue(1)
  {
  }

  /** The table holds the transformed inverse of every power of three. */
  lemma TableOfPower(i: nat)
    requires i <= 255
    ensures Sb1(Gen(i).v) == AffineValue(Gen(255 - i).v)
  {
    hide Gen, Sb1, AffineValue;
    First();
    Power255();
    Next(254);
    Times3IsValue(Gen(254));
    ThirdInverse(Gen(254).v);
    ThirdOfOne();
    TableAtOne();
    TableFrom1(i);
    TableFrom64(i);
    TableFrom128(i);
    TableFrom192(i);
  }

  lemma TableOfZero()
    ensures Sb1(0) == 0x63
  {
  }

  /** The generated S-box is the table of FIPS 197, figure 7, which aes.c holds as FSb. */
  lemma SubByteIsTable(log: seq<nat>, x: Byte)
    requires IsLogs(log) && 0 <= x.v as int < 256
    ensures SubByte(log, x.v as int) == Byte(Sb1(x.v))
  {
    hide Gen, Sb1, AffineValue;
    TableOfZero();
    if x.v == 0 {
      ZeroIsZero(x.v);
    } else {
      NotZeroValue(x.v);
      var l := log[x.v as int];
      GenValueIs(l);
      SameValue(Gen(l).v, x.v);
      TableOfPower(l);
    }
  }

  lemma ZeroIsZero(b: bv8)
    ensures b == 0 ==> b as int == 0
  {
  }

  // ---------------------------------------------------------------- the boxes and the round tables

  /** The tables as the S-box functions the rounds use. */
  function Boxes(fsb: seq<Byte>, rsb: seq<Byte>): SBoxes
    requires |fsb| == 256 && |rsb| == 256
  {
    SBoxes(x => Entry(fsb, x), x => Entry(rsb, x))
  }

  function Entry(table: seq<Byte>, x: Byte): Byte
    requires |table| == 256
  {
    ByteIndex(x);
    table[x.v as int]
  }

  lemma ByteIndex(x: Byte)
    ensures 0 <= x.v as int < 256
  {
  }

  lemma EntryOf(table: seq<Byte>, x: Byte)
    requires |table| == 256
    ensures 0 <= x.v as int < 256 && Entry(table, x) == table[x.v as int]
  {
    ByteIndex(x);
  }

  /** The boxes are the tables of FIPS 197. */
  ghost predicate Standard(s: SBoxes)
  {
    forall x: Byte :: s.fsb(x) == Byte(Sb1(x.v)) && s.rsb(x) == Byte(Is1(x.v))
  }

  /** The generated boxes are FSb and RSb of FIPS 197, figures 7 and 14. */
  lemma GeneratedStandard(log: seq<nat>, fsb: seq<Byte>, rsb: seq<Byte>)
    requires RevertsTo(log, rsb, 256) && |fsb| == 256
    requires forall k :: 0 <= k < 256 ==> fsb[k] == SubByte(log, k)
    ensures Standard(Boxes(fsb, rsb))
  {
    hide SubByte, Element, IsLogs, Sb1, Is1, Entry;
    LogsInRange(log);
    var s := Boxes(fsb, rsb);
    GeneratedInverse(log, fsb, rsb);
    forall x: Byte
      ensures s.fsb(x) == Byte(Sb1(x.v))
    {
      ByteIndex(x);
      EntryOf(fsb, x);
      SubByteIsTable(log, x);
    }
    forall x: Byte
      ensures s.rsb(x) == Byte(Is1(x.v))
    {
      FirstPair(x.v);
      assert s.rsb(s.fsb(Byte(Is1(x.v)))) == Byte(Is1(x.v));
    }
  }

  /** The generated reverse S-box inverts the generated S-box on every byte. */
  lemma GeneratedInverse(log: seq<nat>, fsb: seq<Byte>, rsb: seq<Byte>)
    requires RevertsTo(log, rsb, 256) && |fsb| == 256
    requires forall k :: 0 <= k < 256 ==> fsb[k] == SubByte(log, k)
    ensures Boxes(fsb, rsb).Inverse()
  {
    hide SubByte, Element, IsLogs;
    LogsInRange(log);
    forall x: Byte
      ensures Entry(rsb, Entry(fsb, x)) == x
    {
      ByteIndex(x);
      SubByteIs(log, x.v as int);
      ValueElement(x.v);
    }
  }

  /** MUL(x, y) through the tables */
  method MulByTable(pow: array<Byte>, log: array<nat>, x: Byte, y: Byte) returns (z: Byte)
    requires IsPowers(pow[..]) && IsLogs(log[..])
    ensures (x.v == 0x0E ==> z == Mul14(y)) && (x.v == 0x09 ==> z == Mul9(y))
    ensures (x.v == 0x0D ==> z == Mul13(y)) && (x.v == 0x0B ==> z == Mul11(y))
  {
    hide Mul9, Mul11, Mul13, Mul14, Gen, IsLogs, GenValue;
    LogsInRange(log[..]);
    if x.v != 0 && y.v != 0 {
      NotZeroValue(x.v);
      NotZeroValue(y.v);
      var k := (log[x.v as int] + log[y.v as int]) % 255;
      assert pow[..][k] == Gen(k);
      z := pow[k];
      MulThroughLogs(log[..], x, y, z);
    } else {
      z := ZERO;
      MulZero();
    }
  }

  lemma MulZero()
    ensures Mul9(ZERO) == ZERO && Mul11(ZERO) == ZERO && Mul13(ZERO) == ZERO && Mul14(ZERO) == ZERO
  {
  }

  /** Logarithms are unique. */
  lemma LogIs(log: seq<nat>, x: Byte, l: nat)
    requires IsLogs(log) && x != ZERO && 0 < l <= 255 && Gen(l) == x
    ensures 0 < x.v as int < 256 && log[x.v as int] == l
  {
    hide Gen;
    NotZeroValue(x.v);
    var k := log[x.v as int];
    GenValueIs(l);
    if k < l {
      GenValueDistinct(k, l);
    } else if l < k {
      GenValueDistinct(l, k);
    }
  }

  lemma MulThroughLogs(log: seq<nat>, x: Byte, y: Byte, z: Byte)
    requires IsLogs(log) && x != ZERO && y != ZERO && 0 < x.v as int < 256 && 0 < y.v as int < 256
    requires z == Gen((log[x.v as int] + log[y.v as int]) % 255)
    ensures (x.v == 0x0E ==> z == Mul14(y)) && (x.v == 0x09 ==> z == Mul9(y))
    ensures (x.v == 0x0D ==> z == Mul13(y)) && (x.v == 0x0B ==> z == Mul11(y))
  {
    hide Mul9, Mul11, Mul13, Mul14, Gen;
    var l := log[y.v as int];
    GenValueIs(l);
    SameValue(Gen(l).v, y.v);
    MulGen(l);
    First();
    Power255();
    GenModulo(255, log[x.v as int] + l);
    LogOf9();
    LogOf11();
    LogOf13();
    LogOf14();
    if x.v == 0x0E {
      LogIs(log, x, 223);
    } else if x.v == 0x09 {
      LogIs(log, x, 199);
    } else if x.v == 0x0D {
      LogIs(log, x, 238);
    } else if x.v == 0x0B {
      LogIs(log, x, 104);
    }
  }

  /** One turn of the loop that generates the forward and reverse tables. */
  method GenEntry(pow: array<Byte>, log: array<nat>, f: Byte, r: Byte) returns (ft: Word, rt: Word)
    requires IsPowers(pow[..]) && IsLogs(log[..])
    ensures ft == Word(XTime(f), f, f, Add(XTime(f), f)) && rt == Word(Mul14(r), Mul9(r), Mul13(r), Mul11(r))
  {
    hide Mul9, Mul11, Mul13, Mul14, XTime, Add, IsLogs, IsPowers;
    var x := f;
    var y := XTime(x);
    var z := Add(y, x);
    ft := Word(y, x, x, z);
    x := r;
    var m14 := MulByTable(pow, log, Byte(0x0E), x);
    var m9 := MulByTable(pow, log, Byte(0x09), x);
    var m13 := MulByTable(pow, log, Byte(0x0D), x);
    var m11 := MulByTable(pow, log, Byte(0x0B), x);
    rt := Word(m14, m9, m13, m11);
  }

  /** The entries of the round tables at a byte. */
  lemma EntryIs(fsb: seq<Byte>, rsb: seq<Byte>, i: nat)
    requires |fsb| == 256 && |rsb| == 256 && i < 256
    ensures var f, r := fsb[i], rsb[i];
            && FT0(Boxes(fsb, rsb), Element(i)) == Word(XTime(f), f, f, Add(XTime(f), f))
            && RT0(Boxes(fsb, rsb), Element(i)) == Word(Mul14(r), Mul9(r), Mul13(r), Mul11(r))
  {
    hide Mul9, Mul11, Mul13, Mul14, XTime, Add, Element;
    ElementValue(i);
  }

  /** The loop that generates the forward and reverse tables, FT0 and RT0. */
  method GenRoundTables(pow: array<Byte>, log: array<nat>, fsb: array<Byte>, rsb: array<Byte>)
    returns (ft0: array<Word>, rt0: array<Word>)
    requires IsPowers(pow[..]) && IsLogs(log[..]) && fsb.Length == 256 && rsb.Length == 256
    ensures fresh(ft0) && fresh(rt0) && ft0.Length == 256 && rt0.Length == 256
    ensures var s := Boxes(fsb[..], rsb[..]);
            forall i {:trigger Element(i)} :: 0 <= i < 256 ==> ft0[i] == FT0(s, Element(i)) && rt0[i] == RT0(s, Element(i))
  {
    hide Mul9, Mul11, Mul13, Mul14, XTime, Add, Element, IsLogs, IsPowers, Boxes, FT0, RT0;
    var nothing := Word(ZERO, ZERO, ZERO, ZERO);
    ft0, rt0 := new Word[256](_ => nothing), new Word[256](_ => nothing);
    ghost var f, r := fsb[..], rsb[..];
    for i := 0 to 256
      invariant fresh(ft0) && fresh(rt0) && ft0.Length == 256 && rt0.Length == 256
      invariant IsPowers(pow[..]) && IsLogs(log[..]) && f == fsb[..] && r == rsb[..]
      invariant forall k {:trigger Element(k)} :: 0 <= k < i ==>
                  ft0[k] == FT0(Boxes(f, r), Element(k)) && rt0[k] == RT0(Boxes(f, r), Element(k))
    {
      EntryIs(f, r, i);
      var ft, rt := GenEntry(pow, log, fsb[i], rsb[i]);
      ft0[i] := ft;
      rt0[i] := rt;
    }
  }

  /** The round constants are the powers of x. */
  method GenRoundConstants() returns (rc: array<Byte>)
    ensures fresh(rc) && rc.Length == 10 && forall i :: 0 <= i < 10 ==> rc[i] == PowerOfX(i)
  {
    hide XTime;
    rc := new Byte[10](_ => ZERO);
    var x := Byte(1);
    for i := 0 to 10
      invariant rc.Length == 10 && fresh(rc) && x == PowerOfX(i)
      invariant forall k :: 0 <= k < i ==> rc[k] == PowerOfX(k)
    {
      rc[i] := x;
      x := XTime(x);
    }
  }

  /** The tables hold the columns that the rounds look up. */
  ghost predicate RoundTables(s: SBoxes, ft0: seq<Word>, rt0: seq<Word>)
  {
    && |ft0| == |rt0| == 256
    && forall i {:trigger Element(i)} :: 0 <= i < 256 ==> ft0[i] == FT0(s, Element(i)) && rt0[i] == RT0(s, Element(i))
  }

  /**
   * aes_gen_tables: the boxes are those of FIPS 197, the reverse S-box inverts the S-box, and the round
   * tables are those the round functions use.
   */
  method GenTables() returns (rc: array<Byte>, fsb: array<Byte>, rsb: array<Byte>, ft0: array<Word>, rt0: array<Word>)
    ensures rc.Length == 10 && fsb.Length == rsb.Length == ft0.Length == rt0.Length == 256
    ensures forall i :: 0 <= i < 10 ==> rc[i] == PowerOfX(i)
    ensures var s := Boxes(fsb[..], rsb[..]);
            && s.Inverse() && Standard(s)
            && RoundTables(s, ft0[..], rt0[..])
  {
    hide FT0, RT0, Element, IsLogs, IsPowers, SubByte, RevertsTo, Standard;
    var pow, log := GenPowers();
    rc := GenRoundConstants();
    fsb, rsb := GenSBoxes(pow, log);
    RevertsSize(log[..], rsb[..]);
    GeneratedInverse(log[..], fsb[..], rsb[..]);
    GeneratedStandard(log[..], fsb[..], rsb[..]);
    ft0, rt0 := GenRoundTables(pow, log, fsb, rsb);
  }

  lemma RevertsSize(log: seq<nat>, rsb: seq<Byte>)
    requires RevertsTo(log, rsb, 256)
    ensures |rsb| == 256
  {
  }
}
