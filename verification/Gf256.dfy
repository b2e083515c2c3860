/**
 * The field GF(2^8) as the AES tables use it (aes_gen_tables in aes.c), and the column
 * transformations MixColumns and InvMixColumns.
 */
module Gf256 {

  /** A byte, seen as an element of GF(2^8). */
  datatype Byte = Byte(v: bv8)

  const ZERO := Byte(0)

  /** Addition in the field: exclusive or. */
  function Add(x: Byte, y: Byte): (z: Byte)
  {
    Byte(x.v ^ y.v)
  }

  /** The field element of a number, counted up from zero. */
  function Element(x: nat): Byte
  {
    if x == 0 then Byte(0) else Byte(Element(x - 1).v + 1)
  }

  lemma CountUp(b: bv8)
    requires b as int < 0xFF
    ensures (b + 1) as int == (b as int) + 1
  {
    assert b != 0xFF;
  }

  lemma {:induction false} ElementValue(x: nat)
    requires x < 0x100
    ensures Element(x).v as int == x
  {
    if x > 0 {
      ElementValue(x - 1);
      CountUp(Element(x - 1).v);
    }
  }

  lemma ValueElement(b: bv8)
    ensures Element(b as int) == Byte(b)
  {
    ElementValue(b as int);
    SameValue(Element(b as int).v, b);
  }

  lemma SameValue(a: bv8, b: bv8)
    requires a as int == b as int
    ensures a == b
  {
  }

  /** XTIME: multiplication by x */
  function XTime(x: Byte): (y: Byte)
  {
    Byte((x.v << 1) ^ (if x.v & 0x80 != 0 then 0x1B else 0x00))
  }

  function X2(x: Byte): Byte { XTime(XTime(x)) }
  function X3(x: Byte): Byte { XTime(X2(x)) }

  // MUL(c, x) for the constants of the reverse tables
  function Mul3(x: Byte): Byte { Add(XTime(x), x) }
  function Mul9(x: Byte): Byte { Add(X3(x), x) }
  function Mul11(x: Byte): Byte { Add(X3(x), Add(XTime(x), x)) }
  function Mul13(x: Byte): Byte { Add(X3(x), Add(X2(x), x)) }
  function Mul14(x: Byte): Byte { Add(X3(x), Add(X2(x), XTime(x))) }

  // ---------------------------------------------------------------- additivity

  /** XTIME without the case distinction: the top bit is added in at four places. */
  function XTimeBits(x: bv8): (y: bv8)
  {
    (x << 1) ^ (x >> 7) ^ ((x >> 7) << 1) ^ ((x >> 7) << 3) ^ ((x >> 7) << 4)
  }

  lemma XTimeIsBits(x: bv8)
    ensures XTime(Byte(x)) == Byte(XTimeBits(x))
  {
  }

  lemma XTimeBitsLinear(x: bv8, y: bv8)
    ensures Byte(XTimeBits(x ^ y)) == Add(Byte(XTimeBits(x)), Byte(XTimeBits(y)))
  {
  }

  lemma XTimeLinear(x: Byte, y: Byte)
    ensures XTime(Add(x, y)) == Add(XTime(x), XTime(y))
  {
    hide XTimeBits, XTime;
    XTimeIsBits(x.v);
    XTimeIsBits(y.v);
    XTimeIsBits(x.v ^ y.v);
    XTimeBitsLinear(x.v, y.v);
  }

  lemma X2Linear(x: Byte, y: Byte)
    ensures X2(Add(x, y)) == Add(X2(x), X2(y))
  {
    hide XTime, Add;
    XTimeLinear(x, y);
    XTimeLinear(XTime(x), XTime(y));
  }

  lemma X3Linear(x: Byte, y: Byte)
    ensures X3(Add(x, y)) == Add(X3(x), X3(y))
  {
    hide XTime, Add, X2;
    X2Linear(x, y);
    XTimeLinear(X2(x), X2(y));
  }

  lemma Regroup(a: Byte, b: Byte, c: Byte, d: Byte)
    ensures Add(Add(a, b), Add(c, d)) == Add(Add(a, c), Add(b, d))
  {
  }

  lemma Regroup6(a: Byte, b: Byte, c: Byte, d: Byte, e: Byte, f: Byte)
    ensures Add(Add(a, b), Add(Add(c, d), Add(e, f))) == Add(Add(a, Add(c, e)), Add(b, Add(d, f)))
  {
    hide Add;
    Regroup(c, d, e, f);
    Regroup(a, b, Add(c, e), Add(d, f));
  }

  lemma MulLinear(x: Byte, y: Byte)
    ensures Mul9(Add(x, y)) == Add(Mul9(x), Mul9(y)) && Mul11(Add(x, y)) == Add(Mul11(x), Mul11(y))
    ensures Mul13(Add(x, y)) == Add(Mul13(x), Mul13(y)) && Mul14(Add(x, y)) == Add(Mul14(x), Mul14(y))
  {
    hide XTime, Add, X2, X3;
    XTimeLinear(x, y);
    X2Linear(x, y);
    X3Linear(x, y);
    Regroup(X3(x), X3(y), x, y);
    Regroup6(X3(x), X3(y), XTime(x), XTime(y), x, y);
    Regroup6(X3(x), X3(y), X2(x), X2(y), x, y);
    Regroup6(X3(x), X3(y), X2(x), X2(y), XTime(x), XTime(y));
  }

  // ---------------------------------------------------------------- columns

  function Sum4(a: Byte, b: Byte, c: Byte, d: Byte): (s: Byte)
  {
    Add(Add(a, b), Add(c, d))
  }

  /** A column of the state, or a uint32_t by its four bytes, MBEDTLS_BYTE_0 first. */
  datatype Word = Word(b0: Byte, b1: Byte, b2: Byte, b3: Byte)

  function Xor(x: Word, y: Word): (z: Word)
  {
    Word(Add(x.b0, y.b0), Add(x.b1, y.b1), Add(x.b2, y.b2), Add(x.b3, y.b3))
  }

  /** MixColumns on one column. */
  function Mix(w: Word): (m: Word)
  {
    Word(Sum4(XTime(w.b0), Mul3(w.b1), w.b2, w.b3),
         Sum4(w.b0, XTime(w.b1), Mul3(w.b2), w.b3),
         Sum4(w.b0, w.b1, XTime(w.b2), Mul3(w.b3)),
         Sum4(Mul3(w.b0), w.b1, w.b2, XTime(w.b3)))
  }

  /** InvMixColumns on one column. */
  function InvMix(w: Word): (m: Word)
  {
    Word(Sum4(Mul14(w.b0), Mul11(w.b1), Mul13(w.b2), Mul9(w.b3)),
         Sum4(Mul9(w.b0), Mul14(w.b1), Mul11(w.b2), Mul13(w.b3)),
         Sum4(Mul13(w.b0), Mul9(w.b1), Mul14(w.b2), Mul11(w.b3)),
         Sum4(Mul11(w.b0), Mul13(w.b1), Mul9(w.b2), Mul14(w.b3)))
  }

  lemma Sum4Add(a: Byte, b: Byte, c: Byte, d: Byte, e: Byte, f: Byte, g: Byte, h: Byte)
    ensures Sum4(Add(a, e), Add(b, f), Add(c, g), Add(d, h)) == Add(Sum4(a, b, c, d), Sum4(e, f, g, h))
  {
    hide Add;
    Regroup(a, e, b, f);
    Regroup(c, g, d, h);
    Regroup(Add(a, b), Add(e, f), Add(c, d), Add(g, h));
  }

  /** InvMixColumns commutes with the addition of a round key. */
  lemma InvMixLinear(x: Word, y: Word)
    ensures InvMix(Xor(x, y)) == Xor(InvMix(x), InvMix(y))
  {
    hide Mul9, Mul11, Mul13, Mul14, Add, Sum4;
    MulLinear(x.b0, y.b0);
    MulLinear(x.b1, y.b1);
    MulLinear(x.b2, y.b2);
    MulLinear(x.b3, y.b3);
    Sum4Add(Mul14(x.b0), Mul11(x.b1), Mul13(x.b2), Mul9(x.b3), Mul14(y.b0), Mul11(y.b1), Mul13(y.b2), Mul9(y.b3));
    Sum4Add(Mul9(x.b0), Mul14(x.b1), Mul11(x.b2), Mul13(x.b3), Mul9(y.b0), Mul14(y.b1), Mul11(y.b2), Mul13(y.b3));
    Sum4Add(Mul13(x.b0), Mul9(x.b1), Mul14(x.b2), Mul11(x.b3), Mul13(y.b0), Mul9(y.b1), Mul14(y.b2), Mul11(y.b3));
    Sum4Add(Mul11(x.b0), Mul13(x.b1), Mul9(x.b2), Mul14(x.b3), Mul11(y.b0), Mul13(y.b1), Mul9(y.b2), Mul14(y.b3));
  }

  lemma MulLinear4(a: Byte, b: Byte, c: Byte, d: Byte)
    ensures Mul9(Sum4(a, b, c, d)) == Sum4(Mul9(a), Mul9(b), Mul9(c), Mul9(d))
    ensures Mul11(Sum4(a, b, c, d)) == Sum4(Mul11(a), Mul11(b), Mul11(c), Mul11(d))
    ensures Mul13(Sum4(a, b, c, d)) == Sum4(Mul13(a), Mul13(b), Mul13(c), Mul13(d))
    ensures Mul14(Sum4(a, b, c, d)) == Sum4(Mul14(a), Mul14(b), Mul14(c), Mul14(d))
  {
    hide Mul9, Mul11, Mul13, Mul14, Add;
    MulLinear(Add(a, b), Add(c, d));
    MulLinear(a, b);
    MulLinear(c, d);
  }

  /** Sums of rows regrouped into sums of columns. */
  lemma Transpose(a0: Byte, b0: Byte, c0: Byte, d0: Byte, a1: Byte, b1: Byte, c1: Byte, d1: Byte,
                  a2: Byte, b2: Byte, c2: Byte, d2: Byte, a3: Byte, b3: Byte, c3: Byte, d3: Byte)
    ensures Sum4(Sum4(a0, b0, c0, d0), Sum4(a1, b1, c1, d1), Sum4(a2, b2, c2, d2), Sum4(a3, b3, c3, d3))
         == Sum4(Sum4(a0, a1, a2, a3), Sum4(b0, b1, b2, b3), Sum4(c0, c1, c2, c3), Sum4(d0, d1, d2, d3))
  {
    hide Add;
    Sum4Add(a0, b0, c0, d0, a1, b1, c1, d1);
    Sum4Add(a2, b2, c2, d2, a3, b3, c3, d3);
    Sum4Add(Add(a0, a1), Add(b0, b1), Add(c0, c1), Add(d0, d1), Add(a2, a3), Add(b2, b3), Add(c2, c3), Add(d2, d3));
  }

  // ---------------------------------------------------------------- linear combinations

  /** Which of a, x a, x^2 a, x^3 a and x^4 a occur in a sum. */
  datatype Mask = Mask(c0: bool, c1: bool, c2: bool, c3: bool, c4: bool)

  function MaskXor(m: Mask, n: Mask): (x: Mask)
  {
    Mask(m.c0 != n.c0, m.c1 != n.c1, m.c2 != n.c2, m.c3 != n.c3, m.c4 != n.c4)
  }

  function Pick(p: bool, x: Byte): Byte
  {
    if p then x else ZERO
  }

  /** The sum of the powers of x times a that are in the mask. */
  function Lin(m: Mask, a: Byte): (s: Byte)
  {
    Add(Add(Add(Pick(m.c0, a), Pick(m.c1, XTime(a))), Add(Pick(m.c2, X2(a)), Pick(m.c3, X3(a)))),
        Pick(m.c4, XTime(X3(a))))
  }

  lemma PickAdd(p: bool, q: bool, x: Byte)
    ensures Add(Pick(p, x), Pick(q, x)) == Pick(p != q, x)
  {
  }

  /** Linear combinations are added by adding their masks: what occurs twice cancels. */
  lemma LinAdd(m: Mask, n: Mask, a: Byte)
    ensures Add(Lin(m, a), Lin(n, a)) == Lin(MaskXor(m, n), a)
  {
    hide Add, Pick, XTime, X2, X3;
    PickAdd(m.c0, n.c0, a);
    PickAdd(m.c1, n.c1, XTime(a));
    PickAdd(m.c2, n.c2, X2(a));
    PickAdd(m.c3, n.c3, X3(a));
    PickAdd(m.c4, n.c4, XTime(X3(a)));
    Sum4Add(Pick(m.c0, a), Pick(m.c1, XTime(a)), Pick(m.c2, X2(a)), Pick(m.c3, X3(a)),
            Pick(n.c0, a), Pick(n.c1, XTime(a)), Pick(n.c2, X2(a)), Pick(n.c3, X3(a)));
    Regroup(Sum4(Pick(m.c0, a), Pick(m.c1, XTime(a)), Pick(m.c2, X2(a)), Pick(m.c3, X3(a))), Pick(m.c4, XTime(X3(a))),
            Sum4(Pick(n.c0, a), Pick(n.c1, XTime(a)), Pick(n.c2, X2(a)), Pick(n.c3, X3(a))), Pick(n.c4, XTime(X3(a))));
  }

  lemma AddZero(x: Byte)
    ensures Add(x, ZERO) == x && Add(ZERO, x) == x
  {
  }

  /** The mask of a number below 32, lowest bit first. */
  function M(k: int): (m: Mask)
  {
    Mask(k % 2 == 1, k / 2 % 2 == 1, k / 4 % 2 == 1, k / 8 % 2 == 1, k / 16 % 2 == 1)
  }

  ghost predicate Sums(x: Byte, m: Mask, a: Byte)
  {
    x == Lin(m, a)
  }

  lemma PowerMasks(a: Byte)
    ensures Lin(M(1), a) == a && Lin(M(2), a) == XTime(a) && Lin(M(4), a) == X2(a)
    ensures Lin(M(8), a) == X3(a) && Lin(M(16), a) == XTime(X3(a)) && Lin(M(0), a) == ZERO
  {
    hide Add, XTime, X2, X3;
    AddZero(ZERO);
    AddZero(a);
    AddZero(XTime(a));
    AddZero(X2(a));
    AddZero(X3(a));
    AddZero(XTime(X3(a)));
  }

  /** The multiples of a and of x a as combinations of the powers. */
  lemma MulMasks(a: Byte)
    ensures Sums(Mul9(a), M(9), a) && Sums(Mul11(a), M(11), a) && Sums(Mul13(a), M(13), a) && Sums(Mul14(a), M(14), a)
    ensures Sums(Mul9(XTime(a)), M(18), a) && Sums(Mul11(XTime(a)), M(22), a)
    ensures Sums(Mul13(XTime(a)), M(26), a) && Sums(Mul14(XTime(a)), M(28), a)
  {
    hide Add, XTime, Lin;
    assert X2(XTime(a)) == X3(a) && X3(XTime(a)) == XTime(X3(a)) && XTime(XTime(a)) == X2(a);
    PowerMasks(a);
    LinAdd(M(2), M(1), a);
    LinAdd(M(4), M(1), a);
    LinAdd(M(4), M(2), a);
    LinAdd(M(8), M(1), a);
    LinAdd(M(8), M(2), a);
    LinAdd(M(8), M(3), a);
    LinAdd(M(8), M(5), a);
    LinAdd(M(8), M(6), a);
    LinAdd(M(8), M(4), a);
    LinAdd(M(16), M(2), a);
    LinAdd(M(16), M(6), a);
    LinAdd(M(16), M(10), a);
    LinAdd(M(16), M(12), a);
  }

  // The matrix product InvMixColumns * MixColumns is the identity, entry by entry.

  lemma Diagonal(a: Byte)
    ensures Sum4(Mul14(XTime(a)), Mul11(a), Mul13(a), Mul9(Mul3(a))) == a
  {
    hide Add, XTime, Lin, Mul9, Mul11, Mul13, Mul14;
    MulLinear(XTime(a), a);
    MulMasks(a);
    PowerMasks(a);
    LinAdd(M(18), M(9), a);
    LinAdd(M(28), M(11), a);
    LinAdd(M(13), M(27), a);
    LinAdd(M(23), M(22), a);
  }

  lemma OffDiagonal1(a: Byte)
    ensures Sum4(Mul14(Mul3(a)), Mul11(XTime(a)), Mul13(a), Mul9(a)) == ZERO
  {
    hide Add, XTime, Lin, Mul9, Mul11, Mul13, Mul14;
    MulLinear(XTime(a), a);
    MulMasks(a);
    PowerMasks(a);
    LinAdd(M(28), M(14), a);
    LinAdd(M(18), M(22), a);
    LinAdd(M(13), M(9), a);
    LinAdd(M(4), M(4), a);
  }

  lemma OffDiagonal2(a: Byte)
    ensures Sum4(Mul14(a), Mul11(Mul3(a)), Mul13(XTime(a)), Mul9(a)) == ZERO
  {
    hide Add, XTime, Lin, Mul9, Mul11, Mul13, Mul14;
    MulLinear(XTime(a), a);
    MulMasks(a);
    PowerMasks(a);
    LinAdd(M(22), M(11), a);
    LinAdd(M(14), M(29), a);
    LinAdd(M(26), M(9), a);
    LinAdd(M(19), M(19), a);
  }

  lemma OffDiagonal3(a: Byte)
    ensures Sum4(Mul14(a), Mul11(a), Mul13(Mul3(a)), Mul9(XTime(a))) == ZERO
  {
    hide Add, XTime, Lin, Mul9, Mul11, Mul13, Mul14;
    MulLinear(XTime(a), a);
    MulMasks(a);
    PowerMasks(a);
    LinAdd(M(14), M(11), a);
    LinAdd(M(26), M(13), a);
    LinAdd(M(23), M(18), a);
    LinAdd(M(5), M(5), a);
  }

  /** Row 0 of the product. */
  lemma InvMixRow(a: Byte, b: Byte, c: Byte, d: Byte)
    ensures Sum4(Mul14(Sum4(XTime(a), Mul3(b), c, d)), Mul11(Sum4(a, XTime(b), Mul3(c), d)),
                 Mul13(Sum4(a, b, XTime(c), Mul3(d))), Mul9(Sum4(Mul3(a), b, c, XTime(d)))) == a
  {
    hide Mul3, Mul9, Mul11, Mul13, Mul14, Add, Sum4, XTime;
    MulLinear4(XTime(a), Mul3(b), c, d);
    MulLinear4(a, XTime(b), Mul3(c), d);
    MulLinear4(a, b, XTime(c), Mul3(d));
    MulLinear4(Mul3(a), b, c, XTime(d));
    Transpose(Mul14(XTime(a)), Mul14(Mul3(b)), Mul14(c), Mul14(d), Mul11(a), Mul11(XTime(b)), Mul11(Mul3(c)), Mul11(d),
              Mul13(a), Mul13(b), Mul13(XTime(c)), Mul13(Mul3(d)), Mul9(Mul3(a)), Mul9(b), Mul9(c), Mul9(XTime(d)));
    Diagonal(a);
    OffDiagonal1(b);
    OffDiagonal2(c);
    OffDiagonal3(d);
    SumWithZeros(a);
  }

  lemma SumWithZeros(a: Byte)
    ensures Sum4(a, ZERO, ZERO, ZERO) == a
  {
  }

  /** The sum does not depend on where the column is read from. */
  lemma Sum4Rotate(a: Byte, b: Byte, c: Byte, d: Byte)
    ensures Sum4(a, b, c, d) == Sum4(b, c, d, a)
  {
    hide Add;
    AddCommutes(a, b);
    AddCommutes(c, d);
    AddCommutes(Add(b, a), Add(c, d));
    Regroup(b, a, d, c);
    Regroup(b, d, c, a);
    AddCommutes(a, c);
    AddCommutes(Add(a, b), Add(c, d));
    Regroup(a, b, c, d);
    Regroup(b, a, c, d);
    AddCommutes(d, a);
  }

  lemma AddCommutes(x: Byte, y: Byte)
    ensures Add(x, y) == Add(y, x)
  {
  }

  /** InvMixColumns inverts MixColumns. */
  lemma InvMixMix(w: Word)
    ensures InvMix(Mix(w)) == w
  {
    hide Mul3, Mul9, Mul11, Mul13, Mul14, Sum4, XTime;
    var Word(a, b, c, d) := w;
    var m := Mix(w);
    InvMixRow(a, b, c, d);
    InvMixRow(b, c, d, a);
    InvMixRow(c, d, a, b);
    InvMixRow(d, a, b, c);
    // the columns of row 0, read from each starting byte
    Rotations(XTime(a), Mul3(b), c, d);
    Rotations(a, XTime(b), Mul3(c), d);
    Rotations(a, b, XTime(c), Mul3(d));
    Rotations(Mul3(a), b, c, XTime(d));
    Rotations(Mul9(m.b0), Mul14(m.b1), Mul11(m.b2), Mul13(m.b3));
    Rotations(Mul13(m.b0), Mul9(m.b1), Mul14(m.b2), Mul11(m.b3));
    Rotations(Mul11(m.b0), Mul13(m.b1), Mul9(m.b2), Mul14(m.b3));
  }

  lemma Rotations(a: Byte, b: Byte, c: Byte, d: Byte)
    ensures Sum4(a, b, c, d) == Sum4(b, c, d, a) == Sum4(c, d, a, b) == Sum4(d, a, b, c)
  {
    hide Sum4;
    Sum4Rotate(a, b, c, d);
    Sum4Rotate(b, c, d, a);
    Sum4Rotate(c, d, a, b);
  }
}
