/**
 * The AES block transformation of aes.c on four 32-bit words: table-driven encryption and
 * decryption rounds, the two key schedules, and the proof that decryption under the
 * decryption schedule inverts encryption (the equivalent inverse cipher of FIPS 197,
 * section 5.3.5).
 */
module AesBlock {
  import opened Gf256
  import opened Blocks

  /** The S-box FSb and the reverse S-box RSb. */
  datatype SBoxes = SBoxes(fsb: Byte -> Byte, rsb: Byte -> Byte) {
    ghost predicate Inverse() {
      forall x :: rsb(fsb(x)) == x
    }
  }

  // ---------------------------------------------------------------- tables

  /** ROTL8 of a table entry: every byte moves up one place. */
  function Rotl8(w: Word): (r: Word)
  {
    Word(w.b3, w.b0, w.b1, w.b2)
  }

  function FT0(s: SBoxes, i: Byte): Word
  {
    var x := s.fsb(i);
    var y := XTime(x);
    Word(y, x, x, Add(y, x))
  }
  function FT1(s: SBoxes, i: Byte): Word { Rotl8(FT0(s, i)) }
  function FT2(s: SBoxes, i: Byte): Word { Rotl8(FT1(s, i)) }
  function FT3(s: SBoxes, i: Byte): Word { Rotl8(FT2(s, i)) }

  function RT0(s: SBoxes, i: Byte): Word
  {
    var x := s.rsb(i);
    Word(Mul14(x), Mul9(x), Mul13(x), Mul11(x))
  }
  function RT1(s: SBoxes, i: Byte): Word { Rotl8(RT0(s, i)) }
  function RT2(s: SBoxes, i: Byte): Word { Rotl8(RT1(s, i)) }
  function RT3(s: SBoxes, i: Byte): Word { Rotl8(RT2(s, i)) }

  // ---------------------------------------------------------------- the round functions of FIPS 197

  function SubBytes(s: SBoxes, x: Block): Block
  {
    Block(SubWord(s.fsb, x.x0), SubWord(s.fsb, x.x1), SubWord(s.fsb, x.x2), SubWord(s.fsb, x.x3))
  }

  function InvSubBytes(s: SBoxes, x: Block): Block
  {
    Block(SubWord(s.rsb, x.x0), SubWord(s.rsb, x.x1), SubWord(s.rsb, x.x2), SubWord(s.rsb, x.x3))
  }

  function SubWord(f: Byte -> Byte, w: Word): Word
  {
    Word(f(w.b0), f(w.b1), f(w.b2), f(w.b3))
  }

  /** Row k of the state moves k columns to the left. */
  function ShiftRows(x: Block): Block
  {
    Block(Word(x.x0.b0, x.x1.b1, x.x2.b2, x.x3.b3), Word(x.x1.b0, x.x2.b1, x.x3.b2, x.x0.b3),
          Word(x.x2.b0, x.x3.b1, x.x0.b2, x.x1.b3), Word(x.x3.b0, x.x0.b1, x.x1.b2, x.x2.b3))
  }

  function InvShiftRows(x: Block): Block
  {
    Block(Word(x.x0.b0, x.x3.b1, x.x2.b2, x.x1.b3), Word(x.x1.b0, x.x0.b1, x.x3.b2, x.x2.b3),
          Word(x.x2.b0, x.x1.b1, x.x0.b2, x.x3.b3), Word(x.x3.b0, x.x2.b1, x.x1.b2, x.x0.b3))
  }

  function MixColumns(x: Block): Block
  {
    Block(Mix(x.x0), Mix(x.x1), Mix(x.x2), Mix(x.x3))
  }

  function InvMixColumns(x: Block): Block
  {
    Block(InvMix(x.x0), InvMix(x.x1), InvMix(x.x2), InvMix(x.x3))
  }

  function SubShift(s: SBoxes, x: Block): Block { ShiftRows(SubBytes(s, x)) }

  function InvSubShift(s: SBoxes, x: Block): Block { InvShiftRows(InvSubBytes(s, x)) }

  // ---------------------------------------------------------------- table lookups are rounds

  /** One word of AES_FROUND: four table lookups and a round key word. */
  function FColumn(s: SBoxes, rk: Word, p: Word, q: Word, r: Word, t: Word): Word
  {
    Xor(Xor(Xor(Xor(rk, FT0(s, p.b0)), FT1(s, q.b1)), FT2(s, r.b2)), FT3(s, t.b3))
  }

  /** One word of AES_RROUND. */
  function RColumn(s: SBoxes, rk: Word, p: Word, q: Word, r: Word, t: Word): Word
  {
    Xor(Xor(Xor(Xor(rk, RT0(s, p.b0)), RT1(s, q.b1)), RT2(s, r.b2)), RT3(s, t.b3))
  }

  /** AES_FROUND: all four words. */
  function FRound(s: SBoxes, k: Block, y: Block): Block
  {
    Block(FColumn(s, k.x0, y.x0, y.x1, y.x2, y.x3), FColumn(s, k.x1, y.x1, y.x2, y.x3, y.x0),
          FColumn(s, k.x2, y.x2, y.x3, y.x0, y.x1), FColumn(s, k.x3, y.x3, y.x0, y.x1, y.x2))
  }

  /** AES_RROUND: all four words. */
  function RRound(s: SBoxes, k: Block, y: Block): Block
  {
    Block(RColumn(s, k.x0, y.x0, y.x3, y.x2, y.x1), RColumn(s, k.x1, y.x1, y.x0, y.x3, y.x2),
          RColumn(s, k.x2, y.x2, y.x1, y.x0, y.x3), RColumn(s, k.x3, y.x3, y.x2, y.x1, y.x0))
  }

  lemma SwapLast(x: Byte, k: Byte, y: Byte)
    ensures Add(Add(x, k), y) == Add(Add(x, y), k)
  {
  }

  /** A round key byte and four table bytes, in the order of the macros. */
  lemma Sum5(k: Byte, a: Byte, b: Byte, c: Byte, d: Byte)
    ensures Add(Add(Add(Add(k, a), b), c), d) == Add(Sum4(a, b, c, d), k)
  {
    hide Add;
    AddCommutes(k, a);
    SwapLast(a, k, b);
    SwapLast(Add(a, b), k, c);
    SwapLast(Add(Add(a, b), c), k, d);
    Assoc(Add(a, b), c, d);
  }

  lemma FColumnIsMix(s: SBoxes, rk: Word, p: Word, q: Word, r: Word, t: Word)
    ensures FColumn(s, rk, p, q, r, t) == Xor(Mix(SubWord(s.fsb, Word(p.b0, q.b1, r.b2, t.b3))), rk)
  {
    hide Add, Sum4, XTime;
    var a, b, c, d := s.fsb(p.b0), s.fsb(q.b1), s.fsb(r.b2), s.fsb(t.b3);
    Sum5(rk.b0, XTime(a), Mul3(b), c, d);
    Sum5(rk.b1, a, XTime(b), Mul3(c), d);
    Sum5(rk.b2, a, b, XTime(c), Mul3(d));
    Sum5(rk.b3, Mul3(a), b, c, XTime(d));
  }

  lemma RColumnIsInvMix(s: SBoxes, rk: Word, p: Word, q: Word, r: Word, t: Word)
    ensures RColumn(s, rk, p, q, r, t) == Xor(InvMix(SubWord(s.rsb, Word(p.b0, q.b1, r.b2, t.b3))), rk)
  {
    hide Add, Sum4, Mul9, Mul11, Mul13, Mul14;
    var a, b, c, d := s.rsb(p.b0), s.rsb(q.b1), s.rsb(r.b2), s.rsb(t.b3);
    Sum5(rk.b0, Mul14(a), Mul11(b), Mul13(c), Mul9(d));
    Sum5(rk.b1, Mul9(a), Mul14(b), Mul11(c), Mul13(d));
    Sum5(rk.b2, Mul13(a), Mul9(b), Mul14(c), Mul11(d));
    Sum5(rk.b3, Mul11(a), Mul13(b), Mul9(c), Mul14(d));
  }

  /** The forward tables compute SubBytes, ShiftRows, MixColumns and AddRoundKey. */
  lemma FRoundIsRound(s: SBoxes, k: Block, y: Block)
    ensures FRound(s, k, y) == XorBlock(MixColumns(SubShift(s, y)), k)
  {
    hide FColumn, Mix, Xor;
    FColumnIsMix(s, k.x0, y.x0, y.x1, y.x2, y.x3);
    FColumnIsMix(s, k.x1, y.x1, y.x2, y.x3, y.x0);
    FColumnIsMix(s, k.x2, y.x2, y.x3, y.x0, y.x1);
    FColumnIsMix(s, k.x3, y.x3, y.x0, y.x1, y.x2);
  }

  /** The reverse tables compute InvSubBytes, InvShiftRows, InvMixColumns and AddRoundKey. */
  lemma RRoundIsRound(s: SBoxes, k: Block, y: Block)
    ensures RRound(s, k, y) == XorBlock(InvMixColumns(InvSubShift(s, y)), k)
  {
    hide RColumn, InvMix, Xor;
    RColumnIsInvMix(s, k.x0, y.x0, y.x3, y.x2, y.x1);
    RColumnIsInvMix(s, k.x1, y.x1, y.x0, y.x3, y.x2);
    RColumnIsInvMix(s, k.x2, y.x2, y.x1, y.x0, y.x3);
    RColumnIsInvMix(s, k.x3, y.x3, y.x2, y.x1, y.x0);
  }

  // ---------------------------------------------------------------- inverses

  lemma SubShiftInverse(s: SBoxes, x: Block)
    requires s.Inverse()
    ensures InvSubShift(s, SubShift(s, x)) == x
  {
  }

  lemma InvMixColumnsLinear(x: Block, y: Block)
    ensures InvMixColumns(XorBlock(x, y)) == XorBlock(InvMixColumns(x), InvMixColumns(y))
  {
    hide InvMix, Xor;
    InvMixLinear(x.x0, y.x0);
    InvMixLinear(x.x1, y.x1);
    InvMixLinear(x.x2, y.x2);
    InvMixLinear(x.x3, y.x3);
  }

  lemma InvMixColumnsMixColumns(x: Block)
    ensures InvMixColumns(MixColumns(x)) == x
  {
    hide InvMix, Mix;
    InvMixMix(x.x0);
    InvMixMix(x.x1);
    InvMixMix(x.x2);
    InvMixMix(x.x3);
  }

  /**
   * One decryption round with InvMixColumns of the round key k, after the encryption round
   * with k: from the substituted state after the round to the substituted state before it.
   */
  lemma RoundInverse(s: SBoxes, x: Block, k: Block)
    requires s.Inverse()
    ensures RRound(s, InvMixColumns(k), SubShift(s, FRound(s, k, x))) == SubShift(s, x)
  {
    hide InvMixColumns, MixColumns, SubShift, InvSubShift, XorBlock, RRound, FRound;
    var y := FRound(s, k, x);
    RRoundIsRound(s, InvMixColumns(k), SubShift(s, y));
    SubShiftInverse(s, y);
    FRoundIsRound(s, k, x);
    InvMixColumnsLinear(MixColumns(SubShift(s, x)), k);
    InvMixColumnsMixColumns(SubShift(s, x));
    XorBlockCancel(SubShift(s, x), InvMixColumns(k));
  }

  // ---------------------------------------------------------------- the cipher as functions

  /** Round key r of a schedule. */
  function KeyAt(rk: seq<Word>, r: nat): (k: Block)
    requires 4 * r + 4 <= |rk|
  {
    Block(rk[4 * r], rk[4 * r + 1], rk[4 * r + 2], rk[4 * r + 3])
  }

  /** The state after r encryption rounds. */
  function EncState(s: SBoxes, rk: seq<Word>, x: Block, r: nat): Block
    requires 4 * r + 4 <= |rk|
  {
    if r == 0 then XorBlock(x, KeyAt(rk, 0)) else FRound(s, KeyAt(rk, r), EncState(s, rk, x, r - 1))
  }

  function EncBlock(s: SBoxes, rk: seq<Word>, nr: nat, x: Block): Block
    requires 1 <= nr && 4 * nr + 4 <= |rk|
  {
    XorBlock(KeyAt(rk, nr), SubShift(s, EncState(s, rk, x, nr - 1)))
  }

  /** The state after r decryption rounds. */
  function DecState(s: SBoxes, rk: seq<Word>, x: Block, r: nat): Block
    requires 4 * r + 4 <= |rk|
  {
    if r == 0 then XorBlock(x, KeyAt(rk, 0)) else RRound(s, KeyAt(rk, r), DecState(s, rk, x, r - 1))
  }

  function DecBlock(s: SBoxes, rk: seq<Word>, nr: nat, x: Block): Block
    requires 1 <= nr && 4 * nr + 4 <= |rk|
  {
    XorBlock(KeyAt(rk, nr), InvSubShift(s, DecState(s, rk, x, nr - 1)))
  }

  /**
   * dk is the decryption schedule of ek: the round keys in the opposite order, all but the first
   * and the last passed through InvMixColumns.
   */
  ghost predicate Reversed(ek: seq<Word>, dk: seq<Word>, nr: nat)
  {
    && 4 * nr + 4 <= |ek| && 4 * nr + 4 <= |dk|
    && KeyAt(dk, 0) == KeyAt(ek, nr) && KeyAt(dk, nr) == KeyAt(ek, 0)
    && forall r :: 0 < r < nr ==> KeyAt(dk, r) == InvMixColumns(KeyAt(ek, nr - r))
  }

  /** After r decryption rounds the state is the substituted state before encryption round nr - r. */
  lemma {:induction false} MeetInTheMiddle(s: SBoxes, ek: seq<Word>, dk: seq<Word>, nr: nat, x: Block, r: nat)
    requires s.Inverse() && Reversed(ek, dk, nr) && r < nr
    ensures DecState(s, dk, EncBlock(s, ek, nr, x), r) == SubShift(s, EncState(s, ek, x, nr - 1 - r))
  {
    hide InvMixColumns, SubShift, InvSubShift, XorBlock, RRound, FRound, KeyAt;
    if r == 0 {
      var y := SubShift(s, EncState(s, ek, x, nr - 1));
      XorBlockCommutes(KeyAt(ek, nr), y);
      XorBlockCancel(y, KeyAt(ek, nr));
    } else {
      MeetInTheMiddle(s, ek, dk, nr, x, r - 1);
      RoundInverse(s, EncState(s, ek, x, nr - 1 - r), KeyAt(ek, nr - r));
    }
  }

  /** Decryption under the reversed schedule inverts encryption, for every number of rounds. */
  lemma DecryptInvertsEncrypt(s: SBoxes, ek: seq<Word>, dk: seq<Word>, nr: nat, x: Block)
    requires s.Inverse() && 1 <= nr && Reversed(ek, dk, nr)
    ensures DecBlock(s, dk, nr, EncBlock(s, ek, nr, x)) == x
  {
    hide InvMixColumns, SubShift, InvSubShift, XorBlock, RRound, FRound, KeyAt;
    MeetInTheMiddle(s, ek, dk, nr, x, nr - 1);
    var y := EncState(s, ek, x, 0);
    SubShiftInverse(s, y);
    XorBlockCommutes(KeyAt(ek, 0), y);
    XorBlockCancel(x, KeyAt(ek, 0));
  }

  // ---------------------------------------------------------------- key expansion (FIPS 197, section 5.2)

  /** The round constant of round i, counted from 0: x^i in the lowest byte. */
  function RoundConstant(i: nat): (w: Word)
  {
    Word(PowerOfX(i), ZERO, ZERO, ZERO)
  }

  function PowerOfX(i: nat): (b: Byte)
  {
    if i == 0 then Byte(1) else XTime(PowerOfX(i - 1))
  }

  function RotWord(w: Word): Word
  {
    Word(w.b1, w.b2, w.b3, w.b0)
  }

  /** Word i of the expansion of a key of nk words. */
  function KeyWord(s: SBoxes, key: seq<Word>, i: nat): (w: Word)
    requires |key| in {4, 6, 8}
    decreases i
  {
    var nk := |key|;
    if i < nk then key[i]
    else
      var prev := KeyWord(s, key, i - 1);
      var temp :=
        if i % nk == 0 then Xor(RoundConstant(i / nk - 1), SubWord(s.fsb, RotWord(prev)))
        else if nk > 6 && i % nk == 4 then SubWord(s.fsb, prev)
        else prev;
      Xor(KeyWord(s, key, i - nk), temp)
  }
}
