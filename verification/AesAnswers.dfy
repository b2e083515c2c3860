/**
 * AES against FIPS 197: the recurrence of the key expansion with the generated round constants, and the
 * worked examples of its appendices A.1 and C.1, under the S-box that aes_gen_tables generates.
 */
module AesAnswers {
  import opened Gf256
  import opened Blocks
  import opened Division
  import opened SubstitutionTables
  import opened AesBlock
  import opened AesTables
  import opened Aes

  // ---------------------------------------------------------------- the key expansion

  /** rc[0] is 1 and every constant is x times the one before: what aes_gen_tables leaves in round_constants. */
  ghost predicate IsRoundConstants(rc: seq<Byte>)
  {
    |rc| == 10 && rc[0] == Byte(1) && forall i :: 0 <= i < 9 ==> rc[i + 1] == XTime(rc[i])
  }

  lemma {:induction false} ConstantsArePowers(rc: seq<Byte>, i: nat)
    requires IsRoundConstants(rc) && i < 10
    ensures rc[i] == PowerOfX(i)
  {
    hide XTime;
    if i > 0 {
      ConstantsArePowers(rc, i - 1);
    }
  }

  /** aes_gen_tables leaves such constants. */
  lemma GeneratedConstants(rc: seq<Byte>)
    requires |rc| == 10 && forall i :: 0 <= i < 10 ==> rc[i] == PowerOfX(i)
    ensures IsRoundConstants(rc)
  {
    hide XTime;
    forall i | 0 <= i < 9
      ensures rc[i + 1] == XTime(rc[i])
    {
      assert PowerOfX(i + 1) == XTime(PowerOfX(i));
    }
  }

  /**
   * Section 5.2 of FIPS 197 on the buffer of a context with nk key words: the first word of every group
   * is that of the group before plus the constant, in its lowest byte, plus the substituted bytes 1, 2, 3
   * and 0 of the word before; the others add the word before, substituted at place 4 of a 256-bit key.
   */
  ghost predicate Recurrence(s: SBoxes, rc: seq<Byte>, rk: seq<Word>, nk: nat, nr: nat)
    requires |rc| == 10 && nk in {4, 6, 8} && 4 * nr + 4 <= |rk|
  {
    forall j {:trigger rk[j]} :: nk <= j < 4 * nr + 4 && j / nk <= 10 ==>
      var old0, prev := rk[j - nk], rk[j - 1];
      rk[j] ==
        if j % nk == 0 then
          Word(Add(Add(old0.b0, rc[j / nk - 1]), s.fsb(prev.b1)), Add(old0.b1, s.fsb(prev.b2)),
               Add(old0.b2, s.fsb(prev.b3)), Add(old0.b3, s.fsb(prev.b0)))
        else if nk == 8 && j % nk == 4 then
          Word(Add(old0.b0, s.fsb(prev.b0)), Add(old0.b1, s.fsb(prev.b1)),
               Add(old0.b2, s.fsb(prev.b2)), Add(old0.b3, s.fsb(prev.b3)))
        else
          Word(Add(old0.b0, prev.b0), Add(old0.b1, prev.b1), Add(old0.b2, prev.b2), Add(old0.b3, prev.b3))
  }

  /** After mbedtls_aes_setkey_enc the buffer starts with the key, obeys the recurrence, and has its rounds. */
  lemma ScheduleRecurrence(s: SBoxes, rc: seq<Byte>, key: seq<Word>, ctx: AesContext)
    requires IsRoundConstants(rc) && ctx.Encrypts(s, key)
    ensures ctx.nr == (if |key| == 4 then 10 else if |key| == 6 then 12 else 14)
    ensures 4 * ctx.nr + 4 <= ctx.buf.Length && ctx.buf[..|key|] == key
    ensures Recurrence(s, rc, ctx.buf[..], |key|, ctx.nr)
    ensures (4 * ctx.nr + 3) / |key| <= 10
  {
    hide KeyWord, Add;
    var nk, rk := |key|, ctx.buf[..];
    FirstWords(s, key);
    forall j | nk <= j < 4 * ctx.nr + 4
      ensures j / nk <= 10
    {
      Quotient(j, nk);
    }
    forall j {:trigger rk[j]} | nk <= j < 4 * ctx.nr + 4
      ensures
        var old0, prev := rk[j - nk], rk[j - 1];
        rk[j] ==
          if j % nk == 0 then
            Word(Add(Add(old0.b0, rc[j / nk - 1]), s.fsb(prev.b1)), Add(old0.b1, s.fsb(prev.b2)),
                 Add(old0.b2, s.fsb(prev.b3)), Add(old0.b3, s.fsb(prev.b0)))
          else if nk == 8 && j % nk == 4 then
            Word(Add(old0.b0, s.fsb(prev.b0)), Add(old0.b1, s.fsb(prev.b1)),
                 Add(old0.b2, s.fsb(prev.b2)), Add(old0.b3, s.fsb(prev.b3)))
          else
            Word(Add(old0.b0, prev.b0), Add(old0.b1, prev.b1), Add(old0.b2, prev.b2), Add(old0.b3, prev.b3))
    {
      Quotient(j, nk);
      KeyWordUnfold(s, key, j);
      if j % nk == 0 {
        ConstantsArePowers(rc, j / nk - 1);
        WordSum(rk[j - nk], PowerOfX(j / nk - 1), s, rk[j - 1]);
      }
    }
  }

  lemma Quotient(j: nat, nk: nat)
    requires nk in {4, 6, 8} && nk <= j < 4 * (nk + 6) + 4
    ensures 1 <= j / nk <= 10
  {
  }

  /** The constant goes into the lowest byte. */
  lemma WordSum(old0: Word, c: Byte, s: SBoxes, prev: Word)
    ensures Xor(old0, Xor(Word(c, ZERO, ZERO, ZERO), SubWord(s.fsb, RotWord(prev))))
         == Word(Add(Add(old0.b0, c), s.fsb(prev.b1)), Add(old0.b1, s.fsb(prev.b2)),
                 Add(old0.b2, s.fsb(prev.b3)), Add(old0.b3, s.fsb(prev.b0)))
  {
  }

  // ---------------------------------------------------------------- words and rounds through the table

  function TableWord(w: Word): Word
  {
    Word(Byte(Sb1(w.b0.v)), Byte(Sb1(w.b1.v)), Byte(Sb1(w.b2.v)), Byte(Sb1(w.b3.v)))
  }

  function TableBlock(x: Block): Block
  {
    Block(TableWord(x.x0), TableWord(x.x1), TableWord(x.x2), TableWord(x.x3))
  }

  /** The next round key of a 128-bit key. */
  function NextKey(c: Word, k: Block): Block
  {
    var a := Xor(k.x0, Xor(c, TableWord(RotWord(k.x3))));
    var b := Xor(k.x1, a);
    var d := Xor(k.x2, b);
    Block(a, b, d, Xor(k.x3, d))
  }

  function TableRound(k: Block, x: Block): Block
  {
    XorBlock(MixColumns(ShiftRows(TableBlock(x))), k)
  }

  lemma TableWordIs(s: SBoxes, w: Word)
    requires Standard(s)
    ensures SubWord(s.fsb, w) == TableWord(w)
  {
    hide Sb1;
  }

  lemma TableBlockIs(s: SBoxes, x: Block)
    requires Standard(s)
    ensures SubBytes(s, x) == TableBlock(x)
  {
    hide TableWord, Standard;
    TableWordIs(s, x.x0);
    TableWordIs(s, x.x1);
    TableWordIs(s, x.x2);
    TableWordIs(s, x.x3);
  }

  /** Words 4 i to 4 i + 3 of the expansion. */
  ghost predicate KeyIs(s: SBoxes, key: seq<Word>, i: nat, k: Block)
    requires |key| == 4
  {
    && KeyWord(s, key, 4 * i) == k.x0 && KeyWord(s, key, 4 * i + 1) == k.x1
    && KeyWord(s, key, 4 * i + 2) == k.x2 && KeyWord(s, key, 4 * i + 3) == k.x3
  }

  lemma KeyAdvances(s: SBoxes, key: seq<Word>, i: nat, k: Block)
    requires Standard(s) && |key| == 4 && KeyIs(s, key, i, k)
    ensures KeyIs(s, key, i + 1, NextKey(RoundConstant(i), k))
  {
    hide KeyWord, TableWord, Xor, RoundConstant, SubWord, RotWord, Standard;
    TableWordIs(s, RotWord(k.x3));
    FourPlaces(i);
    KeyWordUnfold(s, key, 4 * i + 4);
    GroupNextIsKeyWord(s, key, i, 1);
    GroupNextIsKeyWord(s, key, i, 2);
    GroupNextIsKeyWord(s, key, i, 3);
  }

  lemma FourPlaces(i: nat)
    ensures (4 * i + 4) % 4 == 0 && (4 * i + 4) / 4 - 1 == i
  {
  }

  /** One more round: the key and the state both advance. */
  lemma RoundAdvances(s: SBoxes, key: seq<Word>, rk: seq<Word>, x: Block, r: nat, k: Block, y: Block)
    requires Standard(s) && r < 9 && IsEncSchedule(s, key, rk) && |key| == 4 && KeyIs(s, key, r, k) && EncState(s, rk, x, r) == y
    ensures var k' := NextKey(RoundConstant(r), k); KeyIs(s, key, r + 1, k') && EncState(s, rk, x, r + 1) == TableRound(k', y)
  {
    hide KeyWord, NextKey, TableBlock, FRound, XorBlock, MixColumns, ShiftRows, SubBytes, Standard;
    KeyAdvances(s, key, r, k);
    FRoundIsRound(s, NextKey(RoundConstant(r), k), y);
    TableBlockIs(s, y);
  }

  // ---------------------------------------------------------------- appendix C.1

  function K0(): Block
  {
    Block(Four(0x00, 0x01, 0x02, 0x03), Four(0x04, 0x05, 0x06, 0x07),
          Four(0x08, 0x09, 0x0A, 0x0B), Four(0x0C, 0x0D, 0x0E, 0x0F))
  }

  function K1(): Block
  {
    Block(Four(0xD6, 0xAA, 0x74, 0xFD), Four(0xD2, 0xAF, 0x72, 0xFA),
          Four(0xDA, 0xA6, 0x78, 0xF1), Four(0xD6, 0xAB, 0x76, 0xFE))
  }

  function K2(): Block
  {
    Block(Four(0xB6, 0x92, 0xCF, 0x0B), Four(0x64, 0x3D, 0xBD, 0xF1),
          Four(0xBE, 0x9B, 0xC5, 0x00), Four(0x68, 0x30, 0xB3, 0xFE))
  }

  function K3(): Block
  {
    Block(Four(0xB6, 0xFF, 0x74, 0x4E), Four(0xD2, 0xC2, 0xC9, 0xBF),
          Four(0x6C, 0x59, 0x0C, 0xBF), Four(0x04, 0x69, 0xBF, 0x41))
  }

  function K4(): Block
  {
    Block(Four(0x47, 0xF7, 0xF7, 0xBC), Four(0x95, 0x35, 0x3E, 0x03),
          Four(0xF9, 0x6C, 0x32, 0xBC), Four(0xFD, 0x05, 0x8D, 0xFD))
  }

  function K5(): Block
  {
    Block(Four(0x3C, 0xAA, 0xA3, 0xE8), Four(0xA9, 0x9F, 0x9D, 0xEB),
          Four(0x50, 0xF3, 0xAF, 0x57), Four(0xAD, 0xF6, 0x22, 0xAA))
  }

  function K6(): Block
  {
    Block(Four(0x5E, 0x39, 0x0F, 0x7D), Four(0xF7, 0xA6, 0x92, 0x96),
          Four(0xA7, 0x55, 0x3D, 0xC1), Four(0x0A, 0xA3, 0x1F, 0x6B))
  }

  function K7(): Block
  {
    Block(Four(0x14, 0xF9, 0x70, 0x1A), Four(0xE3, 0x5F, 0xE2, 0x8C),
          Four(0x44, 0x0A, 0xDF, 0x4D), Four(0x4E, 0xA9, 0xC0, 0x26))
  }

  function K8(): Block
  {
    Block(Four(0x47, 0x43, 0x87, 0x35), Four(0xA4, 0x1C, 0x65, 0xB9),
          Four(0xE0, 0x16, 0xBA, 0xF4), Four(0xAE, 0xBF, 0x7A, 0xD2))
  }

  function K9(): Block
  {
    Block(Four(0x54, 0x99, 0x32, 0xD1), Four(0xF0, 0x85, 0x57, 0x68),
          Four(0x10, 0x93, 0xED, 0x9C), Four(0xBE, 0x2C, 0x97, 0x4E))
  }

  function K10(): Block
  {
    Block(Four(0x13, 0x11, 0x1D, 0x7F), Four(0xE3, 0x94, 0x4A, 0x17),
          Four(0xF3, 0x07, 0xA7, 0x8B), Four(0x4D, 0x2B, 0x30, 0xC5))
  }

  function X0(): Block
  {
    Block(Four(0x00, 0x10, 0x20, 0x30), Four(0x40, 0x50, 0x60, 0x70),
          Four(0x80, 0x90, 0xA0, 0xB0), Four(0xC0, 0xD0, 0xE0, 0xF0))
  }

  function X1(): Block
  {
    Block(Four(0x89, 0xD8, 0x10, 0xE8), Four(0x85, 0x5A, 0xCE, 0x68),
          Four(0x2D, 0x18, 0x43, 0xD8), Four(0xCB, 0x12, 0x8F, 0xE4))
  }

  function X2(): Block
  {
    Block(Four(0x49, 0x15, 0x59, 0x8F), Four(0x55, 0xE5, 0xD7, 0xA0),
          Four(0xDA, 0xCA, 0x94, 0xFA), Four(0x1F, 0x0A, 0x63, 0xF7))
  }

  function X3(): Block
  {
    Block(Four(0xFA, 0x63, 0x6A, 0x28), Four(0x25, 0xB3, 0x39, 0xC9),
          Four(0x40, 0x66, 0x8A, 0x31), Four(0x57, 0x24, 0x4D, 0x17))
  }

  function X4(): Block
  {
    Block(Four(0x24, 0x72, 0x40, 0x23), Four(0x69, 0x66, 0xB3, 0xFA),
          Four(0x6E, 0xD2, 0x75, 0x32), Four(0x88, 0x42, 0x5B, 0x6C))
  }

  function X5(): Block
  {
    Block(Four(0xC8, 0x16, 0x77, 0xBC), Four(0x9B, 0x7A, 0xC9, 0x3B),
          Four(0x25, 0x02, 0x79, 0x92), Four(0xB0, 0x26, 0x19, 0x96))
  }

  function X6(): Block
  {
    Block(Four(0xC6, 0x2F, 0xE1, 0x09), Four(0xF7, 0x5E, 0xED, 0xC3),
          Four(0xCC, 0x79, 0x39, 0x5D), Four(0x84, 0xF9, 0xCF, 0x5D))
  }

  function X7(): Block
  {
    Block(Four(0xD1, 0x87, 0x6C, 0x0F), Four(0x79, 0xC4, 0x30, 0x0A),
          Four(0xB4, 0x55, 0x94, 0xAD), Four(0xD6, 0x6F, 0xF4, 0x1F))
  }

  function X8(): Block
  {
    Block(Four(0xFD, 0xE3, 0xBA, 0xD2), Four(0x05, 0xE5, 0xD0, 0xD7),
          Four(0x35, 0x47, 0x96, 0x4E), Four(0xF1, 0xFE, 0x37, 0xF1))
  }

  function X9(): Block
  {
    Block(Four(0xBD, 0x6E, 0x7C, 0x3D), Four(0xF2, 0xB5, 0x77, 0x9E),
          Four(0x0B, 0x61, 0x21, 0x6E), Four(0x8B, 0x10, 0xB6, 0x89))
  }

  lemma Key1()
    ensures NextKey(RoundConstant(0), K0()) == K1()
  {
  }

  lemma Key2()
    ensures NextKey(RoundConstant(1), K1()) == K2()
  {
  }

  lemma Key3()
    ensures NextKey(RoundConstant(2), K2()) == K3()
  {
  }

  lemma Key4()
    ensures NextKey(RoundConstant(3), K3()) == K4()
  {
  }

  lemma Key5()
    ensures NextKey(RoundConstant(4), K4()) == K5()
  {
  }

  lemma Key6()
    ensures NextKey(RoundConstant(5), K5()) == K6()
  {
  }

  lemma Key7()
    ensures NextKey(RoundConstant(6), K6()) == K7()
  {
  }

  lemma Key8()
    ensures NextKey(RoundConstant(7), K7()) == K8()
  {
  }

  lemma Key9()
    ensures NextKey(RoundConstant(8), K8()) == K9()
  {
  }

  lemma Key10()
    ensures NextKey(RoundConstant(9), K9()) == K10()
  {
  }

  lemma Round1()
    ensures TableRound(K1(), X0()) == X1()
  {
  }

  lemma Round2()
    ensures TableRound(K2(), X1()) == X2()
  {
  }

  lemma Round3()
    ensures TableRound(K3(), X2()) == X3()
  {
  }

  lemma Round4()
    ensures TableRound(K4(), X3()) == X4()
  {
  }

  lemma Round5()
    ensures TableRound(K5(), X4()) == X5()
  {
  }

  lemma Round6()
    ensures TableRound(K6(), X5()) == X6()
  {
  }

  lemma Round7()
    ensures TableRound(K7(), X6()) == X7()
  {
  }

  lemma Round8()
    ensures TableRound(K8(), X7()) == X8()
  {
  }

  lemma Round9()
    ensures TableRound(K9(), X8()) == X9()
  {
  }

  /** The example key 00 01 ... 0f. */
  function ExampleKey(): (b: seq<Byte>)
    ensures |b| == 16
  {
    Bytes16(0x00, 0x01, 0x02, 0x03, 0x04, 0x05, 0x06, 0x07, 0x08, 0x09, 0x0A, 0x0B, 0x0C, 0x0D, 0x0E, 0x0F)
  }

  /** The example block 00 11 ... ff. */
  function ExamplePlain(): (b: seq<Byte>)
    ensures |b| == 16
  {
    Bytes16(0x00, 0x11, 0x22, 0x33, 0x44, 0x55, 0x66, 0x77, 0x88, 0x99, 0xAA, 0xBB, 0xCC, 0xDD, 0xEE, 0xFF)
  }

  function ExampleCipher(): (b: seq<Byte>)
    ensures |b| == 16
  {
    Bytes16(0x69, 0xC4, 0xE0, 0xD8, 0x6A, 0x7B, 0x04, 0x30, 0xD8, 0xCD, 0xB7, 0x80, 0x70, 0xB4, 0xC5, 0x5A)
  }

  lemma ExampleBlocks()
    ensures BlockOf(ExampleKey()) == K0()
    ensures XorBlock(BlockOf(ExamplePlain()), K0()) == X0()
  {
  }

  lemma LastRound()
    ensures BytesOf(XorBlock(K10(), ShiftRows(TableBlock(X9())))) == ExampleCipher()
  {
  }

  lemma KeyWords(s: SBoxes, b: seq<Byte>)
    requires |b| == 16
    ensures |WordsOf(b)| == 4 && KeyIs(s, WordsOf(b), 0, BlockOf(b))
  {
  }

  lemma KeyOfSchedule(s: SBoxes, key: seq<Word>, rk: seq<Word>, r: nat, k: Block)
    requires |key| == 4 && r <= 10 && IsEncSchedule(s, key, rk) && KeyIs(s, key, r, k)
    ensures 4 * r + 4 <= |rk| && KeyAt(rk, r) == k
  {
    hide KeyWord;
  }

  lemma FirstState(s: SBoxes, rk: seq<Word>, x: Block)
    requires 4 <= |rk|
    ensures EncState(s, rk, x, 0) == XorBlock(x, KeyAt(rk, 0))
  {
  }

  /** Nine rounds of the example. */
  lemma ExampleRounds(s: SBoxes, rk: seq<Word>, key: seq<Word>, x: Block, r: nat)
    requires Standard(s) && |rk| >= 44 && IsEncSchedule(s, key, rk) && r == 9
    requires key == WordsOf(ExampleKey()) && x == BlockOf(ExamplePlain())
    ensures |key| == 4 && KeyIs(s, key, r, K9()) && EncState(s, rk, x, r) == X9()
  {
    hide *;
    ExampleBlocks();
    KeyWords(s, ExampleKey());
    KeyOfSchedule(s, key, rk, 0, K0());
    FirstState(s, rk, x);
    Key1();
    RoundAdvances(s, key, rk, x, 0, K0(), X0());
    Round1();
    Key2();
    RoundAdvances(s, key, rk, x, 1, K1(), X1());
    Round2();
    Key3();
    RoundAdvances(s, key, rk, x, 2, K2(), X2());
    Round3();
    Key4();
    RoundAdvances(s, key, rk, x, 3, K3(), X3());
    Round4();
    Key5();
    RoundAdvances(s, key, rk, x, 4, K4(), X4());
    Round5();
    Key6();
    RoundAdvances(s, key, rk, x, 5, K5(), X5());
    Round6();
    Key7();
    RoundAdvances(s, key, rk, x, 6, K6(), X6());
    Round7();
    Key8();
    RoundAdvances(s, key, rk, x, 7, K7(), X7());
    Round8();
    Key9();
    RoundAdvances(s, key, rk, x, 8, K8(), X8());
    Round9();
  }

  /**
   * FIPS 197, appendix C.1: what mbedtls_internal_aes_encrypt makes of the example block x under the
   * schedule that mbedtls_aes_setkey_enc leaves for the example key.
   */
  lemma AesExample(s: SBoxes, rk: seq<Word>, words: seq<Word>, x: Block, nr: nat)
    requires Standard(s) && |rk| >= 44 && IsEncSchedule(s, words, rk) && nr == 10
    requires words == WordsOf(ExampleKey()) && x == BlockOf(ExamplePlain())
    ensures BytesOf(EncBlock(s, rk, nr, x)) == ExampleCipher()
  {
    hide KeyWord, NextKey, TableBlock, EncState, KeyIs, K9, K10, X9, ExampleKey, ExamplePlain, ExampleCipher, BlockOf, BytesOf,
      WordsOf, Standard, RoundConstant, XorBlock, ShiftRows, SubBytes, IsEncSchedule;
    var r: nat := 9;
    ExampleRounds(s, rk, words, x, r);
    KeyAdvances(s, words, r, K9());
    Key10();
    KeyOfSchedule(s, words, rk, r + 1, K10());
    TableBlockIs(s, X9());
    LastRound();
  }

  // ---------------------------------------------------------------- appendix A.1

  lemma FirstExpanded()
    ensures NextKey(RoundConstant(0), Block(Four(0x2B, 0x7E, 0x15, 0x16), Four(0x28, 0xAE, 0xD2, 0xA6),
                                             Four(0xAB, 0xF7, 0x15, 0x88), Four(0x09, 0xCF, 0x4F, 0x3C))).x0
         == Four(0xA0, 0xFA, 0xFE, 0x17)
  {
  }

  /** FIPS 197, appendix A.1: the first word after the key 2b7e1516 28aed2a6 abf71588 09cf4f3c is a0fafe17. */
  lemma FirstExpandedWord(s: SBoxes, ctx: AesContext)
    requires Standard(s)
    requires ctx.Encrypts(s, [Four(0x2B, 0x7E, 0x15, 0x16), Four(0x28, 0xAE, 0xD2, 0xA6),
                              Four(0xAB, 0xF7, 0x15, 0x88), Four(0x09, 0xCF, 0x4F, 0x3C)])
    ensures ctx.buf.Length > 4 && ctx.buf[4] == Four(0xA0, 0xFA, 0xFE, 0x17)
  {
    hide KeyWord, NextKey, Four, Standard, RoundConstant;
    var key := [Four(0x2B, 0x7E, 0x15, 0x16), Four(0x28, 0xAE, 0xD2, 0xA6), Four(0xAB, 0xF7, 0x15, 0x88), Four(0x09, 0xCF, 0x4F, 0x3C)];
    FirstWords(s, key);
    KeyAdvances(s, key, 0, Block(key[0], key[1], key[2], key[3]));
    FirstExpanded();
  }
}
