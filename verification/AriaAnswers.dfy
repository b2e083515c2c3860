/**
 * ARIA against the worked examples of RFC 5794, appendix A, with the substitution boxes of aria.c: the
 * four words of the key schedule for all three key sizes, and a block under a 128-bit key.
 */
module AriaAnswers {
  import opened Gf256
  import opened Blocks
  import opened AriaDiffusion
  import opened Aria
  import opened AriaTables
  import opened SubstitutionTables

  // ---------------------------------------------------------------- layers through the tables

  function OddWord(w: Word): Word
  {
    Word(Byte(Sb1(w.b0.v)), Byte(Sb2(w.b1.v)), Byte(Is1(w.b2.v)), Byte(Is2(w.b3.v)))
  }

  function EvenWord(w: Word): Word
  {
    Word(Byte(Is1(w.b0.v)), Byte(Is2(w.b1.v)), Byte(Sb1(w.b2.v)), Byte(Sb2(w.b3.v)))
  }

  /** FO and FE of RFC 5794, section 2.4.1. */
  function OddRound(x: Block, k: Block): Block
  {
    var y := XorBlock(x, k);
    AriaA(Block(OddWord(y.x0), OddWord(y.x1), OddWord(y.x2), OddWord(y.x3)))
  }

  function EvenRound(x: Block, k: Block): Block
  {
    var y := XorBlock(x, k);
    AriaA(Block(EvenWord(y.x0), EvenWord(y.x1), EvenWord(y.x2), EvenWord(y.x3)))
  }

  /** The last round has no diffusion. */
  function FinalRound(x: Block, k: Block, last: Block): Block
  {
    var y := XorBlock(x, k);
    XorBlock(Block(EvenWord(y.x0), EvenWord(y.x1), EvenWord(y.x2), EvenWord(y.x3)), last)
  }

  lemma TableLayers(x: Block)
    ensures Sl1(Tables(), x) == Block(OddWord(x.x0), OddWord(x.x1), OddWord(x.x2), OddWord(x.x3))
    ensures Sl2(Tables(), x) == Block(EvenWord(x.x0), EvenWord(x.x1), EvenWord(x.x2), EvenWord(x.x3))
  {
    hide Sb1, Sb2, Is1, Is2;
  }

  lemma RoundsAre(x: Block, k: Block, y: Block)
    ensures FoXor(Tables(), x, k, y) == XorBlock(OddRound(x, k), y)
    ensures FeXor(Tables(), x, k, y) == XorBlock(EvenRound(x, k), y)
  {
    hide OddWord, EvenWord, Tables, AriaA, Sl1, Sl2, Xor;
    TableLayers(XorBlock(x, k));
  }

  lemma StateAdvances(rk: seq<Block>, x: Block, r: nat, y: Block)
    requires r < |rk| && State(Tables(), rk, x, r) == y
    ensures State(Tables(), rk, x, r + 1) == if r % 2 == 0 then OddRound(y, rk[r]) else EvenRound(y, rk[r])
  {
    hide OddWord, EvenWord, Tables, AriaA, Sl1, Sl2, Xor;
    TableLayers(XorBlock(y, rk[r]));
  }

  // ---------------------------------------------------------------- the words of the key schedule

  /** RFC 5794, section 2.2: the constants that mask the rounds. */
  function C1(): Block
  {
    Block(Four(0x51, 0x7C, 0xC1, 0xB7), Four(0x27, 0x22, 0x0A, 0x94),
          Four(0xFE, 0x13, 0xAB, 0xE8), Four(0xFA, 0x9A, 0x6E, 0xE0))
  }

  function C2(): Block
  {
    Block(Four(0x6D, 0xB1, 0x4A, 0xCC), Four(0x9E, 0x21, 0xC8, 0x20),
          Four(0xFF, 0x28, 0xB1, 0xD5), Four(0xEF, 0x5D, 0xE2, 0xB0))
  }

  function C3(): Block
  {
    Block(Four(0xDB, 0x92, 0x37, 0x1D), Four(0x21, 0x26, 0xE9, 0x70),
          Four(0x03, 0x24, 0x97, 0x75), Four(0x04, 0xE8, 0xC9, 0x0E))
  }

  /** The rows of the source in the order of the key lengths: 1 2 3, then 2 3 1, then 3 1 2. */
  lemma ConstantOrder()
    ensures RoundConstant(0) == C1() && RoundConstant(1) == C2() && RoundConstant(2) == C3()
    ensures RoundConstant(3) == C1() && RoundConstant(4) == C2()
  {
  }

  function First(): Block
  {
    Block(Four(0x00, 0x01, 0x02, 0x03), Four(0x04, 0x05, 0x06, 0x07),
          Four(0x08, 0x09, 0x0A, 0x0B), Four(0x0C, 0x0D, 0x0E, 0x0F))
  }

  function Rest192(): Block
  {
    Block(Four(0x10, 0x11, 0x12, 0x13), Four(0x14, 0x15, 0x16, 0x17),
          Four(0x00, 0x00, 0x00, 0x00), Four(0x00, 0x00, 0x00, 0x00))
  }

  function Rest256(): Block
  {
    Block(Four(0x10, 0x11, 0x12, 0x13), Four(0x14, 0x15, 0x16, 0x17),
          Four(0x18, 0x19, 0x1A, 0x1B), Four(0x1C, 0x1D, 0x1E, 0x1F))
  }

  function NoRest(): Block
  {
    Block(Four(0x00, 0x00, 0x00, 0x00), Four(0x00, 0x00, 0x00, 0x00),
          Four(0x00, 0x00, 0x00, 0x00), Four(0x00, 0x00, 0x00, 0x00))
  }

  function W1Of128(): Block
  {
    Block(Four(0x2A, 0xFB, 0xEA, 0x74), Four(0x1E, 0x17, 0x46, 0xDD),
          Four(0x55, 0xC6, 0x3B, 0xA1), Four(0xAF, 0xCE, 0xA0, 0xA5))
  }

  function W2Of128(): Block
  {
    Block(Four(0x7C, 0x85, 0x78, 0x01), Four(0x8B, 0xB1, 0x27, 0xE0),
          Four(0x2D, 0xFE, 0x4E, 0x78), Four(0xC2, 0x88, 0xE3, 0x3C))
  }

  function W3Of128(): Block
  {
    Block(Four(0x67, 0x85, 0xB5, 0x2B), Four(0x74, 0xDA, 0x46, 0xBF),
          Four(0x18, 0x10, 0x54, 0x08), Four(0x27, 0x63, 0xFF, 0x6D))
  }

  function LayerOne128(): Block
  {
    Block(Four(0x2A, 0xFB, 0xEA, 0x74), Four(0x1E, 0x17, 0x46, 0xDD),
          Four(0x55, 0xC6, 0x3B, 0xA1), Four(0xAF, 0xCE, 0xA0, 0xA5))
  }

  lemma LayeredOne128()
    ensures OddRound(First(), C1()) == LayerOne128()
  {
  }

  lemma WordOne128()
    ensures XorBlock(LayerOne128(), NoRest()) == W1Of128()
  {
  }

  function LayerTwo128(): Block
  {
    Block(Four(0x7C, 0x84, 0x7A, 0x02), Four(0x8F, 0xB4, 0x21, 0xE7),
          Four(0x25, 0xF7, 0x44, 0x73), Four(0xCE, 0x85, 0xED, 0x33))
  }

  lemma LayeredTwo128()
    ensures EvenRound(W1Of128(), C2()) == LayerTwo128()
  {
  }

  lemma WordTwo128()
    ensures XorBlock(LayerTwo128(), First()) == W2Of128()
  {
  }

  function LayerThree128(): Block
  {
    Block(Four(0x4D, 0x7E, 0x5F, 0x5F), Four(0x6A, 0xCD, 0x00, 0x62),
          Four(0x4D, 0xD6, 0x6F, 0xA9), Four(0x88, 0xAD, 0x5F, 0xC8))
  }

  lemma LayeredThree128()
    ensures OddRound(W2Of128(), C3()) == LayerThree128()
  {
  }

  lemma WordThree128()
    ensures XorBlock(LayerThree128(), W1Of128()) == W3Of128()
  {
  }

  function W1Of192(): Block
  {
    Block(Four(0xE4, 0x8C, 0x52, 0x30), Four(0x1E, 0x91, 0xD9, 0x91),
          Four(0xB6, 0x49, 0xED, 0x7B), Four(0xB7, 0xCD, 0xE8, 0xAD))
  }

  function W2Of192(): Block
  {
    Block(Four(0xA3, 0x56, 0xEA, 0x6C), Four(0xAF, 0xE4, 0x86, 0x97),
          Four(0x97, 0xA1, 0xB4, 0xEE), Four(0xA5, 0x6D, 0x38, 0xCC))
  }

  function W3Of192(): Block
  {
    Block(Four(0xE1, 0x89, 0x8F, 0x2E), Four(0x0E, 0x62, 0x6C, 0xCF),
          Four(0x1F, 0x58, 0xBD, 0x50), Four(0x71, 0x3C, 0x93, 0xBB))
  }

  function LayerOne192(): Block
  {
    Block(Four(0xF4, 0x9D, 0x40, 0x23), Four(0x0A, 0x84, 0xCF, 0x86),
          Four(0xB6, 0x49, 0xED, 0x7B), Four(0xB7, 0xCD, 0xE8, 0xAD))
  }

  lemma LayeredOne192()
    ensures OddRound(First(), C2()) == LayerOne192()
  {
  }

  lemma WordOne192()
    ensures XorBlock(LayerOne192(), Rest192()) == W1Of192()
  {
  }

  function LayerTwo192(): Block
  {
    Block(Four(0xA3, 0x57, 0xE8, 0x6F), Four(0xAB, 0xE1, 0x80, 0x90),
          Four(0x9F, 0xA8, 0xBE, 0xE5), Four(0xA9, 0x60, 0x36, 0xC3))
  }

  lemma LayeredTwo192()
    ensures EvenRound(W1Of192(), C3()) == LayerTwo192()
  {
  }

  lemma WordTwo192()
    ensures XorBlock(LayerTwo192(), First()) == W2Of192()
  {
  }

  function LayerThree192(): Block
  {
    Block(Four(0x05, 0x05, 0xDD, 0x1E), Four(0x10, 0xF3, 0xB5, 0x5E),
          Four(0xA9, 0x11, 0x50, 0x2B), Four(0xC6, 0xF1, 0x7B, 0x16))
  }

  lemma LayeredThree192()
    ensures OddRound(W2Of192(), C1()) == LayerThree192()
  {
  }

  lemma WordThree192()
    ensures XorBlock(LayerThree192(), W1Of192()) == W3Of192()
  {
  }

  function W1Of256(): Block
  {
    Block(Four(0x15, 0x16, 0x9E, 0x6E), Four(0xC5, 0x4A, 0xAF, 0x0C),
          Four(0x97, 0x54, 0x14, 0xFE), Four(0xAD, 0x1C, 0x71, 0xF3))
  }

  function W2Of256(): Block
  {
    Block(Four(0x90, 0xEC, 0x92, 0xC2), Four(0xA8, 0x00, 0x40, 0x5A),
          Four(0xF9, 0x93, 0x89, 0xE9), Four(0xC8, 0x8B, 0x4E, 0x62))
  }

  function W3Of256(): Block
  {
    Block(Four(0xB6, 0x8C, 0xD7, 0xA1), Four(0xBA, 0x16, 0xAB, 0xEE),
          Four(0x90, 0x5F, 0x70, 0x09), Four(0xA8, 0xE9, 0x68, 0xA9))
  }

  function LayerOne256(): Block
  {
    Block(Four(0x05, 0x07, 0x8C, 0x7D), Four(0xD1, 0x5F, 0xB9, 0x1B),
          Four(0x8F, 0x4D, 0x0E, 0xE5), Four(0xB1, 0x01, 0x6F, 0xEC))
  }

  lemma LayeredOne256()
    ensures OddRound(First(), C3()) == LayerOne256()
  {
  }

  lemma WordOne256()
    ensures XorBlock(LayerOne256(), Rest256()) == W1Of256()
  {
  }

  function LayerTwo256(): Block
  {
    Block(Four(0x90, 0xED, 0x90, 0xC1), Four(0xAC, 0x05, 0x46, 0x5D),
          Four(0xF1, 0x9A, 0x83, 0xE2), Four(0xC4, 0x86, 0x40, 0x6D))
  }

  lemma LayeredTwo256()
    ensures EvenRound(W1Of256(), C1()) == LayerTwo256()
  {
  }

  lemma WordTwo256()
    ensures XorBlock(LayerTwo256(), First()) == W2Of256()
  {
  }

  function LayerThree256(): Block
  {
    Block(Four(0xA3, 0x9A, 0x49, 0xCF), Four(0x7F, 0x5C, 0x04, 0xE2),
          Four(0x07, 0x0B, 0x64, 0xF7), Four(0x05, 0xF5, 0x19, 0x5A))
  }

  lemma LayeredThree256()
    ensures OddRound(W2Of256(), C2()) == LayerThree256()
  {
  }

  lemma WordThree256()
    ensures XorBlock(LayerThree256(), W1Of256()) == W3Of256()
  {
  }

  /** The example key 00 01 02 ... of the given length. */
  function ExampleKey(n: nat): (key: seq<Byte>)
    requires n in {16, 24, 32}
    ensures |key| == n
  {
    var a := Bytes16(0x00, 0x01, 0x02, 0x03, 0x04, 0x05, 0x06, 0x07, 0x08, 0x09, 0x0A, 0x0B, 0x0C, 0x0D, 0x0E, 0x0F);
    var b := Bytes16(0x10, 0x11, 0x12, 0x13, 0x14, 0x15, 0x16, 0x17, 0x18, 0x19, 0x1A, 0x1B, 0x1C, 0x1D, 0x1E, 0x1F);
    a + b[..n - 16]
  }

  lemma ExampleKeyParts(n: nat)
    requires n in {16, 24, 32}
    ensures BlockOf(ExampleKey(n)[..16]) == First()
    ensures KeyRest(ExampleKey(n)) == if n == 16 then NoRest() else if n == 24 then Rest192() else Rest256()
  {
    var key := ExampleKey(n);
    assert key[..16] == Bytes16(0x00, 0x01, 0x02, 0x03, 0x04, 0x05, 0x06, 0x07, 0x08, 0x09, 0x0A, 0x0B, 0x0C, 0x0D, 0x0E, 0x0F);
  }

  lemma WordsAre(key: seq<Byte>)
    requires |key| in {16, 24, 32}
    ensures var s, k, f := Tables(), KeyIndex(key), BlockOf(key[..16]);
            && W(s, key, 0) == W(s, key, 4) == f
            && W(s, key, 1) == XorBlock(OddRound(f, RoundConstant(k)), KeyRest(key))
            && W(s, key, 2) == XorBlock(EvenRound(W(s, key, 1), RoundConstant(k + 1)), f)
            && W(s, key, 3) == XorBlock(OddRound(W(s, key, 2), RoundConstant(k + 2)), W(s, key, 1))
  {
    hide OddRound, EvenRound, RoundConstant, FoXor, FeXor, Tables, BlockOf, KeyRest, XorBlock;
    var k, f := KeyIndex(key), BlockOf(key[..16]);
    RoundsAre(f, RoundConstant(k), KeyRest(key));
    RoundsAre(W(Tables(), key, 1), RoundConstant(k + 1), f);
    RoundsAre(W(Tables(), key, 2), RoundConstant(k + 2), W(Tables(), key, 1));
  }

  /** The words of RFC 5794, appendix A, for the example keys of 128, 192 and 256 bits. */
  lemma ExampleWords(n: nat, key: seq<Byte>)
    requires n in {16, 24, 32} && key == ExampleKey(n)
    ensures W(Tables(), key, 0) == First()
    ensures W(Tables(), key, 1) == if n == 16 then W1Of128() else if n == 24 then W1Of192() else W1Of256()
    ensures W(Tables(), key, 2) == if n == 16 then W2Of128() else if n == 24 then W2Of192() else W2Of256()
    ensures W(Tables(), key, 3) == if n == 16 then W3Of128() else if n == 24 then W3Of192() else W3Of256()
  {
    hide *;
    WordsAre(key);
    ExampleKeyParts(n);
    ConstantOrder();
    IndexIs(key);
    if n == 16 {
      LayeredOne128();
      WordOne128();
      LayeredTwo128();
      WordTwo128();
      LayeredThree128();
      WordThree128();
    } else if n == 24 {
      LayeredOne192();
      WordOne192();
      LayeredTwo192();
      WordTwo192();
      LayeredThree192();
      WordThree192();
    } else {
      LayeredOne256();
      WordOne256();
      LayeredTwo256();
      WordTwo256();
      LayeredThree256();
      WordThree256();
    }
  }

  lemma IndexIs(key: seq<Byte>)
    requires |key| in {16, 24, 32}
    ensures KeyIndex(key) == if |key| == 16 then 0 else if |key| == 24 then 1 else 2
  {
  }

  // ---------------------------------------------------------------- a block under a 128-bit key

  function E0(): Block
  {
    Block(Four(0xD4, 0x15, 0xA7, 0x5C), Four(0x79, 0x4B, 0x85, 0xC5),
          Four(0xE0, 0xD2, 0xA0, 0xB3), Four(0xCB, 0x79, 0x3B, 0xF6))
  }

  function E1(): Block
  {
    Block(Four(0x36, 0x9C, 0x65, 0xE4), Four(0xB1, 0x17, 0x77, 0xAB),
          Four(0x71, 0x3A, 0x3E, 0x1E), Four(0x66, 0x01, 0xB8, 0xF4))
  }

  function E2(): Block
  {
    Block(Four(0x03, 0x68, 0xD4, 0xF1), Four(0x3D, 0x14, 0x49, 0x7B),
          Four(0x65, 0x29, 0xAD, 0x7A), Four(0xC8, 0x09, 0xE7, 0xD0))
  }

  function E3(): Block
  {
    Block(Four(0xC6, 0x44, 0x55, 0x2B), Four(0x54, 0x9A, 0x26, 0x3F),
          Four(0xB8, 0xD0, 0xB5, 0x09), Four(0x06, 0x22, 0x9E, 0xEC))
  }

  function E4(): Block
  {
    Block(Four(0x5F, 0x9C, 0x43, 0x49), Four(0x51, 0xF2, 0xD2, 0xEF),
          Four(0x34, 0x27, 0x87, 0xB1), Four(0xA7, 0x81, 0x79, 0x4C))
  }

  function E5(): Block
  {
    Block(Four(0xAF, 0xEA, 0x2C, 0x0C), Four(0xE7, 0x1D, 0xB6, 0xDE),
          Four(0x42, 0xA4, 0x74, 0x61), Four(0xF4, 0x32, 0x3C, 0x54))
  }

  function E6(): Block
  {
    Block(Four(0x32, 0x42, 0x86, 0xDB), Four(0x44, 0xBA, 0x4D, 0xB6),
          Four(0xC4, 0x4A, 0xC3, 0x06), Four(0xF2, 0xA8, 0x4B, 0x2C))
  }

  function E7(): Block
  {
    Block(Four(0x7F, 0x9F, 0xA9, 0x35), Four(0x74, 0xD8, 0x42, 0xB9),
          Four(0x10, 0x1A, 0x58, 0x06), Four(0x37, 0x71, 0xEB, 0x7B))
  }

  function E8(): Block
  {
    Block(Four(0xAA, 0xB9, 0xC5, 0x77), Four(0x31, 0xFC, 0xD2, 0x13),
          Four(0xAD, 0x56, 0x77, 0x45), Four(0x8F, 0xCF, 0xE6, 0xD4))
  }

  function E9(): Block
  {
    Block(Four(0x2F, 0x44, 0x23, 0xBB), Four(0x06, 0x46, 0x5A, 0xBA),
          Four(0xDA, 0x56, 0x94, 0xA1), Four(0x9E, 0xB8, 0x84, 0x59))
  }

  function E10(): Block
  {
    Block(Four(0x9F, 0x87, 0x72, 0x80), Four(0x8F, 0x5D, 0x58, 0x0D),
          Four(0x81, 0x0E, 0xF8, 0xDD), Four(0xAC, 0x13, 0xAB, 0xEB))
  }

  function E11(): Block
  {
    Block(Four(0x86, 0x84, 0x94, 0x6A), Four(0x15, 0x5B, 0xE7, 0x7E),
          Four(0xF8, 0x10, 0x74, 0x48), Four(0x47, 0xE3, 0x5F, 0xAD))
  }

  function E12(): Block
  {
    Block(Four(0x0F, 0x0A, 0xA1, 0x6D), Four(0xAE, 0xE6, 0x1B, 0xD7),
          Four(0xDF, 0xEE, 0x5A, 0x59), Four(0x99, 0x70, 0xFB, 0x35))
  }

  function X0(): Block
  {
    Block(Four(0x00, 0x11, 0x22, 0x33), Four(0x44, 0x55, 0x66, 0x77),
          Four(0x88, 0x99, 0xAA, 0xBB), Four(0xCC, 0xDD, 0xEE, 0xFF))
  }

  function X1(): Block
  {
    Block(Four(0x7F, 0xC7, 0xF1, 0x2B), Four(0xEF, 0xD0, 0xA0, 0x79),
          Four(0x1D, 0xE8, 0x7F, 0xA9), Four(0x6B, 0x46, 0x9F, 0x52))
  }

  function X2(): Block
  {
    Block(Four(0xAC, 0x8D, 0xE1, 0x7E), Four(0x49, 0xF7, 0xC5, 0x11),
          Four(0x76, 0x18, 0x99, 0x31), Four(0x62, 0xB1, 0x89, 0xE9))
  }

  function X3(): Block
  {
    Block(Four(0xC3, 0xE8, 0xD5, 0x9E), Four(0xC2, 0xE6, 0x2D, 0x52),
          Four(0x49, 0xCA, 0x27, 0x41), Four(0x65, 0x3C, 0xB7, 0xDD))
  }

  function X4(): Block
  {
    Block(Four(0x5D, 0x4A, 0xEB, 0xB1), Four(0x65, 0xE1, 0x41, 0xFF),
          Four(0x75, 0x9F, 0x66, 0x9E), Four(0x1E, 0x85, 0xCC, 0x45))
  }

  function X5(): Block
  {
    Block(Four(0x78, 0x06, 0xE4, 0x69), Four(0xF6, 0x88, 0x74, 0xC5),
          Four(0x00, 0x4B, 0x5F, 0x4A), Four(0x04, 0x6B, 0xBC, 0xFA))
  }

  function X6(): Block
  {
    Block(Four(0x11, 0x0F, 0x93, 0xC9), Four(0xA6, 0x30, 0xCD, 0xD5),
          Four(0x1F, 0x97, 0xD2, 0x20), Four(0x24, 0x13, 0x34, 0x5A))
  }

  function X7(): Block
  {
    Block(Four(0xE0, 0x54, 0x42, 0x8E), Four(0xF0, 0x88, 0xFE, 0xF9),
          Four(0x79, 0x28, 0x24, 0x1C), Four(0xD3, 0xBE, 0x49, 0x9E))
  }

  function X8(): Block
  {
    Block(Four(0x57, 0x34, 0xF3, 0x8E), Four(0xA1, 0xCA, 0x3D, 0xDD),
          Four(0x10, 0x2E, 0x71, 0xF9), Four(0x5E, 0x1D, 0x5F, 0x97))
  }

  function X9(): Block
  {
    Block(Four(0x49, 0x03, 0x32, 0x5B), Four(0xE3, 0xE5, 0x00, 0xCC),
          Four(0xCD, 0x52, 0xFB, 0xA4), Four(0x35, 0x4A, 0x39, 0xAE))
  }

  function X10(): Block
  {
    Block(Four(0xCB, 0x8C, 0x50, 0x8E), Four(0x2C, 0x4F, 0x87, 0x88),
          Four(0x06, 0x39, 0xDC, 0x89), Four(0x6D, 0x25, 0xEC, 0x9D))
  }

  function X11(): Block
  {
    Block(Four(0xE7, 0xE0, 0xD2, 0x45), Four(0x7E, 0xD7, 0x3D, 0x23),
          Four(0xD4, 0x81, 0x42, 0x40), Four(0x95, 0xAF, 0xDC, 0xA0))
  }

  lemma Key0()
    ensures Rotated(First(), W1Of128(), 3, 13) == E0()
  {
  }

  lemma Key1()
    ensures Rotated(W1Of128(), W2Of128(), 3, 13) == E1()
  {
  }

  lemma Key2()
    ensures Rotated(W2Of128(), W3Of128(), 3, 13) == E2()
  {
  }

  lemma Key3()
    ensures Rotated(W3Of128(), First(), 3, 13) == E3()
  {
  }

  lemma Key4()
    ensures Rotated(First(), W1Of128(), 3, 1) == E4()
  {
  }

  lemma Key5()
    ensures Rotated(W1Of128(), W2Of128(), 3, 1) == E5()
  {
  }

  lemma Key6()
    ensures Rotated(W2Of128(), W3Of128(), 3, 1) == E6()
  {
  }

  lemma Key7()
    ensures Rotated(W3Of128(), First(), 3, 1) == E7()
  {
  }

  lemma Key8()
    ensures Rotated(First(), W1Of128(), 1, 29) == E8()
  {
  }

  lemma Key9()
    ensures Rotated(W1Of128(), W2Of128(), 1, 29) == E9()
  {
  }

  lemma Key10()
    ensures Rotated(W2Of128(), W3Of128(), 1, 29) == E10()
  {
  }

  lemma Key11()
    ensures Rotated(W3Of128(), First(), 1, 29) == E11()
  {
  }

  lemma Key12()
    ensures Rotated(First(), W1Of128(), 0, 31) == E12()
  {
  }

  lemma Round0()
    ensures OddRound(X0(), E0()) == X1()
  {
  }

  lemma Round1()
    ensures EvenRound(X1(), E1()) == X2()
  {
  }

  lemma Round2()
    ensures OddRound(X2(), E2()) == X3()
  {
  }

  lemma Round3()
    ensures EvenRound(X3(), E3()) == X4()
  {
  }

  lemma Round4()
    ensures OddRound(X4(), E4()) == X5()
  {
  }

  lemma Round5()
    ensures EvenRound(X5(), E5()) == X6()
  {
  }

  lemma Round6()
    ensures OddRound(X6(), E6()) == X7()
  {
  }

  lemma Round7()
    ensures EvenRound(X7(), E7()) == X8()
  {
  }

  lemma Round8()
    ensures OddRound(X8(), E8()) == X9()
  {
  }

  lemma Round9()
    ensures EvenRound(X9(), E9()) == X10()
  {
  }

  lemma Round10()
    ensures OddRound(X10(), E10()) == X11()
  {
  }

  function ExamplePlain(): (b: seq<Byte>)
    ensures |b| == 16
  {
    Bytes16(0x00, 0x11, 0x22, 0x33, 0x44, 0x55, 0x66, 0x77, 0x88, 0x99, 0xAA, 0xBB, 0xCC, 0xDD, 0xEE, 0xFF)
  }

  function ExampleCipher(): (b: seq<Byte>)
    ensures |b| == 16
  {
    Bytes16(0xD7, 0x18, 0xFB, 0xD6, 0xAB, 0x64, 0x4C, 0x73, 0x9D, 0xA9, 0x5F, 0x3B, 0xE6, 0x45, 0x17, 0x78)
  }

  lemma LastRound()
    ensures BytesOf(FinalRound(X11(), E11(), E12())) == ExampleCipher()
  {
  }

  lemma FirstBlock()
    ensures BlockOf(ExamplePlain()) == X0()
  {
  }

  lemma KeyFromWords(key: seq<Byte>, i: nat, a: Block, b: Block)
    requires |key| == 16 && i < 13 && W(Tables(), key, i % 4) == a && W(Tables(), key, (i + 1) % 4) == b
    ensures EncKey(Tables(), key, i)
         == if i < 4 then Rotated(a, b, 3, 13) else if i < 8 then Rotated(a, b, 3, 1)
            else if i < 12 then Rotated(a, b, 1, 29) else Rotated(a, b, 0, 31)
  {
    hide W, Rotated;
    WPeriod(Tables(), key, i % 4);
    WPeriod(Tables(), key, (i + 1) % 4);
  }

  /** The round keys of the example. */
  lemma ExampleKeys(key: seq<Byte>, i: nat)
    requires key == ExampleKey(16) && i < 13
    ensures EncKey(Tables(), key, i) == if i == 0 then E0() else if i == 1 then E1() else if i == 2 then E2() else if i == 3 then E3() else if i == 4 then E4() else if i == 5 then E5()
                                        else if i == 6 then E6() else if i == 7 then E7() else if i == 8 then E8() else if i == 9 then E9() else if i == 10 then E10() else if i == 11 then E11() else E12()
  {
    hide *;
    ExampleWords(16, key);
    KeyFromWords(key, i, W(Tables(), key, i % 4), W(Tables(), key, (i + 1) % 4));
    Key0();
    Key1();
    Key2();
    Key3();
    Key4();
    Key5();
    Key6();
    Key7();
    Key8();
    Key9();
    Key10();
    Key11();
    Key12();
  }

  /** The keys of the schedule in use are those of the example. */
  ghost predicate ExampleSchedule(rk: seq<Block>)
  {
    && |rk| == 17 && rk[0] == E0() && rk[1] == E1() && rk[2] == E2() && rk[3] == E3() && rk[4] == E4() && rk[5] == E5()
    && rk[6] == E6() && rk[7] == E7() && rk[8] == E8() && rk[9] == E9() && rk[10] == E10() && rk[11] == E11() && rk[12] == E12()
  }

  lemma ScheduleIsExample(rk: seq<Block>, key: seq<Byte>)
    requires key == ExampleKey(16) && |rk| == 17 && forall i :: 0 <= i < 17 ==> rk[i] == EncKey(Tables(), key, i)
    ensures ExampleSchedule(rk)
  {
    hide EncKey, ExampleKey, Tables, E0, E1, E2, E3, E4, E5, E6, E7, E8, E9, E10, E11, E12;
    forall i | 0 <= i < 13
      ensures rk[i] == EncKey(Tables(), key, i)
    {
      ExampleKeys(key, i);
    }
    ExampleKeys(key, 0);
    ExampleKeys(key, 1);
    ExampleKeys(key, 2);
    ExampleKeys(key, 3);
    ExampleKeys(key, 4);
    ExampleKeys(key, 5);
    ExampleKeys(key, 6);
    ExampleKeys(key, 7);
    ExampleKeys(key, 8);
    ExampleKeys(key, 9);
    ExampleKeys(key, 10);
    ExampleKeys(key, 11);
    ExampleKeys(key, 12);
  }

  /**
   * RFC 5794, appendix A.1: what mbedtls_aria_crypt_ecb makes of the example block x under the keys that
   * mbedtls_aria_setkey_enc leaves for the example key.
   */
  lemma AriaExample(rk: seq<Block>, key: seq<Byte>, x: Block, nr: nat)
    requires key == ExampleKey(16) && x == BlockOf(ExamplePlain()) && nr == 12
    requires |rk| == 17 && forall i :: 0 <= i < 17 ==> rk[i] == EncKey(Tables(), key, i)
    ensures BytesOf(Crypt(Tables(), rk, nr, x)) == ExampleCipher()
  {
    hide EncKey, ExampleKey, ExamplePlain, ExampleCipher, BlockOf, BytesOf, State, Tables, OddRound, EvenRound, FinalRound, Crypt,
      E0, E1, E2, E3, E4, E5, E6, E7, E8, E9, E10, E11, E12,
      X0, X1, X2, X3, X4, X5, X6, X7, X8, X9, X10, X11;
    ScheduleIsExample(rk, key);
    FirstBlock();
    StartState(rk, x);
    StateAdvances(rk, x, 0, X0());
    Round0();
    StateAdvances(rk, x, 1, X1());
    Round1();
    StateAdvances(rk, x, 2, X2());
    Round2();
    StateAdvances(rk, x, 3, X3());
    Round3();
    StateAdvances(rk, x, 4, X4());
    Round4();
    StateAdvances(rk, x, 5, X5());
    Round5();
    StateAdvances(rk, x, 6, X6());
    Round6();
    StateAdvances(rk, x, 7, X7());
    Round7();
    StateAdvances(rk, x, 8, X8());
    Round8();
    StateAdvances(rk, x, 9, X9());
    Round9();
    StateAdvances(rk, x, 10, X10());
    Round10();
    Finish(rk, x, nr);
    LastRound();
  }

  lemma StartState(rk: seq<Block>, x: Block)
    ensures State(Tables(), rk, x, 0) == x
  {
  }

  lemma Finish(rk: seq<Block>, x: Block, nr: nat)
    requires 0 < nr < |rk| && nr % 2 == 0
    ensures Crypt(Tables(), rk, nr, x) == FinalRound(State(Tables(), rk, x, nr - 1), rk[nr - 1], rk[nr])
  {
    hide OddWord, EvenWord, Tables, Sl1, Sl2, State, Xor;
    TableLayers(XorBlock(State(Tables(), rk, x, nr - 1), rk[nr - 1]));
  }
}
