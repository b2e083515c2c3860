/**
 * AES-XTS of aes.c: multiplication of the tweak by x in GF(2^128), whole blocks, and ciphertext
 * stealing for a last partial block.
 */
module Xts {
  import opened Bits
  import opened LimbBytes
  import opened Bytes
  import opened BlockModes

  // ---------------------------------------------------------------- the tweak

  /** The n bytes of a number, lowest first: MBEDTLS_PUT_UINT64_LE for n = 8. */
  function BytesOfNat(v: nat, n: nat): (b: seq<Byte>)
    ensures |b| == n
  {
    if n == 0 then [] else [v % 0x100] + BytesOfNat(v / 0x100, n - 1)
  }

  lemma {:induction false} BytesOfNatValue(v: nat, n: nat)
    requires v < Pow2(8 * n)
    ensures ByteVal(BytesOfNat(v, n)) == v
  {
    if n > 0 {
      Pow2Of8(n - 1);
      BytesOfNatValue(v / 0x100, n - 1);
      assert BytesOfNat(v, n)[1..] == BytesOfNat(v / 0x100, n - 1);
    }
  }

  const WORD: int := 0x1_0000_0000_0000_0000

  lemma WordIsPow2()
    ensures Pow2(64) == 0x1_0000_0000_0000_0000 && Pow2(63) == 0x8000_0000_0000_0000
    ensures Pow2(128) == 0x1_0000_0000_0000_0000 * 0x1_0000_0000_0000_0000
  {
    hide Pow2;
    Pow2Of8Is256();
    Pow2Add(8, 8);
    Pow2Add(16, 16);
    Pow2Add(32, 32);
    Pow2Add(64, 64);
    Pow2One();
    Pow2Add(1, 63);
  }

  lemma Pow2Of8Is256()
    ensures Pow2(8) == 0x100
  {
  }

  /** The low word after doubling, with the reduction folded in when the top bit b63 was set. */
  function LowWord(a: nat, b: nat): (r: nat)
    requires a < WORD && b < WORD
  {
    BitXor((2 * a) % WORD, if b / 0x8000_0000_0000_0000 == 1 then 0x87 else 0)
  }

  /** The high word after doubling. */
  function HighWord(a: nat, b: nat): (r: nat)
    requires a < WORD && b < WORD
  {
    BitOr((2 * b) % WORD, a / 0x8000_0000_0000_0000)
  }

  /** mbedtls_gf128mul_x_ble on two 64-bit words */
  function GfMulX(x: Block): (r: Block)
  {
    WordBound(x[..8]);
    WordBound(x[8..]);
    var a, b := ByteVal(x[..8]), ByteVal(x[8..]);
    BytesOfNat(LowWord(a, b), 8) + BytesOfNat(HighWord(a, b), 8)
  }

  lemma WordBound(x: seq<Byte>)
    requires |x| == 8
    ensures ByteVal(x) < WORD
  {
    hide Pow2, ByteVal;
    WordIsPow2();
    ByteValBound(x);
  }

  /**
   * Polynomials over GF(2) as numbers, bit k being the coefficient of x^k: multiplication by x,
   * reduced by x^128 + x^7 + x^2 + x + 1 when the degree reaches 128.
   */
  function PolyMulX(v: nat): (r: nat)
  {
    var w := 2 * v;
    if w < Pow2(128) then w else BitXor(w, Pow2(128) + 0x87)
  }

  /** x^128 + x^7 + x^2 + x + 1 removes the top bit and adds 0x87 to the rest. */
  lemma Reduce(w: nat)
    requires Pow2(128) <= w < 2 * Pow2(128)
    ensures BitXor(w, Pow2(128) + 0x87) == BitXor(w - Pow2(128), 0x87)
  {
    hide Pow2, BitXor;
    WordIsPow2();
    var P := Pow2(128);
    XorBothHigh(w - P, 0x87, 128);
  }

  lemma {:induction false} XorBothHigh(x: nat, y: nat, k: nat)
    requires x < Pow2(k) && y < Pow2(k)
    ensures BitXor(x + Pow2(k), y + Pow2(k)) == BitXor(x, y)
  {
    if k > 0 {
      var p := Pow2(k - 1);
      assert (x + Pow2(k)) / 2 == x / 2 + p && (y + Pow2(k)) / 2 == y / 2 + p;
      assert (x + Pow2(k)) % 2 == x % 2 && (y + Pow2(k)) % 2 == y % 2;
      XorBothHigh(x / 2, y / 2, k - 1);
    }
  }

  lemma WordDoubling(a: nat, b: nat)
    requires a < WORD && b < WORD
    ensures HighWord(a, b) == (2 * b) % WORD + a / 0x8000_0000_0000_0000 < WORD
    ensures LowWord(a, b) < WORD
  {
    hide BitOr, BitXor, Pow2;
    WordIsPow2();
    Pow2One();
    var c := a / 0x8000_0000_0000_0000;
    var h := (2 * b) % WORD / 2;
    assert (2 * b) % WORD == h * 2 && c < 2 && h <= WORD / 2 - 1;
    OrIsSum(h, 1, c);
    XorBound((2 * a) % WORD, if b / 0x8000_0000_0000_0000 == 1 then 0x87 else 0, 64);
  }

  lemma Pow2One()
    ensures Pow2(1) == 2
  {
  }

  /** The word operations compute multiplication by x in GF(2^128). */
  lemma GfMulXIsPolyMulX(x: Block)
    ensures ByteVal(GfMulX(x)) == PolyMulX(ByteVal(x)) < Pow2(128)
  {
    hide BitOr, BitXor, Pow2, ByteVal, LowWord, HighWord, PolyMulX, BytesOfNat;
    var a, b := ByteVal(x[..8]), ByteVal(x[8..]);
    WordBound(x[..8]);
    WordBound(x[8..]);
    WordIsPow2();
    WordDoubling(a, b);
    assert x == x[..8] + x[8..];
    ByteValAppend(x[..8], x[8..]);
    var lo, hi := BytesOfNat(LowWord(a, b), 8), BytesOfNat(HighWord(a, b), 8);
    BytesOfNatValue(LowWord(a, b), 8);
    BytesOfNatValue(HighWord(a, b), 8);
    ByteValAppend(lo, hi);
    WordsArePolynomial(a, b);
    ByteValBound(lo + hi);
  }

  lemma WordsArePolynomial(a: nat, b: nat)
    requires a < WORD && b < WORD
    ensures LowWord(a, b) + WORD * HighWord(a, b) == PolyMulX(a + WORD * b)
  {
    hide BitOr, BitXor, Pow2;
    WordIsPow2();
    WordDoubling(a, b);
    var v := a + WORD * b;
    var lo, hi := (2 * a) % WORD, (2 * b) % WORD + a / 0x8000_0000_0000_0000;
    var w := lo + WORD * hi;
    XorLow(lo, hi, 0x87, 64);
    XorZero(lo);
    if b < 0x8000_0000_0000_0000 {
      assert w == 2 * v;
    } else {
      assert w == 2 * v - WORD * WORD;
      Reduce(2 * v);
    }
  }

  // ---------------------------------------------------------------- XTS as functions

  /** The tweak of block i. */
  function Tweak(t: Block, i: nat): Block
  {
    if i == 0 then t else GfMulX(Tweak(t, i - 1))
  }

  lemma {:induction false} TweakShift(t: Block, i: nat)
    ensures Tweak(GfMulX(t), i) == Tweak(t, i + 1)
  {
    hide GfMulX;
    if i > 0 {
      TweakShift(t, i - 1);
    }
  }

  /** One block: tweak, cipher, tweak. */
  function XtsBlock(c: Cipher, mode: Mode, t: Block, b: Block): (r: Block)
  {
    XorBytes(c.Crypt(mode, XorBytes(b, t)), t)
  }

  lemma XtsBlockInverse(c: Cipher, t: Block, b: Block)
    requires c.Permutation()
    ensures XtsBlock(c, Decrypt, t, XtsBlock(c, Encrypt, t, b)) == b
  {
    hide XorBytes;
    XorBytesCancel(c.enc(XorBytes(b, t)), t);
    XorBytesCancel(b, t);
  }

  /** Whole blocks under consecutive tweaks. */
  function XtsBlocks(c: Cipher, mode: Mode, t: Block, s: seq<Byte>): (r: seq<Byte>)
    requires |s| % 16 == 0
    ensures |r| == |s|
    decreases |s|
  {
    if s == [] then [] else XtsBlock(c, mode, t, s[..16]) + XtsBlocks(c, mode, GfMulX(t), s[16..])
  }

  lemma {:induction false} XtsBlocksInverse(c: Cipher, t: Block, s: seq<Byte>)
    requires c.Permutation() && |s| % 16 == 0
    ensures XtsBlocks(c, Decrypt, t, XtsBlocks(c, Encrypt, t, s)) == s
    decreases |s|
  {
    hide XtsBlock, GfMulX;
    if s != [] {
      var e := XtsBlocks(c, Encrypt, t, s);
      XtsBlockInverse(c, t, s[..16]);
      XtsBlocksInverse(c, GfMulX(t), s[16..]);
      assert e[..16] == XtsBlock(c, Encrypt, t, s[..16]);
      assert e[16..] == XtsBlocks(c, Encrypt, GfMulX(t), s[16..]);
    }
  }

  lemma {:induction false} XtsBlocksAppend(c: Cipher, mode: Mode, t: Block, s: seq<Byte>, b: Block)
    requires |s| % 16 == 0
    ensures XtsBlocks(c, mode, t, s + b) == XtsBlocks(c, mode, t, s) + XtsBlock(c, mode, Tweak(t, |s| / 16), b)
    decreases |s|
  {
    hide XtsBlock, GfMulX;
    if s == [] {
      assert s + b == b && b[..16] == b && b[16..] == [];
    } else {
      XtsBlocksAppend(c, mode, GfMulX(t), s[16..], b);
      TweakShift(t, |s| / 16 - 1);
      assert (s + b)[..16] == s[..16] && (s + b)[16..] == s[16..] + b;
    }
  }

  /** The tweak numbers of the last full block and of the left-over bytes; decryption exchanges them. */
  function FullTweak(mode: Mode, n: nat): nat
    requires n > 0
  {
    if mode == Decrypt then n else n - 1
  }

  function LeftTweak(mode: Mode, n: nat): nat
    requires n > 0
  {
    if mode == Decrypt then n - 1 else n
  }

  /**
   * A data unit: whole blocks, or ciphertext stealing. With left-over bytes the last full block is
   * processed first; its tail completes the left-over bytes to a block, which takes its place, and
   * its head becomes the short end of the result.
   */
  function XtsUnit(c: Cipher, mode: Mode, t: Block, s: seq<Byte>): (r: seq<Byte>)
    requires |s| >= 16
    ensures |r| == |s|
  {
    var n, left := |s| / 16, |s| % 16;
    if left == 0 then XtsBlocks(c, mode, t, s)
    else
      var full: Block := XtsBlock(c, mode, Tweak(t, FullTweak(mode, n)), s[16 * (n - 1)..16 * n]);
      var joined: Block := s[16 * n..] + full[left..];
      XtsBlocks(c, mode, t, s[..16 * (n - 1)])
      + XtsBlock(c, mode, Tweak(t, LeftTweak(mode, n)), joined)
      + full[..left]
  }

  /** XTS decryption inverts XTS encryption for every length of at least one block. */
  lemma XtsInverse(c: Cipher, t: Block, s: seq<Byte>)
    requires c.Permutation() && |s| >= 16
    ensures XtsUnit(c, Decrypt, t, XtsUnit(c, Encrypt, t, s)) == s
  {
    hide XtsBlock, GfMulX, Tweak, XtsBlocks;
    var n, left := |s| / 16, |s| % 16;
    if left == 0 {
      XtsBlocksInverse(c, t, s);
    } else {
      var p := s[16 * (n - 1)..16 * n];
      var full: Block := XtsBlock(c, Encrypt, Tweak(t, n - 1), p);
      var joined: Block := s[16 * n..] + full[left..];
      var stolen: Block := XtsBlock(c, Encrypt, Tweak(t, n), joined);
      var head := XtsBlocks(c, Encrypt, t, s[..16 * (n - 1)]);
      var e := XtsUnit(c, Encrypt, t, s);
      assert e[..16 * (n - 1)] == head && e[16 * (n - 1)..16 * n] == stolen && e[16 * n..] == full[..left];
      XtsBlocksInverse(c, t, s[..16 * (n - 1)]);
      XtsBlockInverse(c, Tweak(t, n), joined);
      assert joined[left..] == full[left..] && joined[..left] == s[16 * n..];
      assert full[..left] + full[left..] == full;
      XtsBlockInverse(c, Tweak(t, n - 1), p);
      assert s == s[..16 * (n - 1)] + p + s[16 * n..];
    }
  }

  // ---------------------------------------------------------------- the equations of the standard

  /** Multiplication by x, j times. */
  function TimesX(v: nat, j: nat): nat
  {
    if j == 0 then v else PolyMulX(TimesX(v, j - 1))
  }

  /** Multiplying x^127 by x gives x^7 + x^2 + x + 1. */
  lemma ReductionPolynomial()
    ensures PolyMulX(Pow2(127)) == 0x80 + 0x04 + 0x02 + 0x01
  {
    hide Pow2, BitXor;
    WordIsPow2();
    Pow2One();
    Pow2Add(1, 127);
    Reduce(2 * Pow2(127));
    XorCommutes(0, 0x87);
    XorZero(0x87);
  }

  /** tj is the tweak t times x^j in GF(2^128), lowest byte first. */
  ghost predicate IsTweak(t: Block, j: nat, tj: Block)
  {
    ByteVal(tj) == TimesX(ByteVal(t), j)
  }

  /** y is the cipher of x under tweak number j: y + t_j == E(x + t_j). */
  ghost predicate Ciphered(c: Cipher, mode: Mode, t: Block, j: nat, x: Block, y: Block)
  {
    exists tj: Block :: IsTweak(t, j, tj) && XorBytes(y, tj) == c.Crypt(mode, XorBytes(x, tj))
  }

  function BlockAt(s: seq<Byte>, j: nat): (b: Block)
    requires 16 * j + 16 <= |s|
  {
    s[16 * j..16 * j + 16]
  }

  /** The first n blocks are ciphered under the tweaks 0 to n - 1. */
  ghost predicate BlocksCiphered(c: Cipher, mode: Mode, t: Block, s: seq<Byte>, y: seq<Byte>, n: nat)
    requires 16 * n <= |s| == |y|
  {
    forall j :: 0 <= j < n ==> Ciphered(c, mode, t, j, BlockAt(s, j), BlockAt(y, j))
  }

  /**
   * IEEE 1619: of a unit with left-over bytes the last full block is ciphered to full, under the tweak
   * after its own when decrypting; the left-over bytes with the end of full are ciphered to the block in
   * its place, under the other tweak, and the start of full is the short end.
   */
  ghost predicate Stolen(c: Cipher, mode: Mode, t: Block, s: seq<Byte>, y: seq<Byte>, n: nat, full: Block)
    requires n > 0 && 16 * n < |s| == |y| < 16 * n + 16
  {
    && Ciphered(c, mode, t, if mode == Encrypt then n - 1 else n, BlockAt(s, n - 1), full)
    && (var joined: Block := s[16 * n..] + full[|s| - 16 * n..];
        Ciphered(c, mode, t, if mode == Encrypt then n else n - 1, joined, BlockAt(y, n - 1)))
    && y[16 * n..] == full[..|s| - 16 * n]
  }

  ghost predicate IsXts(c: Cipher, mode: Mode, t: Block, s: seq<Byte>, y: seq<Byte>)
  {
    && |s| == |y| >= 16
    && var n := |s| / 16;
       if |s| % 16 == 0 then BlocksCiphered(c, mode, t, s, y, n)
       else BlocksCiphered(c, mode, t, s, y, n - 1) && exists full :: Stolen(c, mode, t, s, y, n, full)
  }

  lemma {:induction false} TweakIs(t: Block, j: nat)
    ensures IsTweak(t, j, Tweak(t, j))
  {
    hide GfMulX, PolyMulX, ByteVal;
    if j > 0 {
      TweakIs(t, j - 1);
      GfMulXIsPolyMulX(Tweak(t, j - 1));
    }
  }

  lemma XtsBlockCiphers(c: Cipher, mode: Mode, t: Block, j: nat, x: Block)
    ensures Ciphered(c, mode, t, j, x, XtsBlock(c, mode, Tweak(t, j), x))
  {
    hide XorBytes, Tweak, IsTweak;
    TweakIs(t, j);
    XorBytesCancel(c.Crypt(mode, XorBytes(x, Tweak(t, j))), Tweak(t, j));
  }

  /** Block j of a run of whole blocks. */
  lemma {:induction false} XtsBlocksAt(c: Cipher, mode: Mode, t: Block, s: seq<Byte>, j: nat)
    requires |s| % 16 == 0 && 16 * j + 16 <= |s|
    ensures BlockAt(XtsBlocks(c, mode, t, s), j) == XtsBlock(c, mode, Tweak(t, j), BlockAt(s, j))
    decreases |s|
  {
    hide XtsBlock, GfMulX;
    var y := XtsBlocks(c, mode, t, s);
    if j == 0 {
      assert y[..16] == XtsBlock(c, mode, t, s[..16]);
    } else {
      XtsBlocksAt(c, mode, GfMulX(t), s[16..], j - 1);
      TweakShift(t, j - 1);
      assert BlockAt(s[16..], j - 1) == BlockAt(s, j);
      assert BlockAt(y[16..], j - 1) == BlockAt(y, j);
    }
  }

  /** What XTS makes of a data unit satisfies the equations, for every length. */
  lemma XtsUnitIsXts(c: Cipher, mode: Mode, t: Block, s: seq<Byte>)
    requires |s| >= 16
    ensures IsXts(c, mode, t, s, XtsUnit(c, mode, t, s))
  {
    hide XtsBlock, XtsBlocks, Tweak, Ciphered;
    var n, left, y := |s| / 16, |s| % 16, XtsUnit(c, mode, t, s);
    if left == 0 {
      WholeBlocksCiphered(c, mode, t, s);
    } else {
      var m := n - 1;
      var full: Block := XtsBlock(c, mode, Tweak(t, FullTweak(mode, n)), s[16 * m..16 * n]);
      var joined: Block := s[16 * n..] + full[left..];
      var stolen: Block := XtsBlock(c, mode, Tweak(t, LeftTweak(mode, n)), joined);
      var head := XtsBlocks(c, mode, t, s[..16 * m]);
      UnitPieces(head, stolen, full[..left], m);
      XtsBlockCiphers(c, mode, t, FullTweak(mode, n), BlockAt(s, m));
      XtsBlockCiphers(c, mode, t, LeftTweak(mode, n), joined);
      assert Stolen(c, mode, t, s, y, n, full);
      HeadCiphered(c, mode, t, s, y, m);
    }
  }

  lemma UnitPieces(head: seq<Byte>, stolen: Block, end: seq<Byte>, m: nat)
    requires |head| == 16 * m
    ensures var y := head + stolen + end;
            BlockAt(y, m) == stolen && y[16 * m + 16..] == end && y[..16 * m] == head
  {
  }

  lemma WholeBlocksCiphered(c: Cipher, mode: Mode, t: Block, s: seq<Byte>)
    requires |s| % 16 == 0
    ensures BlocksCiphered(c, mode, t, s, XtsBlocks(c, mode, t, s), |s| / 16)
  {
    hide XtsBlock, XtsBlocks, Tweak, Ciphered, BlockAt;
    forall j | 0 <= j < |s| / 16
      ensures Ciphered(c, mode, t, j, BlockAt(s, j), BlockAt(XtsBlocks(c, mode, t, s), j))
    {
      XtsBlocksAt(c, mode, t, s, j);
      XtsBlockCiphers(c, mode, t, j, BlockAt(s, j));
    }
  }

  lemma HeadCiphered(c: Cipher, mode: Mode, t: Block, s: seq<Byte>, y: seq<Byte>, m: nat)
    requires 16 * m <= |s| == |y| && y[..16 * m] == XtsBlocks(c, mode, t, s[..16 * m])
    ensures BlocksCiphered(c, mode, t, s, y, m)
  {
    hide XtsBlock, XtsBlocks, Ciphered;
    WholeBlocksCiphered(c, mode, t, s[..16 * m]);
    forall j | 0 <= j < m
      ensures Ciphered(c, mode, t, j, BlockAt(s, j), BlockAt(y, j))
    {
      assert BlockAt(s[..16 * m], j) == BlockAt(s, j) && BlockAt(y[..16 * m], j) == BlockAt(y, j);
    }
  }

  // ---------------------------------------------------------------- input and output in one buffer

  /** What the last full block becomes before the left-over bytes are treated. */
  function LastFull(c: Cipher, mode: Mode, t: Block, s: seq<Byte>): Block
    requires |s| >= 16
  {
    var n := |s| / 16;
    XtsBlock(c, mode, Tweak(t, FullTweak(mode, n)), s[16 * (n - 1)..16 * n])
  }

  /**
   * The bytes that the data unit is processed as. In one buffer the short end of the result is written
   * before the left-over bytes are read, and takes their place.
   */
  function Seen(c: Cipher, mode: Mode, t: Block, s: seq<Byte>, inPlace: bool): (r: seq<Byte>)
    requires |s| >= 16
    ensures |r| == |s| && r[..16 * (|s| / 16)] == s[..16 * (|s| / 16)]
  {
    var at := 16 * (|s| / 16);
    if inPlace then s[..at] + LastFull(c, mode, t, s)[..|s| % 16] else s
  }

  /** Different blocks stay different. */
  ghost predicate OneToOne(c: Cipher, mode: Mode)
  {
    forall x: Block, y: Block :: c.Crypt(mode, x) == c.Crypt(mode, y) ==> x == y
  }

  lemma EncryptionOneToOne(c: Cipher)
    requires c.Permutation()
    ensures OneToOne(c, Encrypt)
  {
    forall x: Block, y: Block | c.enc(x) == c.enc(y)
      ensures x == y
    {
      assert c.dec(c.enc(x)) == x && c.dec(c.enc(y)) == y;
    }
  }

  lemma XtsBlockOneToOne(c: Cipher, mode: Mode, t: Block, x: Block, y: Block)
    requires OneToOne(c, mode) && XtsBlock(c, mode, t, x) == XtsBlock(c, mode, t, y)
    ensures x == y
  {
    hide XorBytes;
    XorBytesCancel(c.Crypt(mode, XorBytes(x, t)), t);
    XorBytesCancel(c.Crypt(mode, XorBytes(y, t)), t);
    XorBytesCancel(x, t);
    XorBytesCancel(y, t);
  }

  /** One buffer gives the data unit exactly when the left-over bytes are the head of the processed last block. */
  lemma InPlaceExact(c: Cipher, mode: Mode, t: Block, s: seq<Byte>)
    requires |s| >= 16 && OneToOne(c, mode)
    ensures XtsUnit(c, mode, t, Seen(c, mode, t, s, true)) == XtsUnit(c, mode, t, s)
       <==> s[16 * (|s| / 16)..] == LastFull(c, mode, t, s)[..|s| % 16]
  {
    hide XtsBlock, GfMulX, Tweak, XtsBlocks, OneToOne;
    var n, left := |s| / 16, |s| % 16;
    var r := Seen(c, mode, t, s, true);
    if left == 0 {
      assert r == s;
    } else {
      var full := LastFull(c, mode, t, s);
      SeenPieces(c, mode, t, s);
      var x: Block := s[16 * n..] + full[left..];
      var y: Block := full[..left] + full[left..];
      if XtsUnit(c, mode, t, r) == XtsUnit(c, mode, t, s) {
        var k := LeftTweak(mode, n);
        assert XtsUnit(c, mode, t, s)[16 * (n - 1)..16 * n] == XtsBlock(c, mode, Tweak(t, k), x);
        assert XtsUnit(c, mode, t, r)[16 * (n - 1)..16 * n] == XtsBlock(c, mode, Tweak(t, k), y);
        XtsBlockOneToOne(c, mode, Tweak(t, k), x, y);
        assert x[..left] == y[..left];
      } else {
        assert s == s[..16 * n] + s[16 * n..];
      }
    }
  }

  lemma SeenPieces(c: Cipher, mode: Mode, t: Block, s: seq<Byte>)
    requires |s| >= 16
    ensures var n, r, full := |s| / 16, Seen(c, mode, t, s, true), LastFull(c, mode, t, s);
            && r[16 * n..] == full[..|s| % 16] && LastFull(c, mode, t, r) == full
            && r[16 * (n - 1)..16 * n] == s[16 * (n - 1)..16 * n] && r[..16 * (n - 1)] == s[..16 * (n - 1)]
  {
    hide XtsBlock, Tweak;
    var n, r := |s| / 16, Seen(c, mode, t, s, true);
    assert r[16 * (n - 1)..16 * n] == r[..16 * n][16 * (n - 1)..];
    assert s[16 * (n - 1)..16 * n] == s[..16 * n][16 * (n - 1)..];
    assert r[..16 * (n - 1)] == r[..16 * n][..16 * (n - 1)];
  }

  /** So the left-over bytes do not reach the result at all. */
  lemma LeftOverLost(c: Cipher, mode: Mode, t: Block, s: seq<Byte>, u: seq<Byte>)
    requires |s| == |u| >= 16 && s[..16 * (|s| / 16)] == u[..16 * (|s| / 16)]
    ensures XtsUnit(c, mode, t, Seen(c, mode, t, s, true)) == XtsUnit(c, mode, t, Seen(c, mode, t, u, true))
  {
    hide XtsBlock, Tweak, XtsUnit;
    var n := |s| / 16;
    assert s[16 * (n - 1)..16 * n] == s[..16 * n][16 * (n - 1)..];
    assert u[16 * (n - 1)..16 * n] == u[..16 * n][16 * (n - 1)..];
  }

  // ---------------------------------------------------------------- the implementation

  /** The tweak used for the last full block: with left-over bytes decryption takes the next one. */
  function LastTweak(mode: Mode, n: nat, left: nat): nat
    requires n > 0
  {
    if left > 0 then FullTweak(mode, n) else n - 1
  }

  /** What the whole-block loop has written when `at` bytes are done. */
  ghost predicate BlocksDone(c: Cipher, mode: Mode, t: Block, s: seq<Byte>, at: nat, done: seq<Byte>,
                             tweak: Block, prev: Block)
  {
    var n, left := |s| / 16, |s| % 16;
    && n > 0 && at % 16 == 0 && at <= 16 * n && |done| == at
    && (at < 16 * n ==> done == XtsBlocks(c, mode, t, s[..at]) && tweak == Tweak(t, at / 16))
    && (at == 16 * n ==>
         && done == XtsBlocks(c, mode, t, s[..16 * (n - 1)])
                    + XtsBlock(c, mode, Tweak(t, LastTweak(mode, n, left)), s[16 * (n - 1)..16 * n])
         && (left > 0 ==> (if mode == Decrypt then prev else tweak) == Tweak(t, LeftTweak(mode, n))))
  }

  /** The tweak a block is processed with; the last decrypted block before left-over bytes skips one. */
  function UsedTweak(mode: Mode, tweak: Block, lastWithLeft: bool): Block
  {
    if lastWithLeft && mode == Decrypt then GfMulX(tweak) else tweak
  }

  lemma NextBlockDone(c: Cipher, mode: Mode, t: Block, s: seq<Byte>, at: nat, done: seq<Byte>, tweak: Block, prev: Block)
    requires at + 16 <= |s| && BlocksDone(c, mode, t, s, at, done, tweak, prev)
    ensures var lastWithLeft := |s| % 16 > 0 && at + 16 == 16 * (|s| / 16);
            var used := UsedTweak(mode, tweak, lastWithLeft);
            BlocksDone(c, mode, t, s, at + 16, done + XtsBlock(c, mode, used, s[at..at + 16]), GfMulX(used),
                       if lastWithLeft && mode == Decrypt then tweak else prev)
  {
    hide XtsBlock, GfMulX, XtsBlocks;
    var n, left := |s| / 16, |s| % 16;
    if at + 16 == 16 * n {
      assert at == 16 * (n - 1);
    } else {
      XtsBlocksAppend(c, mode, t, s[..at], s[at..at + 16]);
      assert s[..at + 16] == s[..at] + s[at..at + 16];
    }
  }

  lemma NothingDone(c: Cipher, mode: Mode, t: Block, s: seq<Byte>)
    requires |s| >= 16
    ensures BlocksDone(c, mode, t, s, 0, [], t, t)
  {
  }

  lemma WholeUnitDone(c: Cipher, mode: Mode, t: Block, s: seq<Byte>, inPlace: bool, done: seq<Byte>, tweak: Block, prev: Block)
    requires |s| >= 16 && |s| % 16 == 0 && BlocksDone(c, mode, t, s, |s|, done, tweak, prev)
    ensures done == XtsUnit(c, mode, t, Seen(c, mode, t, s, inPlace))
  {
    hide XtsBlock, GfMulX, XtsBlocks;
    var n := |s| / 16;
    XtsBlocksAppend(c, mode, t, s[..16 * (n - 1)], s[16 * (n - 1)..]);
    assert s == s[..16 * (n - 1)] + s[16 * (n - 1)..];
    assert s[16 * (n - 1)..16 * n] == s[16 * (n - 1)..];
    assert Seen(c, mode, t, s, inPlace) == s;
  }

  /** The block-by-block loop of mbedtls_aes_crypt_xts. */
  method CryptBlocks(c: Cipher, mode: Mode, length: nat, t: Block, input: array<Byte>, output: array<Byte>)
    returns (tweak: Block, prev: Block)
    requires 16 <= length <= input.Length && length <= output.Length
    modifies output
    ensures BlocksDone(c, mode, t, old(input[..length]), 16 * (length / 16), output[..16 * (length / 16)], tweak, prev)
    ensures OnlyWritten(output, 0, 16 * (length / 16))
  {
    hide BlocksDone, XtsBlock, GfMulX, XorBytes;
    ghost var s := input[..length];
    var blocks, left := length / 16, length % 16;
    var at := 0;
    tweak, prev := t, t;
    NothingDone(c, mode, t, s);
    assert output[..0] == [];
    while blocks > 0
      invariant 0 <= blocks && at == 16 * (length / 16 - blocks)
      invariant input[at..length] == s[at..]
      invariant BlocksDone(c, mode, t, s, at, output[..at], tweak, prev)
      invariant OnlyWritten(output, 0, at)
    {
      blocks := blocks - 1;
      ghost var rest, done := input[at + 16..], output[..at];
      NextPiece(input, length, s, at, 16);
      NextBlockDone(c, mode, t, s, at, done, tweak, prev);
      if left > 0 && mode == Decrypt && blocks == 0 {
        prev := tweak;
        tweak := GfMulX(tweak);
      }
      CryptOneBlock(c, mode, tweak, input, output, at);
      assert input[at + 16..length] == rest[..length - at - 16];
      assert output[..at + 16] == done + output[at..at + 16];
      tweak := GfMulX(tweak);
      at := at + 16;
    }
  }

  /** tmp := input ^ tweak; tmp := cipher(tmp); output := tmp ^ tweak */
  method CryptOneBlock(c: Cipher, mode: Mode, tweak: Block, input: array<Byte>, output: array<Byte>, at: nat)
    requires at + 16 <= input.Length && at + 16 <= output.Length
    modifies output
    ensures output[at..at + 16] == XtsBlock(c, mode, tweak, old(input[at..at + 16]))
    ensures OnlyWritten(output, at, 16)
  {
    hide XorBytes;
    var tmp: Block := XorBytes(input[at..at + 16], tweak);
    tmp := c.Crypt(mode, tmp);
    Store(output, at, XorBytes(tmp, tweak));
  }

  /** The left-over bytes, completed by the tail of the block before them. */
  function Joined(rest: seq<Byte>, full: Block): (b: Block)
    requires |rest| <= 16
  {
    rest + full[|rest|..]
  }

  lemma XorPieces(x: seq<Byte>, y: seq<Byte>, t: Block)
    requires |x| + |y| == 16
    ensures XorBytes(x, t[..|x|]) + XorBytes(y, t[|x|..]) == XorBytes(x + y, t)
  {
    hide XorByte;
  }

  /**
   * The ciphertext stealing part of mbedtls_aes_crypt_xts: the left-over bytes and the tail of the
   * block before them are processed as one block, which replaces that block.
   */
  method Steal(c: Cipher, mode: Mode, t: Block, input: array<Byte>, output: array<Byte>, at: nat, left: nat,
               ghost full: Block)
    requires 16 <= at && 0 < left < 16 && at + left <= input.Length && at + left <= output.Length
    requires output[at - 16..at] == full
    modifies output
    ensures output[at - 16..at]
         == XtsBlock(c, mode, t, Joined(if input == output then full[..left] else old(input[at..at + left]), full))
    ensures output[at..at + left] == full[..left]
    ensures OnlyWritten(output, at - 16, 16 + left)
  {
    hide XorBytes;
    var prevOutput := at - 16;
    for i := 0 to left
      invariant output[at..at + i] == full[..i]
      invariant output[prevOutput..at] == full
      invariant OnlyWritten(output, at, left)
    {
      assert output[prevOutput + i] == full[i];
      output[at + i] := output[prevOutput + i];
      assert output[at..at + i + 1] == output[at..at + i] + [full[i]];
    }
    var rest := input[at..at + left];
    assert rest == if input == output then full[..left] else old(input[at..at + left]);
    var tmp: Block := XorBytes(rest, t[..left]) + XorBytes(output[prevOutput + left..at], t[left..]);
    assert output[prevOutput + left..at] == full[left..];
    XorPieces(rest, full[left..], t);
    tmp := c.Crypt(mode, tmp);
    Store(output, prevOutput, XorBytes(tmp, t));
    assert output[at..at + left] == full[..left];
  }

  /**
   * mbedtls_aes_crypt_xts. Input and output may be one buffer; left-over bytes are then not seen.
   */
  method CryptXts(crypt: Cipher, tweakCipher: Cipher, mode: Mode, length: nat, dataUnit: Block,
                  input: array<Byte>, output: array<Byte>)
    returns (status: ModeStatus)
    requires length <= input.Length && length <= output.Length
    modifies output
    ensures status == if 16 <= length <= 0x100_0000 then Success else InvalidInputLength
    ensures status == Success ==>
              var t := tweakCipher.enc(dataUnit);
              output[..length] == XtsUnit(crypt, mode, t, Seen(crypt, mode, t, old(input[..length]), input == output))
    ensures status == Success && (input != output || length % 16 == 0) ==>
              IsXts(crypt, mode, tweakCipher.enc(dataUnit), old(input[..length]), output[..length])
    ensures OnlyWritten(output, 0, if status == Success then length else 0)
  {
    hide XtsUnit, XtsBlock, BlocksDone, XtsBlocks, GfMulX, Seen, IsXts;
    var left := length % 16;
    if length < 16 || length > 0x10_0000 * 16 {
      return InvalidInputLength;
    }
    var tweak0 := tweakCipher.Crypt(Encrypt, dataUnit);
    ghost var s := input[..length];
    var at := 16 * (length / 16);
    var tweak, prev := CryptBlocks(crypt, mode, length, tweak0, input, output);
    if left == 0 {
      WholeUnitDone(crypt, mode, tweak0, s, input == output, output[..length], tweak, prev);
    } else {
      StealUnit(crypt, mode, length, tweak0, input, output, s, tweak, prev);
    }
    SeenWhole(crypt, mode, tweak0, s, input == output);
    XtsUnitIsXts(crypt, mode, tweak0, s);
    status := Success;
  }

  /** The left-over bytes, once the whole blocks are done. */
  method StealUnit(c: Cipher, mode: Mode, length: nat, ghost t: Block, input: array<Byte>, output: array<Byte>,
                   ghost s: seq<Byte>, tweak: Block, prev: Block)
    requires |s| == length && 16 <= length <= input.Length && length <= output.Length && length % 16 > 0
    requires BlocksDone(c, mode, t, s, 16 * (length / 16), output[..16 * (length / 16)], tweak, prev)
    requires input != output ==> input[..length] == s
    modifies output
    ensures output[..length] == XtsUnit(c, mode, t, Seen(c, mode, t, s, input == output))
    ensures OnlyWritten(output, 0, length)
  {
    hide XtsUnit, XtsBlock, BlocksDone, XtsBlocks, GfMulX, Seen, Joined;
    var at, left := 16 * (length / 16), length % 16;
    ghost var done, full := output[..at], output[at - 16..at];
    assert done == done[..at - 16] + full;
    assert input != output ==> input[at..at + left] == s[at..] by {
      assert input[at..at + left] == input[..length][at..];
    }
    Steal(c, mode, if mode == Decrypt then prev else tweak, input, output, at, left, full);
    StolenUnitDone(c, mode, t, s, input == output, done[..at - 16], full, tweak, prev);
    assert output[..at - 16] == done[..at - 16];
    LastPieces(output, at, left);
  }

  lemma LastPieces(x: array<Byte>, at: nat, left: nat)
    requires 16 <= at && at + left <= x.Length
    ensures x[..at + left] == x[..at - 16] + x[at - 16..at] + x[at..at + left]
  {
  }

  lemma StolenUnitDone(c: Cipher, mode: Mode, t: Block, s: seq<Byte>, inPlace: bool, head: seq<Byte>, full: Block,
                       tweak: Block, prev: Block)
    requires |s| >= 16 && |s| % 16 > 0 && BlocksDone(c, mode, t, s, 16 * (|s| / 16), head + full, tweak, prev)
    ensures XtsUnit(c, mode, t, Seen(c, mode, t, s, inPlace))
         == head
            + XtsBlock(c, mode, if mode == Decrypt then prev else tweak,
                       Joined(if inPlace then full[..|s| % 16] else s[16 * (|s| / 16)..], full))
            + full[..|s| % 16]
  {
    hide XtsBlock, GfMulX, XtsBlocks, Seen, Tweak;
    SeenPieces(c, mode, t, s);
    var n := |s| / 16;
    DoneSplits(head, full, XtsBlocks(c, mode, t, s[..16 * (n - 1)]), LastFull(c, mode, t, s));
    SeenElsewhere(c, mode, t, s);
  }

  lemma DoneSplits(head: seq<Byte>, full: Block, head': seq<Byte>, full': Block)
    requires head + full == head' + full'
    ensures head == head' && full == full'
  {
    assert |head| == |head'|;
    assert head == (head + full)[..|head|] && head' == (head' + full')[..|head|];
    assert full == (head + full)[|head|..] && full' == (head' + full')[|head|..];
  }

  lemma SeenWhole(c: Cipher, mode: Mode, t: Block, s: seq<Byte>, inPlace: bool)
    requires |s| >= 16
    ensures !inPlace || |s| % 16 == 0 ==> Seen(c, mode, t, s, inPlace) == s
  {
    hide LastFull;
    assert s[..|s|] == s;
  }

  lemma SeenElsewhere(c: Cipher, mode: Mode, t: Block, s: seq<Byte>)
    requires |s| >= 16
    ensures Seen(c, mode, t, s, false) == s
  {
  }
}
