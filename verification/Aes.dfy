/**
 * The AES context of aes.c: both key schedules and the block operations on it.
 */
module Aes {
  import opened Gf256
  import opened Blocks
  import opened Division
  import opened AesBlock

  datatype AesStatus = Success | InvalidKeyLength | InvalidInputLength | BadInputData

  /** MBEDTLS_GET_UINT32_LE of consecutive words. */
  function WordsOf(key: seq<Byte>): (w: seq<Word>)
    requires |key| % 4 == 0
    ensures |w| == |key| / 4
  {
    seq(|key| / 4, i requires 0 <= i < |key| / 4 => Word(key[4 * i], key[4 * i + 1], key[4 * i + 2], key[4 * i + 3]))
  }

  /** Rounds for a key of the given number of words. */
  function Rounds(nk: nat): (nr: nat)
    requires nk in {4, 6, 8}
    ensures nr in {10, 12, 14}
  {
    nk + 6
  }

  /** The encryption schedule of a key. */
  ghost predicate IsEncSchedule(s: SBoxes, key: seq<Word>, rk: seq<Word>)
  {
    && |key| in {4, 6, 8} && 4 * Rounds(|key|) + 4 <= |rk|
    && forall i :: 0 <= i < 4 * Rounds(|key|) + 4 ==> rk[i] == KeyWord(s, key, i)
  }

  lemma WordAssoc(x: Word, y: Word, z: Word)
    ensures Xor(Xor(x, y), z) == Xor(x, Xor(y, z))
  {
    hide Add;
    Assoc(x.b0, y.b0, z.b0);
    Assoc(x.b1, y.b1, z.b1);
    Assoc(x.b2, y.b2, z.b2);
    Assoc(x.b3, y.b3, z.b3);
  }

  /** The first word of a group: RK[0] ^ constant ^ substituted, rotated RK[nk - 1]. */
  function GroupStart(s: SBoxes, first: Word, last: Word, i: nat): Word
  {
    Xor(Xor(first, RoundConstant(i)), Word(s.fsb(last.b1), s.fsb(last.b2), s.fsb(last.b3), s.fsb(last.b0)))
  }

  lemma GroupStartIsKeyWord(s: SBoxes, key: seq<Word>, i: nat)
    requires |key| in {4, 6, 8}
    ensures KeyWord(s, key, |key| * (i + 1))
         == GroupStart(s, KeyWord(s, key, |key| * i), KeyWord(s, key, |key| * i + |key| - 1), i)
  {
    hide Xor, RoundConstant, KeyWord;
    var nk := |key|;
    PlaceInGroup(nk, i, 0);
    KeyWordUnfold(s, key, nk * (i + 1));
    WordAssoc(KeyWord(s, key, nk * i), RoundConstant(i), SubWord(s.fsb, RotWord(KeyWord(s, key, nk * i + nk - 1))));
  }

  lemma PlaceInGroup(nk: nat, i: nat, k: nat)
    requires k < nk
    ensures nk * (i + 1) + k == nk * i + nk + k
    ensures (nk * (i + 1) + k) % nk == k && (nk * (i + 1) + k) / nk == i + 1
  {
    DivUnique(nk * (i + 1) + k, nk, i + 1, k);
  }

  lemma KeyWordUnfold(s: SBoxes, key: seq<Word>, i: nat)
    requires |key| in {4, 6, 8} && |key| <= i
    ensures var nk := |key|; var prev := KeyWord(s, key, i - 1);
            KeyWord(s, key, i) == Xor(KeyWord(s, key, i - nk),
              if i % nk == 0 then Xor(RoundConstant(i / nk - 1), SubWord(s.fsb, RotWord(prev)))
              else if nk > 6 && i % nk == 4 then SubWord(s.fsb, prev)
              else prev)
  {
  }

  /** The other words of a group: RK[k] ^ RK[nk + k - 1]. */
  lemma GroupNextIsKeyWord(s: SBoxes, key: seq<Word>, i: nat, k: nat)
    requires |key| in {4, 6, 8} && 0 < k < |key|
    ensures KeyWord(s, key, |key| * (i + 1) + k)
         == Xor(KeyWord(s, key, |key| * i + k),
                if |key| == 8 && k == 4 then SubWord(s.fsb, KeyWord(s, key, |key| * (i + 1) + k - 1))
                else KeyWord(s, key, |key| * (i + 1) + k - 1))
  {
    hide Xor, RoundConstant, KeyWord;
    var nk := |key|;
    PlaceInGroup(nk, i, k);
    KeyWordUnfold(s, key, nk * (i + 1) + k);
  }

  /** mbedtls_aes_context without hardware support: rk_offset is 0. */
  class AesContext {
    var nr: nat
    const buf: array<Word>

    constructor ()
      ensures buf.Length == 68 && fresh(buf)
    {
      nr := 0;
      buf := new Word[68](_ => Word(ZERO, ZERO, ZERO, ZERO));
    }

    /** The context holds the encryption schedule of the key. */
    ghost predicate Encrypts(s: SBoxes, key: seq<Word>)
      reads this, buf
    {
      |key| in {4, 6, 8} && nr == Rounds(|key|) && IsEncSchedule(s, key, buf[..])
    }

    /** The first n words of the buffer are the key expansion. */
    ghost predicate Expanded(s: SBoxes, key: seq<Word>, n: nat)
      reads buf
    {
      |key| in {4, 6, 8} && n <= buf.Length && forall j :: 0 <= j < n ==> buf[j] == KeyWord(s, key, j)
    }

    /** RK[0] of the next group */
    method StartGroup(s: SBoxes, rk: nat, nk: nat, i: nat, ghost key: seq<Word>)
      requires nk == |key| && rk == nk * i && rk + nk < buf.Length && Expanded(s, key, rk + nk)
      modifies buf
      ensures Expanded(s, key, rk + nk + 1)
    {
      hide KeyWord, GroupStart;
      GroupStartIsKeyWord(s, key, i);
      buf[rk + nk] := GroupStart(s, buf[rk], buf[rk + nk - 1], i);
    }

    /** RK[nk + k] = RK[k] ^ RK[nk + k - 1] */
    method NextWord(s: SBoxes, rk: nat, nk: nat, k: nat, ghost i: nat, ghost key: seq<Word>)
      requires nk == |key| && rk == nk * i && 0 < k < nk && !(nk == 8 && k == 4)
      requires rk + nk + k < buf.Length && Expanded(s, key, rk + nk + k)
      modifies buf
      ensures Expanded(s, key, rk + nk + k + 1)
    {
      hide KeyWord, Xor;
      GroupNextIsKeyWord(s, key, i, k);
      assert nk * (i + 1) == rk + nk;
      buf[rk + nk + k] := Xor(buf[rk + k], buf[rk + nk + k - 1]);
    }

    method ExpandKey128(s: SBoxes, ghost key: seq<Word>)
      requires buf.Length == 68 && |key| == 4 && Expanded(s, key, 4)
      modifies buf
      ensures Expanded(s, key, 44)
    {
      hide Expanded;
      var rk := 0;
      for i := 0 to 10
        invariant rk == 4 * i && Expanded(s, key, rk + 4)
      {
        StartGroup(s, rk, 4, i, key);
        NextWord(s, rk, 4, 1, i, key);
        NextWord(s, rk, 4, 2, i, key);
        NextWord(s, rk, 4, 3, i, key);
        rk := rk + 4;
      }
    }

    method ExpandKey192(s: SBoxes, ghost key: seq<Word>)
      requires buf.Length == 68 && |key| == 6 && Expanded(s, key, 6)
      modifies buf
      ensures Expanded(s, key, 54)
    {
      hide Expanded;
      var rk := 0;
      for i := 0 to 8
        invariant rk == 6 * i && Expanded(s, key, rk + 6)
      {
        StartGroup(s, rk, 6, i, key);
        NextWord(s, rk, 6, 1, i, key);
        NextWord(s, rk, 6, 2, i, key);
        NextWord(s, rk, 6, 3, i, key);
        NextWord(s, rk, 6, 4, i, key);
        NextWord(s, rk, 6, 5, i, key);
        rk := rk + 6;
      }
    }

    method ExpandKey256(s: SBoxes, ghost key: seq<Word>)
      requires buf.Length == 68 && |key| == 8 && Expanded(s, key, 8)
      modifies buf
      ensures Expanded(s, key, 64)
    {
      hide Expanded;
      var rk := 0;
      for i := 0 to 7
        invariant rk == 8 * i && Expanded(s, key, rk + 8)
      {
        StartGroup(s, rk, 8, i, key);
        NextWord(s, rk, 8, 1, i, key);
        NextWord(s, rk, 8, 2, i, key);
        NextWord(s, rk, 8, 3, i, key);
        MiddleWord(s, rk, i, key);
        NextWord(s, rk, 8, 5, i, key);
        NextWord(s, rk, 8, 6, i, key);
        NextWord(s, rk, 8, 7, i, key);
        rk := rk + 8;
      }
    }

    /** RK[12] of a 256-bit key: RK[4] ^ the substituted RK[11] */
    method MiddleWord(s: SBoxes, rk: nat, ghost i: nat, ghost key: seq<Word>)
      requires |key| == 8 && rk == 8 * i && rk + 12 < buf.Length && Expanded(s, key, rk + 12)
      modifies buf
      ensures Expanded(s, key, rk + 13)
    {
      hide KeyWord, Xor, SubWord;
      GroupNextIsKeyWord(s, key, i, 4);
      assert 8 * (i + 1) == rk + 8;
      buf[rk + 12] := Xor(buf[rk + 4], SubWord(s.fsb, buf[rk + 11]));
    }

    /** mbedtls_aes_setkey_enc */
    method SetKeyEnc(s: SBoxes, key: seq<Byte>, keyBits: nat) returns (ret: AesStatus)
      requires buf.Length == 68 && (keyBits in {128, 192, 256} ==> 8 * |key| == keyBits)
      modifies this`nr, buf
      ensures ret == if keyBits in {128, 192, 256} then Success else InvalidKeyLength
      ensures ret == Success ==> Encrypts(s, WordsOf(key))
      ensures ret != Success ==> nr == old(nr) && buf[..] == old(buf[..])
    {
      hide KeyWord;
      match keyBits {
        case 128 => nr := 10;
        case 192 => nr := 12;
        case 256 => nr := 14;
        case _ => return InvalidKeyLength;
      }
      ghost var words := WordsOf(key);
      for i := 0 to keyBits / 32
        invariant nr == keyBits / 32 + 6
        invariant forall j :: 0 <= j < i ==> buf[j] == words[j]
      {
        buf[i] := Word(key[4 * i], key[4 * i + 1], key[4 * i + 2], key[4 * i + 3]);
      }
      FirstWords(s, words);
      assert Expanded(s, words, keyBits / 32);
      match nr {
        case 10 => ExpandKey128(s, words);
        case 12 => ExpandKey192(s, words);
        case _ => ExpandKey256(s, words);
      }
      ret := Success;
    }

    /** The context holds the decryption schedule of the key. */
    ghost predicate Decrypts(s: SBoxes, key: seq<Word>)
      reads this, buf
    {
      && |key| in {4, 6, 8} && nr == Rounds(|key|) && 4 * nr + 4 <= buf.Length
      && exists ek :: IsEncSchedule(s, key, ek) && Reversed(ek, buf[..], nr)
    }

    /** *RK++ = *SK++, four times */
    method CopyKey(cty: AesContext, rk: nat, sk: nat)
      requires buf != cty.buf && rk + 4 <= buf.Length && sk + 4 <= cty.buf.Length
      modifies buf
      ensures forall j :: rk <= j < rk + 4 ==> buf[j] == cty.buf[sk + (j - rk)]
      ensures forall j :: 0 <= j < buf.Length && !(rk <= j < rk + 4) ==> buf[j] == old(buf[j])
    {
      buf[rk] := cty.buf[sk];
      buf[rk + 1] := cty.buf[sk + 1];
      buf[rk + 2] := cty.buf[sk + 2];
      buf[rk + 3] := cty.buf[sk + 3];
    }

    /** *RK++ = RT0[FSb[.]] ^ RT1[FSb[.]] ^ RT2[FSb[.]] ^ RT3[FSb[.]] of *SK++, four times */
    method InvMixKey(s: SBoxes, cty: AesContext, rk: nat, sk: nat)
      requires buf != cty.buf && rk + 4 <= buf.Length && sk + 4 <= cty.buf.Length && s.Inverse()
      modifies buf
      ensures forall j :: rk <= j < rk + 4 ==> buf[j] == InvMix(cty.buf[sk + (j - rk)])
      ensures forall j :: 0 <= j < buf.Length && !(rk <= j < rk + 4) ==> buf[j] == old(buf[j])
    {
      hide InvMix, RT0, RT1, RT2, RT3, Xor;
      for j := 0 to 4
        invariant forall k :: rk <= k < rk + j ==> buf[k] == InvMix(cty.buf[sk + (k - rk)])
        invariant forall k :: 0 <= k < buf.Length && !(rk <= k < rk + j) ==> buf[k] == old(buf[k])
      {
        var w := cty.buf[sk + j];
        LookupIsInvMix(s, w);
        buf[rk + j] := Xor(Xor(Xor(RT0(s, s.fsb(w.b0)), RT1(s, s.fsb(w.b1))), RT2(s, s.fsb(w.b2))), RT3(s, s.fsb(w.b3)));
      }
    }

    /** mbedtls_aes_setkey_dec: the encryption schedule read backwards, four words at a time. */
    method SetKeyDec(s: SBoxes, key: seq<Byte>, keyBits: nat) returns (ret: AesStatus)
      requires buf.Length == 68 && (keyBits in {128, 192, 256} ==> 8 * |key| == keyBits) && s.Inverse()
      modifies this`nr, buf
      ensures ret == if keyBits in {128, 192, 256} then Success else InvalidKeyLength
      ensures ret == Success ==> Decrypts(s, WordsOf(key))
      ensures ret != Success ==> nr == old(nr) && buf[..] == old(buf[..])
    {
      var cty := new AesContext();
      ret := cty.SetKeyEnc(s, key, keyBits);
      if ret != Success {
        return;
      }
      nr := cty.nr;
      ReverseKeys(s, cty);
    }

    /** The copying loops of mbedtls_aes_setkey_dec. */
    method ReverseKeys(s: SBoxes, cty: AesContext)
      requires buf != cty.buf && buf.Length == cty.buf.Length == 68 && s.Inverse() && nr == cty.nr && nr in {10, 12, 14}
      modifies buf
      ensures Reversed(cty.buf[..], buf[..], nr)
    {
      hide ReversedBelow, InvMix, Reversed;
      var rk, sk := 0, cty.nr * 4;
      CopyKey(cty, rk, sk);
      FirstReversed(cty.buf[..], buf[..], nr);
      rk, sk := rk + 4, sk + 4 - 8;
      var i := nr - 1;
      while i > 0
        invariant 0 <= i <= nr - 1
        invariant rk == 4 * (nr - i) && sk == 4 * i
        invariant ReversedBelow(cty.buf[..], buf[..], nr, nr - i)
      {
        ghost var before := buf[..];
        InvMixKey(s, cty, rk, sk);
        NextReversed(cty.buf[..], before, buf[..], nr, nr - i);
        rk, sk, i := rk + 4, sk + 4 - 8, i - 1;
      }
      ghost var before := buf[..];
      CopyKey(cty, rk, sk);
      LastReversed(cty.buf[..], before, buf[..], nr);
    }
  }

  lemma FirstReversed(ek: seq<Word>, dk: seq<Word>, nr: nat)
    requires 0 < nr && 4 * nr + 4 <= |ek| && 4 * nr + 4 <= |dk|
    requires forall j :: 0 <= j < 4 ==> dk[j] == ek[4 * nr + (j - 0)]
    ensures ReversedBelow(ek, dk, nr, 1)
  {
  }

  lemma LastReversed(ek: seq<Word>, before: seq<Word>, dk: seq<Word>, nr: nat)
    requires 0 < nr && ReversedBelow(ek, before, nr, nr) && |before| == |dk|
    requires forall j :: 4 * nr <= j < 4 * nr + 4 ==> dk[j] == ek[0 + (j - 4 * nr)]
    requires before[..4 * nr] == dk[..4 * nr]
    ensures Reversed(ek, dk, nr)
  {
    hide InvMix;
    KeepKeys(before, dk, nr);
  }

  /** The first m round keys of dk are those of ek read from the end. */
  ghost predicate ReversedBelow(ek: seq<Word>, dk: seq<Word>, nr: nat, m: nat)
  {
    && 1 <= m <= nr && 4 * nr + 4 <= |ek| && 4 * nr + 4 <= |dk|
    && KeyAt(dk, 0) == KeyAt(ek, nr)
    && forall r :: 0 < r < m ==> KeyAt(dk, r) == InvMixColumns(KeyAt(ek, nr - r))
  }

  lemma NextReversed(ek: seq<Word>, before: seq<Word>, dk: seq<Word>, nr: nat, m: nat)
    requires m < nr && ReversedBelow(ek, before, nr, m) && |before| == |dk| && before[..4 * m] == dk[..4 * m]
    requires forall j :: 4 * m <= j < 4 * m + 4 ==> dk[j] == InvMix(ek[4 * (nr - m) + (j - 4 * m)])
    ensures ReversedBelow(ek, dk, nr, m + 1)
  {
    hide InvMix;
    KeepKeys(before, dk, m);
  }

  /** Round keys below the words that were written are unchanged. */
  lemma KeepKeys(x: seq<Word>, y: seq<Word>, r: nat)
    requires |x| == |y| && 4 * r <= |x| && x[..4 * r] == y[..4 * r]
    ensures forall q :: 0 <= q < r ==> KeyAt(x, q) == KeyAt(y, q)
  {
    forall q | 0 <= q < r
      ensures KeyAt(x, q) == KeyAt(y, q)
    {
      assert x[..4 * r][4 * q] == y[..4 * r][4 * q] && x[..4 * r][4 * q + 1] == y[..4 * r][4 * q + 1];
      assert x[..4 * r][4 * q + 2] == y[..4 * r][4 * q + 2] && x[..4 * r][4 * q + 3] == y[..4 * r][4 * q + 3];
    }
  }

  /** The reverse tables at substituted bytes compute InvMixColumns alone. */
  lemma LookupIsInvMix(s: SBoxes, w: Word)
    requires s.Inverse()
    ensures Xor(Xor(Xor(RT0(s, s.fsb(w.b0)), RT1(s, s.fsb(w.b1))), RT2(s, s.fsb(w.b2))), RT3(s, s.fsb(w.b3))) == InvMix(w)
  {
    hide Add, Mul9, Mul11, Mul13, Mul14;
    Assoc(Add(Mul14(w.b0), Mul11(w.b1)), Mul13(w.b2), Mul9(w.b3));
    Assoc(Add(Mul9(w.b0), Mul14(w.b1)), Mul11(w.b2), Mul13(w.b3));
    Assoc(Add(Mul13(w.b0), Mul9(w.b1)), Mul14(w.b2), Mul11(w.b3));
    Assoc(Add(Mul11(w.b0), Mul13(w.b1)), Mul9(w.b2), Mul14(w.b3));
  }

  lemma FirstWords(s: SBoxes, key: seq<Word>)
    requires |key| in {4, 6, 8}
    ensures forall j :: 0 <= j < |key| ==> KeyWord(s, key, j) == key[j]
  {
  }

  /** mbedtls_internal_aes_encrypt: two rounds per turn of the loop; input and output may overlap. */
  method Encrypt(ctx: AesContext, s: SBoxes, input: array<Byte>, inAt: nat, output: array<Byte>, outAt: nat)
    requires ctx.nr in {10, 12, 14} && 4 * ctx.nr + 4 <= ctx.buf.Length
    requires inAt + 16 <= input.Length && outAt + 16 <= output.Length
    modifies output
    ensures output[outAt..outAt + 16] == BytesOf(EncBlock(s, ctx.buf[..], ctx.nr, BlockOf(old(input[inAt..inAt + 16]))))
    ensures forall j :: 0 <= j < output.Length && !(outAt <= j < outAt + 16) ==> output[j] == old(output[j])
  {
    hide FRound, SubShift, XorBlock, BlockOf, BytesOf, KeyAt;
    ghost var keys := ctx.buf[..];
    ghost var block := BlockOf(input[inAt..inAt + 16]);
    var x := ReadBlock(input, inAt);
    var k := LoadKey(ctx, 0);
    x := XorBlock(x, k);
    var rk := 4;
    var i := ctx.nr / 2 - 1;
    var y := x;
    while i > 0
      invariant 0 <= i && rk == 4 * (ctx.nr - 1 - 2 * i) && 4 <= rk
      invariant x == EncState(s, keys, block, ctx.nr - 2 - 2 * i)
      modifies {}
    {
      k := LoadKey(ctx, rk);
      y := FRound(s, k, x);
      rk := rk + 4;
      k := LoadKey(ctx, rk);
      x := FRound(s, k, y);
      rk := rk + 4;
      i := i - 1;
    }
    k := LoadKey(ctx, rk);
    y := FRound(s, k, x);
    rk := rk + 4;
    k := LoadKey(ctx, rk);
    assert y == EncState(s, keys, block, ctx.nr - 1);
    x := XorBlock(k, SubShift(s, y));
    assert x == EncBlock(s, keys, ctx.nr, block);
    WriteBlock(x, output, outAt);
    assert ctx.buf[..] == keys;
  }

  /** Four words *RK++ */
  method LoadKey(ctx: AesContext, rk: nat) returns (k: Block)
    requires rk + 4 <= ctx.buf.Length
    ensures rk % 4 == 0 ==> k == KeyAt(ctx.buf[..], rk / 4)
  {
    k := Block(ctx.buf[rk], ctx.buf[rk + 1], ctx.buf[rk + 2], ctx.buf[rk + 3]);
  }

  /** mbedtls_internal_aes_decrypt */
  method Decrypt(ctx: AesContext, s: SBoxes, input: array<Byte>, inAt: nat, output: array<Byte>, outAt: nat)
    requires ctx.nr in {10, 12, 14} && 4 * ctx.nr + 4 <= ctx.buf.Length
    requires inAt + 16 <= input.Length && outAt + 16 <= output.Length
    modifies output
    ensures output[outAt..outAt + 16] == BytesOf(DecBlock(s, ctx.buf[..], ctx.nr, BlockOf(old(input[inAt..inAt + 16]))))
    ensures forall j :: 0 <= j < output.Length && !(outAt <= j < outAt + 16) ==> output[j] == old(output[j])
  {
    hide RRound, InvSubShift, XorBlock, BlockOf, BytesOf, KeyAt;
    ghost var keys := ctx.buf[..];
    ghost var block := BlockOf(input[inAt..inAt + 16]);
    var x := ReadBlock(input, inAt);
    var k := LoadKey(ctx, 0);
    x := XorBlock(x, k);
    var rk := 4;
    var i := ctx.nr / 2 - 1;
    var y := x;
    while i > 0
      invariant 0 <= i && rk == 4 * (ctx.nr - 1 - 2 * i) && 4 <= rk
      invariant x == DecState(s, keys, block, ctx.nr - 2 - 2 * i)
      modifies {}
    {
      k := LoadKey(ctx, rk);
      y := RRound(s, k, x);
      rk := rk + 4;
      k := LoadKey(ctx, rk);
      x := RRound(s, k, y);
      rk := rk + 4;
      i := i - 1;
    }
    k := LoadKey(ctx, rk);
    y := RRound(s, k, x);
    rk := rk + 4;
    k := LoadKey(ctx, rk);
    assert y == DecState(s, keys, block, ctx.nr - 1);
    x := XorBlock(k, InvSubShift(s, y));
    assert x == DecBlock(s, keys, ctx.nr, block);
    WriteBlock(x, output, outAt);
    assert ctx.buf[..] == keys;
  }

  /**
   * A context with the decryption schedule of a key decrypts what a context with the encryption
   * schedule of the same key encrypts: every block, all three key sizes.
   */
  lemma AesRoundTrip(s: SBoxes, key: seq<Word>, enc: AesContext, dec: AesContext, plain: seq<Byte>)
    requires s.Inverse() && |plain| == 16 && enc.Encrypts(s, key) && dec.Decrypts(s, key)
    ensures 4 * enc.nr + 4 <= enc.buf.Length && 4 * dec.nr + 4 <= dec.buf.Length
    ensures var cipher := BytesOf(EncBlock(s, enc.buf[..], enc.nr, BlockOf(plain)));
            BytesOf(DecBlock(s, dec.buf[..], dec.nr, BlockOf(cipher))) == plain
  {
    hide KeyWord, EncBlock, DecBlock, BlockOf, BytesOf;
    var x := BlockOf(plain);
    var nr := enc.nr;
    var ek :| IsEncSchedule(s, key, ek) && Reversed(ek, dec.buf[..], nr);
    SameSchedule(s, key, ek, enc.buf[..]);
    assert Reversed(enc.buf[..], dec.buf[..], nr);
    DecryptInvertsEncrypt(s, enc.buf[..], dec.buf[..], nr, x);
    BlockRoundTrip(EncBlock(s, enc.buf[..], nr, x));
    BytesRoundTrip(plain);
  }

  lemma SameSchedule(s: SBoxes, key: seq<Word>, ek: seq<Word>, fk: seq<Word>)
    requires IsEncSchedule(s, key, ek) && IsEncSchedule(s, key, fk)
    ensures forall r :: 0 <= r <= Rounds(|key|) ==> KeyAt(ek, r) == KeyAt(fk, r)
  {
    hide KeyWord;
  }
}
