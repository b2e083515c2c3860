/**
 * ARIA of aria.c: substitution layers, key schedules and the block transformation, and the proof
 * that it inverts itself under the decryption keys (RFC 5794).
 */
module Aria {
  import opened Gf256
  import opened Blocks
  import opened AriaDiffusion

  datatype AriaStatus = Success | BadInputData

  /** The S-boxes sb1, sb2 and their inverses is1, is2. */
  datatype AriaBoxes = AriaBoxes(sb1: Byte -> Byte, sb2: Byte -> Byte, is1: Byte -> Byte, is2: Byte -> Byte) {
    ghost predicate Inverse() {
      forall x :: is1(sb1(x)) == x && sb1(is1(x)) == x && is2(sb2(x)) == x && sb2(is2(x)) == x
    }
  }

  /** One word of aria_sl: each byte goes through its own S-box. */
  function SlWord(w: Word, sa: Byte -> Byte, sb: Byte -> Byte, sc: Byte -> Byte, sd: Byte -> Byte): Word
  {
    Word(sa(w.b0), sb(w.b1), sc(w.b2), sd(w.b3))
  }

  /** aria_sl */
  function AriaSl(x: Block, sa: Byte -> Byte, sb: Byte -> Byte, sc: Byte -> Byte, sd: Byte -> Byte): Block
  {
    Block(SlWord(x.x0, sa, sb, sc, sd), SlWord(x.x1, sa, sb, sc, sd),
          SlWord(x.x2, sa, sb, sc, sd), SlWord(x.x3, sa, sb, sc, sd))
  }

  function Sl1(s: AriaBoxes, x: Block): Block { AriaSl(x, s.sb1, s.sb2, s.is1, s.is2) }
  function Sl2(s: AriaBoxes, x: Block): Block { AriaSl(x, s.is1, s.is2, s.sb1, s.sb2) }

  /** Rounds 0, 2, 4, ... use the first substitution layer, the others the second. */
  function Sl(s: AriaBoxes, r: nat, x: Block): Block
  {
    if r % 2 == 0 then Sl1(s, x) else Sl2(s, x)
  }

  /** The two layers invert each other, so a layer is undone by that of a round of the other parity. */
  lemma SlInverse(s: AriaBoxes, r: nat, q: nat, x: Block)
    requires s.Inverse() && r % 2 != q % 2
    ensures Sl(s, q, Sl(s, r, x)) == x
  {
  }

  // ---------------------------------------------------------------- the block transformation

  /** The state before the key addition of round r. */
  function State(s: AriaBoxes, rk: seq<Block>, x: Block, r: nat): Block
    requires r <= |rk|
  {
    if r == 0 then x else AriaA(Sl(s, r - 1, XorBlock(State(s, rk, x, r - 1), rk[r - 1])))
  }

  /** nr rounds; the last has no diffusion and is followed by a final key addition. */
  function Crypt(s: AriaBoxes, rk: seq<Block>, nr: nat, x: Block): Block
    requires 0 < nr < |rk|
  {
    XorBlock(Sl(s, nr - 1, XorBlock(State(s, rk, x, nr - 1), rk[nr - 1])), rk[nr])
  }

  /** The keys in reverse order, all but the first and the last passed through the diffusion layer. */
  ghost predicate Reversed(ek: seq<Block>, dk: seq<Block>, nr: nat)
  {
    && nr < |ek| && nr < |dk| && nr % 2 == 0 && nr > 0
    && dk[0] == ek[nr] && dk[nr] == ek[0]
    && forall r :: 0 < r < nr ==> dk[r] == AriaA(ek[nr - r])
  }

  /** Before round r of the decryption the state is the diffused encryption state with its diffused key. */
  lemma {:induction false} MeetInTheMiddle(s: AriaBoxes, ek: seq<Block>, dk: seq<Block>, nr: nat, x: Block, r: nat)
    requires s.Inverse() && Reversed(ek, dk, nr) && 0 < r < nr
    ensures State(s, dk, Crypt(s, ek, nr, x), r) == XorBlock(AriaA(State(s, ek, x, nr - r)), AriaA(ek[nr - r]))
  {
    hide AriaA, XorBlock, Sl;
    var y := Crypt(s, ek, nr, x);
    var e := State(s, ek, x, nr - r);
    if r == 1 {
      var f := Sl(s, nr - 1, XorBlock(e, ek[nr - 1]));
      XorBlockCancel(f, ek[nr]);
      SlInverse(s, nr - 1, 0, XorBlock(e, ek[nr - 1]));
      assert State(s, dk, y, 0) == y;
    } else {
      MeetInTheMiddle(s, ek, dk, nr, x, r - 1);
      var n := State(s, ek, x, nr - r + 1);
      XorBlockCancel(AriaA(n), AriaA(ek[nr - r + 1]));
      AriaAInvolution(Sl(s, nr - r, XorBlock(e, ek[nr - r])));
      assert n == AriaA(Sl(s, nr - r, XorBlock(e, ek[nr - r])));
      SlInverse(s, nr - r, r - 1, XorBlock(e, ek[nr - r]));
    }
    AriaALinear(e, ek[nr - r]);
  }

  /** Running ARIA with the reversed keys inverts it. */
  lemma ReversedInverts(s: AriaBoxes, ek: seq<Block>, dk: seq<Block>, nr: nat, x: Block)
    requires s.Inverse() && Reversed(ek, dk, nr)
    ensures Crypt(s, dk, nr, Crypt(s, ek, nr, x)) == x
  {
    hide AriaA, XorBlock, Sl;
    var y := Crypt(s, ek, nr, x);
    MeetInTheMiddle(s, ek, dk, nr, x, nr - 1);
    var n := State(s, ek, x, 1);
    XorBlockCancel(AriaA(n), AriaA(ek[1]));
    var t := XorBlock(x, ek[0]);
    assert State(s, ek, x, 0) == x;
    AriaAInvolution(Sl(s, 0, t));
    SlInverse(s, 0, nr - 1, t);
    XorBlockCancel(x, ek[0]);
  }

  // ---------------------------------------------------------------- the key schedule

  /** The word as a number, byte 0 the most significant: the value after ARIA_P3. */
  function BigEndian(w: Word): bv32
  {
    ((w.b0.v as bv32) << 24) | ((w.b1.v as bv32) << 16) | ((w.b2.v as bv32) << 8) | (w.b3.v as bv32)
  }

  function FromBigEndian(x: bv32): Word
  {
    Word(Byte((x >> 24) as bv8), Byte(((x >> 16) & 0xFF) as bv8),
         Byte(((x >> 8) & 0xFF) as bv8), Byte((x & 0xFF) as bv8))
  }

  function WordOf(x: Block, j: nat): Word
  {
    if j % 4 == 0 then x.x0 else if j % 4 == 1 then x.x1 else if j % 4 == 2 then x.x2 else x.x3
  }

  /** t <<= n1; t |= u >> n2 */
  function PairWord(t: bv32, u: bv32, n1: bv8): bv32
    requires 0 < n1 < 32
  {
    (t << n1) | (u >> (32 - n1))
  }

  function ShiftPair(t: Word, u: Word, n1: bv8): Word
    requires 0 < n1 < 32
  {
    FromBigEndian(PairWord(BigEndian(t), BigEndian(u), n1))
  }

  /** The block rotated left by q whole words and n1 bits. */
  function RotateLeft(b: Block, q: nat, n1: bv8): Block
    requires 0 < n1 < 32
  {
    Block(ShiftPair(WordOf(b, q), WordOf(b, q + 1), n1), ShiftPair(WordOf(b, q + 1), WordOf(b, q + 2), n1),
          ShiftPair(WordOf(b, q + 2), WordOf(b, q + 3), n1), ShiftPair(WordOf(b, q + 3), WordOf(b, q), n1))
  }

  /** a plus the rotated b. */
  function Rotated(a: Block, b: Block, q: nat, n1: bv8): Block
    requires 0 < n1 < 32
  {
    XorBlock(a, RotateLeft(b, q, n1))
  }

  /** Bit j of a word, the most significant first. */
  function BitOf(x: bv32, j: bv8): bool
    requires j < 32
  {
    (x >> (31 - j)) & 1 == 1
  }

  lemma ShiftedBit(t: bv32, u: bv32, n1: bv8, j: bv8)
    requires 0 < n1 < 32 && j < 32
    ensures BitOf((t << n1) | (u >> (32 - n1)), j) == if j + n1 < 32 then BitOf(t, j + n1) else BitOf(u, j + n1 - 32)
  {
  }

  lemma PairBit(t: bv32, u: bv32, n1: bv8, j: bv8)
    requires 0 < n1 < 32 && j < 32
    ensures BitOf(PairWord(t, u, n1), j) == if j + n1 < 32 then BitOf(t, j + n1) else BitOf(u, j + n1 - 32)
  {
    hide BitOf;
    ShiftedBit(t, u, n1, j);
  }

  lemma BigEndianOf(x: bv32)
    ensures BigEndian(FromBigEndian(x)) == x
  {
  }

  lemma ShiftPairBit(t: Word, u: Word, n1: bv8, j: bv8)
    requires 0 < n1 < 32 && j < 32
    ensures BitOf(BigEndian(ShiftPair(t, u, n1)), j)
         == if j + n1 < 32 then BitOf(BigEndian(t), j + n1) else BitOf(BigEndian(u), j + n1 - 32)
  {
    hide BitOf, BigEndian, FromBigEndian, PairWord;
    PairBit(BigEndian(t), BigEndian(u), n1, j);
    BigEndianOf(PairWord(BigEndian(t), BigEndian(u), n1));
  }

  lemma WordsOfBlock(b: Block, q: nat)
    ensures WordOf(b, q + 4) == WordOf(b, q)
    ensures WordOf(b, 0) == b.x0 && WordOf(b, 1) == b.x1 && WordOf(b, 2) == b.x2 && WordOf(b, 3) == b.x3
  {
  }

  lemma RotateLeftWord(b: Block, q: nat, n1: bv8, i: nat)
    requires 0 < n1 < 32 && i < 4
    ensures WordOf(RotateLeft(b, q, n1), i) == ShiftPair(WordOf(b, q + i), WordOf(b, q + i + 1), n1)
  {
    hide ShiftPair, WordOf;
    WordsOfBlock(RotateLeft(b, q, n1), 0);
    WordsOfBlock(b, q);
  }

  /** Bit 32 i + j of the rotated block is bit 32 i + j + 32 q + n1 of the block, modulo 128. */
  lemma RotateLeftBits(b: Block, q: nat, n1: bv8, i: nat, j: bv8)
    requires 0 < n1 < 32 && i < 4 && j < 32
    ensures BitOf(BigEndian(WordOf(RotateLeft(b, q, n1), i)), j)
         == if j + n1 < 32 then BitOf(BigEndian(WordOf(b, q + i)), j + n1)
            else BitOf(BigEndian(WordOf(b, q + i + 1)), j + n1 - 32)
  {
    hide BitOf, BigEndian, ShiftPair, RotateLeft, WordOf;
    RotateLeftWord(b, q, n1, i);
    ShiftPairBit(WordOf(b, q + i), WordOf(b, q + i + 1), n1, j);
  }

  /** aria_rot128 */
  method AriaRot128(a: Block, b: Block, q: nat, n1: bv8) returns (r: Block)
    requires 0 < n1 < 32
    ensures r == Rotated(a, b, q, n1)
  {
    hide ShiftPair, Xor, WordOf;
    var j := q % 4;
    WordModulo(b, q, j);
    var t := WordOf(b, j);
    var words: seq<Word> := [];
    for i := 0 to 4
      invariant |words| == i && j == (q + i) % 4 && t == WordOf(b, q + i)
      invariant forall k :: 0 <= k < i ==>
                  words[k] == Xor(WordOf(a, k), ShiftPair(WordOf(b, q + k), WordOf(b, q + k + 1), n1))
    {
      j := (j + 1) % 4;
      WordModulo(b, q + i + 1, j);
      var u := WordOf(b, j);
      words := words + [Xor(WordOf(a, i), ShiftPair(t, u, n1))];
      t := u;
    }
    r := Block(words[0], words[1], words[2], words[3]);
    WordsOfBlock(a, 0);
    WordsOfBlock(b, q);
  }

  lemma WordModulo(b: Block, k: nat, j: nat)
    requires j == k % 4
    ensures WordOf(b, j) == WordOf(b, k)
  {
  }

  function RoundConstant(i: nat): Block
  {
    if i % 3 == 0 then
      Block(FromBigEndian(0x517CC1B7), FromBigEndian(0x27220A94), FromBigEndian(0xFE13ABE8), FromBigEndian(0xFA9A6EE0))
    else if i % 3 == 1 then
      Block(FromBigEndian(0x6DB14ACC), FromBigEndian(0x9E21C820), FromBigEndian(0xFF28B1D5), FromBigEndian(0xEF5DE2B0))
    else
      Block(FromBigEndian(0xDB92371D), FromBigEndian(0x2126E970), FromBigEndian(0x03249775), FromBigEndian(0x04E8C90E))
  }

  /** aria_fo_xor */
  function FoXor(s: AriaBoxes, p: Block, k: Block, x: Block): Block
  {
    XorBlock(AriaA(Sl1(s, XorBlock(p, k))), x)
  }

  /** aria_fe_xor */
  function FeXor(s: AriaBoxes, p: Block, k: Block, x: Block): Block
  {
    XorBlock(AriaA(Sl2(s, XorBlock(p, k))), x)
  }

  function KeyIndex(key: seq<Byte>): nat
    requires |key| in {16, 24, 32}
  {
    (|key| - 16) / 8
  }

  /** The rest of the key after its first block, filled up with zeros. */
  function KeyRest(key: seq<Byte>): Block
    requires |key| in {16, 24, 32}
  {
    BlockOf(key[16..] + seq(32 - |key|, _ => ZERO))
  }

  /** The four words of RFC 5794, section 2.2. */
  function W(s: AriaBoxes, key: seq<Byte>, i: nat): Block
    requires |key| in {16, 24, 32}
  {
    var k := KeyIndex(key);
    if i % 4 == 0 then BlockOf(key[..16])
    else if i % 4 == 1 then FoXor(s, BlockOf(key[..16]), RoundConstant(k), KeyRest(key))
    else if i % 4 == 2 then FeXor(s, W(s, key, 1), RoundConstant(k + 1), BlockOf(key[..16]))
    else FoXor(s, W(s, key, 2), RoundConstant(k + 2), W(s, key, 1))
  }

  /** Round key i of the encryption schedule. */
  function EncKey(s: AriaBoxes, key: seq<Byte>, i: nat): Block
    requires |key| in {16, 24, 32}
  {
    var a, b := W(s, key, i), W(s, key, i + 1);
    if i < 4 then Rotated(a, b, 3, 13) else if i < 8 then Rotated(a, b, 3, 1)
    else if i < 12 then Rotated(a, b, 1, 29) else if i < 16 then Rotated(a, b, 0, 31)
    else Rotated(a, b, 0, 19)
  }

  // ---------------------------------------------------------------- the context

  class AriaContext {
    var nr: nat
    const rk: array<Block>

    constructor ()
      ensures rk.Length == 17 && fresh(rk)
    {
      var zero := Word(ZERO, ZERO, ZERO, ZERO);
      nr := 0;
      rk := new Block[17](_ => Block(zero, zero, zero, zero));
    }

    /** The context holds the encryption schedule of the key. */
    ghost predicate Encrypts(s: AriaBoxes, key: seq<Byte>)
      reads this, rk
    {
      && |key| in {16, 24, 32} && rk.Length == 17 && nr == 12 + 2 * KeyIndex(key)
      && forall i :: 0 <= i < 17 ==> rk[i] == EncKey(s, key, i)
    }

    /** The context holds the reversed encryption schedule of the key. */
    ghost predicate Decrypts(s: AriaBoxes, key: seq<Byte>)
      reads this, rk
    {
      && |key| in {16, 24, 32} && rk.Length == 17 && nr == 12 + 2 * KeyIndex(key)
      && exists ek :: |ek| == 17 && (forall i :: 0 <= i < 17 ==> ek[i] == EncKey(s, key, i)) && Reversed(ek, rk[..], nr)
    }

    /** mbedtls_aria_setkey_enc */
    method SetKeyEnc(s: AriaBoxes, key: seq<Byte>) returns (status: AriaStatus)
      requires rk.Length == 17
      modifies this`nr, rk
      ensures status == if |key| in {16, 24, 32} then Success else BadInputData
      ensures status == Success ==> Encrypts(s, key)
      ensures status != Success ==> nr == old(nr) && rk[..] == old(rk[..])
    {
      hide FoXor, FeXor, Rotated, RoundConstant, KeyRest, BlockOf;
      if |key| !in {16, 24, 32} {
        return BadInputData;
      }
      var i := KeyIndex(key);
      nr := 12 + 2 * i;
      var w0, w1 := BlockOf(key[..16]), KeyRest(key);
      w1 := FoXor(s, w0, RoundConstant(i), w1);
      i := if i < 2 then i + 1 else 0;
      RoundConstantWraps(KeyIndex(key));
      var w2 := FeXor(s, w1, RoundConstant(i), w0);
      i := if i < 2 then i + 1 else 0;
      var w3 := FoXor(s, w2, RoundConstant(i), w1);
      var w := [w0, w1, w2, w3];
      assert forall j :: 0 <= j < 4 ==> w[j] == W(s, key, j);
      CreateRoundKeys(s, key, w);
      return Success;
    }

    /** The loop that creates the round keys. */
    method CreateRoundKeys(s: AriaBoxes, key: seq<Byte>, w: seq<Block>)
      requires rk.Length == 17 && |key| in {16, 24, 32} && |w| == 4
      requires forall j :: 0 <= j < 4 ==> w[j] == W(s, key, j)
      modifies rk
      ensures forall i :: 0 <= i < 17 ==> rk[i] == EncKey(s, key, i)
    {
      hide W, Rotated, EncKey;
      for i := 0 to 4
        invariant forall j :: 0 <= j < 16 && j % 4 < i ==> rk[j] == EncKey(s, key, j)
      {
        KeysFromWords(s, key, w, i);
        var next := w[(i + 1) % 4];
        var k0 := AriaRot128(w[i], next, 3, 13);
        var k4 := AriaRot128(w[i], next, 3, 1);
        var k8 := AriaRot128(w[i], next, 1, 29);
        var k12 := AriaRot128(w[i], next, 0, 31);
        rk[i], rk[i + 4], rk[i + 8], rk[i + 12] := k0, k4, k8, k12;
        assert forall j :: 0 <= j < 16 && j % 4 == i ==> j == i || j == i + 4 || j == i + 8 || j == i + 12;
      }
      KeysFromWords(s, key, w, 0);
      rk[16] := AriaRot128(w[0], w[1], 0, 19);
    }

    /** mbedtls_aria_setkey_dec */
    method SetKeyDec(s: AriaBoxes, key: seq<Byte>) returns (status: AriaStatus)
      requires rk.Length == 17
      modifies this`nr, rk
      ensures status == if |key| in {16, 24, 32} then Success else BadInputData
      ensures status == Success ==> Decrypts(s, key)
      ensures status != Success ==> nr == old(nr) && rk[..] == old(rk[..])
    {
      hide EncKey;
      status := SetKeyEnc(s, key);
      if status == Success {
        ghost var ek := rk[..];
        FlipKeys();
        DiffuseMiddle();
        assert Reversed(ek, rk[..], nr);
      }
    }

    /** Flips the order of the round keys. */
    method FlipKeys()
      requires rk.Length == 17 && nr < 17
      modifies rk
      ensures forall q :: 0 <= q <= nr ==> rk[q] == old(rk[nr - q])
    {
      var i, j := 0, nr;
      while i < j
        invariant i <= j + 1 && i + j == nr
        invariant forall q :: 0 <= q < i ==> rk[q] == old(rk[nr - q]) && rk[nr - q] == old(rk[q])
        invariant forall q :: i <= q <= j ==> rk[q] == old(rk[q])
      {
        rk[i], rk[j] := rk[j], rk[i];
        i, j := i + 1, j - 1;
      }
      forall q | 0 <= q <= nr
        ensures rk[q] == old(rk[nr - q])
      {
        assert q > j ==> nr - q < i;
      }
    }

    /** Applies the diffusion layer to the middle keys. */
    method DiffuseMiddle()
      requires rk.Length == 17 && nr < 17
      modifies rk
      ensures forall q :: 0 < q < nr ==> rk[q] == AriaA(old(rk[q]))
      ensures rk[0] == old(rk[0]) && rk[nr] == old(rk[nr])
    {
      hide AriaA;
      var i := 1;
      while i < nr
        invariant 1 <= i
        invariant forall q :: 0 < q < nr ==> rk[q] == if q < i then AriaA(old(rk[q])) else old(rk[q])
        invariant rk[0] == old(rk[0]) && rk[nr] == old(rk[nr])
      {
        rk[i] := AriaA(rk[i]);
        i := i + 1;
      }
    }

    /** mbedtls_aria_crypt_ecb: two rounds per turn of the loop; input and output may overlap. */
    method CryptEcb(s: AriaBoxes, input: array<Byte>, inAt: nat, output: array<Byte>, outAt: nat)
      requires 0 < nr < rk.Length && nr % 2 == 0
      requires inAt + 16 <= input.Length && outAt + 16 <= output.Length
      modifies output
      ensures output[outAt..outAt + 16] == BytesOf(Crypt(s, rk[..], nr, BlockOf(old(input[inAt..inAt + 16]))))
      ensures forall j :: 0 <= j < output.Length && !(outAt <= j < outAt + 16) ==> output[j] == old(output[j])
    {
      hide AriaA, XorBlock, Sl1, Sl2, BlockOf, BytesOf;
      ghost var keys := rk[..];
      ghost var block := BlockOf(input[inAt..inAt + 16]);
      var x := ReadBlock(input, inAt);
      var i := 0;
      while true
        invariant 0 <= i < nr && i % 2 == 0
        invariant x == State(s, keys, block, i)
        decreases nr - i
        modifies {}
      {
        x := XorBlock(x, rk[i]);
        i := i + 1;
        x := Sl1(s, x);
        x := AriaA(x);
        assert x == State(s, keys, block, i);
        x := XorBlock(x, rk[i]);
        i := i + 1;
        x := Sl2(s, x);
        if i >= nr {
          break;
        }
        x := AriaA(x);
      }
      x := XorBlock(x, rk[i]);
      WriteBlock(x, output, outAt);
      assert rk[..] == keys;
    }
  }

  lemma RoundConstantWraps(i: nat)
    requires i < 3
    ensures RoundConstant(if i < 2 then i + 1 else 0) == RoundConstant(i + 1)
    ensures RoundConstant(if i == 1 then 0 else if i == 2 then 1 else 2) == RoundConstant(i + 2)
  {
    hide FromBigEndian;
  }

  lemma WPeriod(s: AriaBoxes, key: seq<Byte>, i: nat)
    requires |key| in {16, 24, 32} && i < 4
    ensures W(s, key, i) == W(s, key, i + 4) == W(s, key, i + 8) == W(s, key, i + 12) == W(s, key, i + 16)
  {
    hide FoXor, FeXor, KeyRest, BlockOf;
  }

  lemma KeysFromWords(s: AriaBoxes, key: seq<Byte>, w: seq<Block>, i: nat)
    requires |key| in {16, 24, 32} && |w| == 4 && forall j :: 0 <= j < 4 ==> w[j] == W(s, key, j)
    requires i < 4
    ensures var a, b := w[i], w[(i + 1) % 4];
            && EncKey(s, key, i) == Rotated(a, b, 3, 13) && EncKey(s, key, i + 4) == Rotated(a, b, 3, 1)
            && EncKey(s, key, i + 8) == Rotated(a, b, 1, 29) && EncKey(s, key, i + 12) == Rotated(a, b, 0, 31)
    ensures EncKey(s, key, 16) == Rotated(w[0], w[1], 0, 19)
  {
    hide W, Rotated;
    WPeriod(s, key, i);
    WPeriod(s, key, (i + 1) % 4);
    WPeriod(s, key, 0);
    WPeriod(s, key, 1);
  }

  /**
   * A context with the decryption keys decrypts what a context with the encryption keys of the same
   * key encrypts: every block, 12, 14 and 16 rounds.
   */
  lemma AriaRoundTrip(s: AriaBoxes, key: seq<Byte>, enc: AriaContext, dec: AriaContext, plain: seq<Byte>)
    requires s.Inverse() && |plain| == 16 && enc.Encrypts(s, key) && dec.Decrypts(s, key)
    ensures var cipher := BytesOf(Crypt(s, enc.rk[..], enc.nr, BlockOf(plain)));
            BytesOf(Crypt(s, dec.rk[..], dec.nr, BlockOf(cipher))) == plain
  {
    hide EncKey, Crypt, BlockOf, BytesOf;
    var ek :| |ek| == 17 && (forall i :: 0 <= i < 17 ==> ek[i] == EncKey(s, key, i)) && Reversed(ek, dec.rk[..], dec.nr);
    assert ek == enc.rk[..];
    ReversedInverts(s, ek, dec.rk[..], dec.nr, BlockOf(plain));
    BlockRoundTrip(Crypt(s, ek, enc.nr, BlockOf(plain)));
    BytesRoundTrip(plain);
  }
}
