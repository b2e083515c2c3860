/** 16-byte blocks as four 32-bit words, each by its four bytes, lowest address first. */
module Blocks {
  import opened Gf256

  /** The words X[0..3] of the state, or one round key. */
  datatype Block = Block(x0: Word, x1: Word, x2: Word, x3: Word)

  /** A word by its bytes. */
  function Four(a: bv8, b: bv8, c: bv8, d: bv8): Word
  {
    Word(Byte(a), Byte(b), Byte(c), Byte(d))
  }

  function Bytes16(a0: bv8, a1: bv8, a2: bv8, a3: bv8, a4: bv8, a5: bv8, a6: bv8, a7: bv8,
                   a8: bv8, a9: bv8, a10: bv8, a11: bv8, a12: bv8, a13: bv8, a14: bv8, a15: bv8): (b: seq<Byte>)
    ensures |b| == 16
  {
    [Byte(a0), Byte(a1), Byte(a2), Byte(a3), Byte(a4), Byte(a5), Byte(a6), Byte(a7),
     Byte(a8), Byte(a9), Byte(a10), Byte(a11), Byte(a12), Byte(a13), Byte(a14), Byte(a15)]
  }

  function XorBlock(x: Block, y: Block): (z: Block)
  {
    Block(Xor(x.x0, y.x0), Xor(x.x1, y.x1), Xor(x.x2, y.x2), Xor(x.x3, y.x3))
  }

  lemma Assoc(x: Byte, y: Byte, z: Byte)
    ensures Add(Add(x, y), z) == Add(x, Add(y, z))
  {
  }

  lemma XorSelf(x: Byte, k: Byte)
    ensures Add(Add(x, k), k) == x
  {
  }

  lemma XorBlockCancel(x: Block, k: Block)
    ensures XorBlock(XorBlock(x, k), k) == x
  {
    hide Add;
    WordCancel(x.x0, k.x0);
    WordCancel(x.x1, k.x1);
    WordCancel(x.x2, k.x2);
    WordCancel(x.x3, k.x3);
  }

  lemma WordCancel(x: Word, k: Word)
    ensures Xor(Xor(x, k), k) == x
  {
    hide Add;
    XorSelf(x.b0, k.b0);
    XorSelf(x.b1, k.b1);
    XorSelf(x.b2, k.b2);
    XorSelf(x.b3, k.b3);
  }

  lemma XorBlockCommutes(x: Block, y: Block)
    ensures XorBlock(x, y) == XorBlock(y, x)
  {
    hide Add;
    XorCommutes(x.x0, y.x0);
    XorCommutes(x.x1, y.x1);
    XorCommutes(x.x2, y.x2);
    XorCommutes(x.x3, y.x3);
  }

  lemma XorCommutes(x: Word, y: Word)
    ensures Xor(x, y) == Xor(y, x)
  {
    hide Add;
    AddCommutes(x.b0, y.b0);
    AddCommutes(x.b1, y.b1);
    AddCommutes(x.b2, y.b2);
    AddCommutes(x.b3, y.b3);
  }

  /** Four bytes of a block. */
  function WordAt(b: seq<Byte>, i: nat): Word
    requires 4 * i + 4 <= |b|
  {
    Word(b[4 * i], b[4 * i + 1], b[4 * i + 2], b[4 * i + 3])
  }

  function BlockOf(b: seq<Byte>): Block
    requires |b| == 16
  {
    Block(WordAt(b, 0), WordAt(b, 1), WordAt(b, 2), WordAt(b, 3))
  }

  function BytesOfWord(w: Word): seq<Byte>
  {
    [w.b0, w.b1, w.b2, w.b3]
  }

  function BytesOf(x: Block): (b: seq<Byte>)
    ensures |b| == 16
  {
    BytesOfWord(x.x0) + BytesOfWord(x.x1) + BytesOfWord(x.x2) + BytesOfWord(x.x3)
  }

  lemma BlockRoundTrip(x: Block)
    ensures BlockOf(BytesOf(x)) == x
  {
  }

  lemma BytesRoundTrip(b: seq<Byte>)
    requires |b| == 16
    ensures BytesOf(BlockOf(b)) == b
  {
  }

  /** Four little-endian words of a buffer. */
  method ReadBlock(input: array<Byte>, at: nat) returns (x: Block)
    requires at + 16 <= input.Length
    ensures x == BlockOf(input[at..at + 16])
  {
    x := Block(Word(input[at], input[at + 1], input[at + 2], input[at + 3]),
               Word(input[at + 4], input[at + 5], input[at + 6], input[at + 7]),
               Word(input[at + 8], input[at + 9], input[at + 10], input[at + 11]),
               Word(input[at + 12], input[at + 13], input[at + 14], input[at + 15]));
  }

  /** MBEDTLS_PUT_UINT32_LE of the four words. */
  method WriteBlock(x: Block, output: array<Byte>, at: nat)
    requires at + 16 <= output.Length
    modifies output
    ensures output[at..at + 16] == BytesOf(x)
    ensures forall j :: 0 <= j < output.Length && !(at <= j < at + 16) ==> output[j] == old(output[j])
  {
    var b := BytesOf(x);
    for i := 0 to 16
      invariant forall j :: 0 <= j < i ==> output[at + j] == b[j]
      invariant forall j :: 0 <= j < output.Length && !(at <= j < at + i) ==> output[j] == old(output[j])
    {
      output[at + i] := b[i];
    }
  }
}
