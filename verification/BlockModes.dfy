/**
 * What the block cipher modes of aes.c share: bytes under exclusive or, the block cipher as an
 * abstract permutation of 16-byte blocks.
 */
module BlockModes {
  import opened Bits
  import opened Bytes

  type Block = b: seq<Byte> | |b| == 16 witness seq(16, _ => 0)

  datatype Mode = Encrypt | Decrypt

  datatype ModeStatus = Success | InvalidInputLength | BadInputData

  /** A block cipher under one key: a permutation of the blocks and its inverse. */
  datatype Cipher = Cipher(enc: Block -> Block, dec: Block -> Block) {
    ghost predicate Permutation() {
      forall b :: dec(enc(b)) == b
    }

    /** mbedtls_aes_crypt_ecb */
    function Crypt(mode: Mode, b: Block): Block
    {
      if mode == Encrypt then enc(b) else dec(b)
    }
  }

  function XorByte(x: Byte, y: Byte): (z: Byte)
  {
    XorByteFits(x, y);
    BitXor(x, y)
  }

  lemma XorByteFits(x: Byte, y: Byte)
    ensures BitXor(x, y) < 0x100
  {
    hide BitXor;
    assert Pow2(8) == 0x100;
    XorBound(x, y, 8);
  }

  /** mbedtls_xor on two equally long byte strings */
  function XorBytes(x: seq<Byte>, y: seq<Byte>): (z: seq<Byte>)
    requires |x| == |y|
    ensures |z| == |x|
  {
    seq(|x|, i requires 0 <= i < |x| => XorByte(x[i], y[i]))
  }

  lemma XorByteCancel(x: Byte, y: Byte)
    ensures XorByte(XorByte(x, y), y) == x && XorByte(x, XorByte(x, y)) == y && XorByte(x, y) == XorByte(y, x)
  {
    hide BitXor;
    XorCancel(x, y);
    XorCommutes(x, y);
    XorCancel(y, x);
    XorCommutes(x, BitXor(y, x));
  }

  /** mbedtls_xor adds the bits of every byte modulo 2. */
  lemma XorBytesBits(x: seq<Byte>, y: seq<Byte>, i: nat, k: nat)
    requires |x| == |y| && i < |x|
    ensures Bit(XorBytes(x, y)[i], k) == (Bit(x[i], k) + Bit(y[i], k)) % 2
  {
    hide Bit;
    XorByteBits(x[i], y[i], k);
  }

  lemma XorByteBits(x: Byte, y: Byte, k: nat)
    ensures Bit(XorByte(x, y), k) == (Bit(x, k) + Bit(y, k)) % 2
  {
    hide Bit, BitXor;
    XorBits(x, y, k);
  }

  /** Adding the same string twice changes nothing. */
  lemma XorBytesCancel(x: seq<Byte>, y: seq<Byte>)
    requires |x| == |y|
    ensures XorBytes(XorBytes(x, y), y) == x
  {
    hide XorByte;
    forall i | 0 <= i < |x|
      ensures XorByte(XorByte(x[i], y[i]), y[i]) == x[i]
    {
      XorByteCancel(x[i], y[i]);
    }
  }
}
