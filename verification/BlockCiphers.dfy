/**
 * AES and ARIA as the block cipher the modes take: the 16-byte blocks of the modes are those of the
 * ciphers, and with the two key schedules of a key decryption inverts encryption.
 */
module BlockCiphers {
  import Gf256
  import Blocks
  import AesBlock
  import Aes
  import Aria
  import opened Bytes
  import opened BlockModes
  import Xts

  function ToField(b: Bytes): (f: seq<Gf256.Byte>)
    ensures |f| == |b|
  {
    seq(|b|, i requires 0 <= i < |b| => Gf256.Element(b[i]))
  }

  function FromField(f: seq<Gf256.Byte>): (b: Bytes)
    ensures |b| == |f|
  {
    seq(|f|, i requires 0 <= i < |f| => f[i].v as int)
  }

  /** The bytes of the modes and the bytes of the ciphers are the same thing. */
  lemma FieldRoundTrip(b: Bytes, f: seq<Gf256.Byte>)
    ensures FromField(ToField(b)) == b && ToField(FromField(f)) == f
  {
    hide Gf256.Element;
    forall i | 0 <= i < |b|
      ensures Gf256.Element(b[i]).v as int == b[i]
    {
      Gf256.ElementValue(b[i]);
    }
    forall i | 0 <= i < |f|
      ensures Gf256.Element(f[i].v as int) == f[i]
    {
      Gf256.ValueElement(f[i].v);
    }
    assert ToField(FromField(f)) == f;
  }

  /** Byte for byte: a number below 256 is the byte with that value. */
  lemma SameBytes(b: Bytes, f: seq<Gf256.Byte>, i: nat)
    requires i < |b| && i < |f|
    ensures ToField(b)[i].v as int == b[i] && FromField(f)[i] == f[i].v as int
  {
    Gf256.ElementValue(b[i]);
  }

  function AesEnc(s: AesBlock.SBoxes, rk: seq<Gf256.Word>, nr: nat, b: Block): Block
    requires 0 < nr && 4 * nr + 4 <= |rk|
  {
    FromField(Blocks.BytesOf(AesBlock.EncBlock(s, rk, nr, Blocks.BlockOf(ToField(b)))))
  }

  function AesDec(s: AesBlock.SBoxes, rk: seq<Gf256.Word>, nr: nat, b: Block): Block
    requires 0 < nr && 4 * nr + 4 <= |rk|
  {
    FromField(Blocks.BytesOf(AesBlock.DecBlock(s, rk, nr, Blocks.BlockOf(ToField(b)))))
  }

  /** AES with an encryption and a decryption schedule. */
  function AesCipher(s: AesBlock.SBoxes, ek: seq<Gf256.Word>, dk: seq<Gf256.Word>, nr: nat): Cipher
    requires 0 < nr && 4 * nr + 4 <= |ek| && 4 * nr + 4 <= |dk|
  {
    Cipher(b => AesEnc(s, ek, nr, b), b => AesDec(s, dk, nr, b))
  }

  /** With the two schedules of a key AES is a permutation of the blocks of the modes. */
  lemma AesIsPermutation(s: AesBlock.SBoxes, key: seq<Gf256.Word>, enc: Aes.AesContext, dec: Aes.AesContext)
    requires s.Inverse() && enc.Encrypts(s, key) && dec.Decrypts(s, key)
    ensures 0 < enc.nr == dec.nr && 4 * enc.nr + 4 <= enc.buf.Length && 4 * dec.nr + 4 <= dec.buf.Length
    ensures AesCipher(s, enc.buf[..], dec.buf[..], enc.nr).Permutation()
  {
    hide AesBlock.KeyWord, AesBlock.EncBlock, AesBlock.DecBlock, Blocks.BlockOf, Blocks.BytesOf, ToField, FromField;
    forall b: Block
      ensures AesDec(s, dec.buf[..], enc.nr, AesEnc(s, enc.buf[..], enc.nr, b)) == b
    {
      Aes.AesRoundTrip(s, key, enc, dec, ToField(b));
      FieldRoundTrip(b, Blocks.BytesOf(AesBlock.EncBlock(s, enc.buf[..], enc.nr, Blocks.BlockOf(ToField(b)))));
    }
  }

  /** XTS with AES: the decryption and encryption contexts of one key pair undo each other on every data unit. */
  lemma AesXtsInverse(s: AesBlock.SBoxes, key: seq<Gf256.Word>, enc: Aes.AesContext, dec: Aes.AesContext, t: Block,
                      unit: Bytes)
    requires s.Inverse() && enc.Encrypts(s, key) && dec.Decrypts(s, key) && |unit| >= 16
    ensures 0 < enc.nr == dec.nr && 4 * enc.nr + 4 <= enc.buf.Length && 4 * dec.nr + 4 <= dec.buf.Length
    ensures var c := AesCipher(s, enc.buf[..], dec.buf[..], enc.nr);
            Xts.XtsUnit(c, Decrypt, t, Xts.XtsUnit(c, Encrypt, t, unit)) == unit
  {
    hide AesCipher, Xts.XtsUnit;
    AesIsPermutation(s, key, enc, dec);
    Xts.XtsInverse(AesCipher(s, enc.buf[..], dec.buf[..], enc.nr), t, unit);
  }

  function AriaEnc(s: Aria.AriaBoxes, rk: seq<Blocks.Block>, nr: nat, b: Block): Block
    requires 0 < nr < |rk|
  {
    FromField(Blocks.BytesOf(Aria.Crypt(s, rk, nr, Blocks.BlockOf(ToField(b)))))
  }

  /** ARIA with an encryption and a decryption schedule. */
  function AriaCipher(s: Aria.AriaBoxes, ek: seq<Blocks.Block>, dk: seq<Blocks.Block>, nr: nat): Cipher
    requires 0 < nr < |ek| && nr < |dk|
  {
    Cipher(b => AriaEnc(s, ek, nr, b), b => AriaEnc(s, dk, nr, b))
  }

  /** With the two schedules of a key ARIA is a permutation of the blocks of the modes. */
  lemma AriaIsPermutation(s: Aria.AriaBoxes, key: seq<Gf256.Byte>, enc: Aria.AriaContext, dec: Aria.AriaContext)
    requires s.Inverse() && enc.Encrypts(s, key) && dec.Decrypts(s, key)
    ensures 0 < enc.nr == dec.nr < enc.rk.Length && dec.nr < dec.rk.Length
    ensures AriaCipher(s, enc.rk[..], dec.rk[..], enc.nr).Permutation()
  {
    hide Aria.EncKey, Aria.Crypt, Blocks.BlockOf, Blocks.BytesOf, ToField, FromField;
    forall b: Block
      ensures AriaEnc(s, dec.rk[..], enc.nr, AriaEnc(s, enc.rk[..], enc.nr, b)) == b
    {
      Aria.AriaRoundTrip(s, key, enc, dec, ToField(b));
      FieldRoundTrip(b, Blocks.BytesOf(Aria.Crypt(s, enc.rk[..], enc.nr, Blocks.BlockOf(ToField(b)))));
    }
  }
}
