/**
 * ARIA with the substitution boxes of aria.c: what the cipher asks of its boxes holds of them.
 */
module AriaTables {
  import opened Gf256
  import opened Blocks
  import opened Aria
  import opened SubstitutionTables

  /** The boxes as the cipher takes them. */
  function Tables(): AriaBoxes
  {
    AriaBoxes((x: Byte) => Byte(Sb1(x.v)), (x: Byte) => Byte(Sb2(x.v)),
              (x: Byte) => Byte(Is1(x.v)), (x: Byte) => Byte(Is2(x.v)))
  }

  /** What the cipher asks of its boxes holds of the tables in the source. */
  lemma TablesInverse()
    ensures Tables().Inverse()
  {
    hide Sb1, Sb2, Is1, Is2;
    var s := Tables();
    forall x: Byte
      ensures s.is1(s.sb1(x)) == x && s.sb1(s.is1(x)) == x && s.is2(s.sb2(x)) == x && s.sb2(s.is2(x)) == x
    {
      FirstPair(x.v);
      SecondPair(x.v);
    }
  }

  /** So ARIA with its tables decrypts what it encrypts. */
  lemma AriaDecryptsWithTables(key: seq<Byte>, enc: AriaContext, dec: AriaContext, plain: seq<Byte>)
    requires |plain| == 16 && enc.Encrypts(Tables(), key) && dec.Decrypts(Tables(), key)
    ensures var cipher := BytesOf(Crypt(Tables(), enc.rk[..], enc.nr, BlockOf(plain)));
            BytesOf(Crypt(Tables(), dec.rk[..], dec.nr, BlockOf(cipher))) == plain
  {
    hide Tables, Crypt, BlockOf, BytesOf;
    TablesInverse();
    AriaRoundTrip(Tables(), key, enc, dec, plain);
  }
}
