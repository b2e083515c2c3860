/**
 * Base64 of base64.c: the digit maps, mbedtls_base64_encode, and mbedtls_base64_decode with its
 * pass that checks and measures and its pass that writes. Sizes are 32 bits wide.
 */
module Base64 {
  import opened Bytes
  import opened Division

  const SIZE_MAX: nat := 0xFFFF_FFFF

  const LF: Byte := 10
  const CR: Byte := 13
  const SPACE: Byte := 32
  const EQUALS: Byte := 61

  datatype Status = Ok | BufferTooSmall | InvalidCharacter

  // ---------------------------------------------------------------- digits

  type Digit = x: int | 0 <= x < 64

  /** mbedtls_ct_base64_enc_char */
  function EncChar(value: Digit): (c: Byte)
  {
    if value <= 25 then 'A' as int + value
    else if value <= 51 then 'a' as int + value - 26
    else if value <= 61 then '0' as int + value - 52
    else if value == 62 then '+' as int
    else '/' as int
  }

  /** mbedtls_ct_base64_dec_value; -1 for a character that is no digit. */
  function DecValue(c: Byte): (v: int)
    ensures -1 <= v < 64
  {
    if 'A' as int <= c <= 'Z' as int then c - 'A' as int
    else if 'a' as int <= c <= 'z' as int then c - 'a' as int + 26
    else if '0' as int <= c <= '9' as int then c - '0' as int + 52
    else if c == '+' as int then 62
    else if c == '/' as int then 63
    else -1
  }

  predicate IsDigit(c: Byte)
  {
    DecValue(c) >= 0
  }

  /** The two maps are inverse: the digits are exactly the encoded values. */
  lemma DigitMapsInverse(value: Digit, c: Byte)
    ensures DecValue(EncChar(value)) == value
    ensures IsDigit(c) <==> exists v: Digit :: EncChar(v) == c
    ensures IsDigit(c) ==> EncChar(DecValue(c)) == c
  {
    if IsDigit(c) {
      assert EncChar(DecValue(c)) == c;
    }
  }

  /** RFC 4648, table 1: A to Z, a to z, 0 to 9, + and /, one after the other. */
  lemma AlphabetIs(value: Digit)
    ensures EncChar(0) == 'A' as int && EncChar(26) == 'a' as int && EncChar(52) == '0' as int
    ensures EncChar(25) == 'Z' as int && EncChar(51) == 'z' as int && EncChar(61) == '9' as int
    ensures EncChar(62) == '+' as int && EncChar(63) == '/' as int
    ensures value !in {25, 51, 61, 62, 63} ==> EncChar(value + 1) == EncChar(value) + 1
  {
  }

  // ---------------------------------------------------------------- encoding

  function Quad(c1: Byte, c2: Byte, c3: Byte): (q: Bytes)
    ensures |q| == 4
  {
    [EncChar(c1 / 4), EncChar(c1 % 4 * 16 + c2 / 16), EncChar(c2 % 16 * 4 + c3 / 64), EncChar(c3 % 64)]
  }

  /** Three bytes make four digits; one or two left-over bytes make two or three, padded. */
  function Encoded(s: Bytes): (r: Bytes)
  {
    if s == [] then []
    else if |s| == 1 then Quad(s[0], 0, 0)[..2] + [EQUALS, EQUALS]
    else if |s| == 2 then Quad(s[0], s[1], 0)[..3] + [EQUALS]
    else Quad(s[0], s[1], s[2]) + Encoded(s[3..])
  }

  /** RFC 4648, section 10: f, fo and foo. */
  lemma TestVectors()
    ensures Encoded([0x66]) == [0x5A, 0x67, 0x3D, 0x3D]
    ensures Encoded([0x66, 0x6F]) == [0x5A, 0x6D, 0x38, 0x3D]
    ensures Encoded([0x66, 0x6F, 0x6F]) == [0x5A, 0x6D, 0x39, 0x76]
  {
  }

  /** The same: foob, fooba and foobar. */
  lemma LongTestVectors()
    ensures Encoded([0x66, 0x6F, 0x6F, 0x62]) == [0x5A, 0x6D, 0x39, 0x76, 0x59, 0x67, 0x3D, 0x3D]
    ensures Encoded([0x66, 0x6F, 0x6F, 0x62, 0x61]) == [0x5A, 0x6D, 0x39, 0x76, 0x59, 0x6D, 0x45, 0x3D]
    ensures Encoded([0x66, 0x6F, 0x6F, 0x62, 0x61, 0x72]) == [0x5A, 0x6D, 0x39, 0x76, 0x59, 0x6D, 0x46, 0x79]
  {
    hide Encoded;
    TestVectors();
    QuadFoo();
    EncodedUnfold([0x66, 0x6F, 0x6F, 0x62]);
    EncodedUnfold([0x62]);
    assert [0x66, 0x6F, 0x6F, 0x62][3..] == [0x62];
    EncodedUnfold([0x66, 0x6F, 0x6F, 0x62, 0x61]);
    EncodedUnfold([0x62, 0x61]);
    assert [0x66, 0x6F, 0x6F, 0x62, 0x61][3..] == [0x62, 0x61];
    EncodedUnfold([0x66, 0x6F, 0x6F, 0x62, 0x61, 0x72]);
    EncodedUnfold([0x62, 0x61, 0x72]);
    assert [0x66, 0x6F, 0x6F, 0x62, 0x61, 0x72][3..] == [0x62, 0x61, 0x72];
    EncodedUnfold([]);
  }

  lemma QuadFoo()
    ensures Quad(0x66, 0x6F, 0x6F) == [0x5A, 0x6D, 0x39, 0x76] && Quad(0x62, 0x61, 0x72) == [0x59, 0x6D, 0x46, 0x79]
    ensures Quad(0x62, 0, 0)[..2] == [0x59, 0x67] && Quad(0x62, 0x61, 0)[..3] == [0x59, 0x6D, 0x45]
  {
  }

  /** Four characters for every three bytes begun. */
  lemma {:induction false} EncodedSize(s: Bytes)
    ensures |Encoded(s)| == (|s| / 3 + if |s| % 3 != 0 then 1 else 0) * 4
  {
    if |s| >= 3 {
      EncodedSize(s[3..]);
    }
  }

  // ---------------------------------------------------------------- the second pass

  /** The number of padding characters. */
  function Pads(v: Bytes): (n: nat)
    ensures n <= |v|
  {
    if v == [] then 0 else Pads(v[..|v| - 1]) + if v[|v| - 1] == EQUALS then 1 else 0
  }

  /** The value of one character in the accumulator; padding counts as zero. */
  function ItemValue(c: Byte): (d: Digit)
  {
    if IsDigit(c) then DecValue(c) else 0
  }

  /** The value of a group of characters, six bits each. */
  function GroupValue(v: Bytes): (x: nat)
  {
    if v == [] then 0 else 64 * GroupValue(v[..|v| - 1]) + ItemValue(v[|v| - 1])
  }

  /** The bytes a full group yields when the given number of padding characters has been seen. */
  function GroupBytes(x: nat, pads: nat): (b: Bytes)
    ensures |b| == if pads == 0 then 3 else if pads == 1 then 2 else 1
  {
    [x / 0x1_0000 % 0x100] + (if pads <= 1 then [x / 0x100 % 0x100] else []) + (if pads == 0 then [x % 0x100] else [])
  }

  /** What the characters yield, four at a time; an incomplete group yields nothing. */
  function Decoded(v: Bytes, pads: nat): (r: Bytes)
  {
    if |v| < 4 then []
    else
      var seen := pads + Pads(v[..4]);
      GroupBytes(GroupValue(v[..4]), seen) + Decoded(v[4..], seen)
  }

  predicate IsSkipped(c: Byte)
  {
    c == CR || c == LF || c == SPACE
  }

  /** The characters that are not white space. */
  function Items(s: Bytes): (v: Bytes)
    ensures |v| <= |s|
  {
    if s == [] then [] else Items(s[..|s| - 1]) + if IsSkipped(s[|s| - 1]) then [] else [s[|s| - 1]]
  }

  lemma {:induction false} ItemsAppend(s: Bytes, t: Bytes)
    ensures Items(s + t) == Items(s) + Items(t)
  {
    if t == [] {
      assert s + t == s;
    } else {
      ItemsAppend(s, t[..|t| - 1]);
      assert (s + t)[..|s + t| - 1] == s + t[..|t| - 1];
    }
  }

  // ---------------------------------------------------------------- the first pass

  /**
   * What the first pass knows after some characters: whether spaces are pending, whether a CR waits
   * for its LF, the number of characters that count, and how many of them are padding.
   */
  datatype State = Live(spaces: bool, cr: bool, n: nat, equals: nat) | Dead

  const Start := Live(false, false, 0, 0)

  function Step(q: State, c: Byte): State
  {
    if q.Dead? then Dead
    else if q.cr then (if c == LF then Live(false, false, q.n, q.equals) else Dead)
    else if c == SPACE then q.(spaces := true)
    else if c == CR then q.(cr := true)
    else if c == LF then q.(spaces := false)
    else if q.spaces then Dead
    else if c == EQUALS then (if q.equals < 2 then q.(n := q.n + 1, equals := q.equals + 1) else Dead)
    else if q.equals == 0 && IsDigit(c) then q.(n := q.n + 1)
    else Dead
  }

  function Run(q: State, s: Bytes): State
  {
    if s == [] then q else Step(Run(q, s[..|s| - 1]), s[|s| - 1])
  }

  lemma {:induction false} RunAppend(q: State, s: Bytes, t: Bytes)
    ensures Run(q, s + t) == Run(Run(q, s), t)
  {
    if t == [] {
      assert s + t == s;
    } else {
      RunAppend(q, s, t[..|t| - 1]);
      assert (s + t)[..|s + t| - 1] == s + t[..|t| - 1];
    }
  }

  lemma {:induction false} DeadStays(s: Bytes)
    ensures Run(Dead, s) == Dead
  {
    if s != [] {
      DeadStays(s[..|s| - 1]);
    }
  }

  /** The first pass accepts the input. */
  predicate Accepts(s: Bytes)
  {
    var q := Run(Start, s);
    q.Live? && !q.cr
  }

  /** Digits, then at most two padding characters. */
  ghost predicate Shape(v: Bytes, equals: nat)
  {
    && equals <= 2 && equals <= |v|
    && (forall i :: 0 <= i < |v| - equals ==> IsDigit(v[i]))
    && (forall i :: |v| - equals <= i < |v| ==> v[i] == EQUALS)
  }

  /** A live first pass has counted digits followed by at most two padding characters. */
  lemma {:induction false} LiveShape(s: Bytes)
    ensures var q := Run(Start, s); q.Live? ==> |Items(s)| == q.n && Shape(Items(s), q.equals)
  {
    if s != [] {
      LiveShape(s[..|s| - 1]);
    }
  }

  /** The size the first pass announces: the bits of the characters in whole bytes, less the padding. */
  function Announced(n: nat, equals: nat): int
  {
    6 * (n / 8) + (6 * (n % 8) + 7) / 8 - equals
  }

  lemma {:induction false} ShapePads(v: Bytes, equals: nat)
    requires Shape(v, equals)
    ensures Pads(v) == equals
  {
    if v != [] {
      ShapePads(v[..|v| - 1], if equals > 0 then equals - 1 else 0);
    }
  }

  /** The number of bytes the second pass writes. */
  lemma {:induction false} DecodedLength(v: Bytes, equals: nat)
    requires Shape(v, equals)
    ensures |Decoded(v, 0)| == 3 * (|v| / 4) - if equals > |v| % 4 then equals - |v| % 4 else 0
  {
    if |v| >= 4 {
      if |v| - equals >= 4 {
        ShapePads(v[..4], 0);
        DecodedLength(v[4..], equals);
      } else {
        ShapePads(v[..4], equals - (|v| - 4));
      }
    }
  }

  /**
   * For every accepted input the second pass writes no more than the first announced, and as much
   * exactly when the last group is full or as short as its padding.
   */
  lemma WritesAtMostAnnounced(s: Bytes)
    requires Accepts(s)
    ensures var q := Run(Start, s);
            && 0 <= |Decoded(Items(s), 0)| <= Announced(q.n, q.equals)
            && (|Decoded(Items(s), 0)| == Announced(q.n, q.equals) <==> q.n % 4 == 0 || q.equals >= q.n % 4)
  {
    hide Decoded, Items, Shape;
    LiveShape(s);
    var q := Run(Start, s);
    DecodedLength(Items(s), q.equals);
    ShapeBounds(Items(s), q.equals);
    AnnouncedIs(q.n, q.equals);
  }

  lemma ShapeBounds(v: Bytes, equals: nat)
    requires Shape(v, equals)
    ensures equals <= 2 && equals <= |v|
  {
  }

  lemma AnnouncedIs(n: nat, equals: nat)
    ensures Announced(n, equals) == 3 * (n / 4) + n % 4 - equals
  {
    var q, r := n / 8, n % 8;
    assert n == 8 * q + r;
    assert n / 4 == 2 * q + r / 4 && n % 4 == r % 4;
    assert (6 * r + 7) / 8 == 3 * (r / 4) + r % 4;
  }

  // ---------------------------------------------------------------- the whole decoder

  datatype Outcome = Rejected | TooSmall(needed: int) | Done(bytes: Bytes)

  /** What decoding yields with room for some bytes; None stands for a null destination. */
  function DecodeOutcome(s: Bytes, room: Option<nat>): (o: Outcome)
  {
    if !Accepts(s) then Rejected
    else
      var q := Run(Start, s);
      var needed := Announced(q.n, q.equals);
      if q.n == 0 then Done([])
      else if room.None? || room.value < needed then TooSmall(needed)
      else Done(Decoded(Items(s), 0))
  }

  lemma {:induction false} ShapeAccepted(v: Bytes, equals: nat)
    requires Shape(v, equals)
    ensures Run(Start, v) == Live(false, false, |v|, equals) && Items(v) == v
  {
    hide IsDigit, Run, Items;
    if v == [] {
      RunEmpty();
      ItemsSnoc([], LF);
    } else {
      var t, c := v[..|v| - 1], v[|v| - 1];
      var e: nat := if equals > 0 then equals - 1 else 0;
      ShapeAccepted(t, e);
      CrIsNoDigit();
      EqualsIsNoDigit();
      RunPrefix(v, |v| - 1);
      ItemsSnoc(t, c);
      assert v == t + [c] && v[..|v| - 1 + 1] == v;
    }
  }

  lemma ItemsSnoc(t: Bytes, c: Byte)
    ensures Items(t + [c]) == Items(t) + (if IsSkipped(c) then [] else [c]) && Items([]) == []
  {
    assert (t + [c])[..|t|] == t;
  }

  lemma QuadValue(c1: Byte, c2: Byte, c3: Byte)
    ensures GroupValue(Quad(c1, c2, c3)) == 0x1_0000 * c1 + 0x100 * c2 + c3
    ensures forall i :: 0 <= i < 4 ==> IsDigit(Quad(c1, c2, c3)[i])
  {
    var v := Quad(c1, c2, c3);
    hide EncChar, DecValue;
    DigitMapsInverse(c1 / 4, 0);
    DigitMapsInverse(c1 % 4 * 16 + c2 / 16, 0);
    DigitMapsInverse(c2 % 16 * 4 + c3 / 64, 0);
    DigitMapsInverse(c3 % 64, 0);
    GroupValueOf4(v[0], v[1], v[2], v[3]);
  }

  /** Padding counts as zero digits. */
  lemma PaddedValue(c1: Byte, c2: Byte)
    ensures GroupValue(Quad(c1, 0, 0)[..2] + [EQUALS, EQUALS]) == 0x1_0000 * c1
    ensures GroupValue(Quad(c1, c2, 0)[..3] + [EQUALS]) == 0x1_0000 * c1 + 0x100 * c2
  {
    hide EncChar, DecValue;
    EqualsIsNoDigit();
    DigitMapsInverse(c1 / 4, 0);
    DigitMapsInverse(c1 % 4 * 16, 0);
    DigitMapsInverse(c1 % 4 * 16 + c2 / 16, 0);
    DigitMapsInverse(c2 % 16 * 4, 0);
    GroupValueOf4(EncChar(c1 / 4), EncChar(c1 % 4 * 16), EQUALS, EQUALS);
    GroupValueOf4(EncChar(c1 / 4), EncChar(c1 % 4 * 16 + c2 / 16), EncChar(c2 % 16 * 4), EQUALS);
    assert Quad(c1, 0, 0)[..2] + [EQUALS, EQUALS] == [EncChar(c1 / 4), EncChar(c1 % 4 * 16), EQUALS, EQUALS];
    assert Quad(c1, c2, 0)[..3] + [EQUALS]
        == [EncChar(c1 / 4), EncChar(c1 % 4 * 16 + c2 / 16), EncChar(c2 % 16 * 4), EQUALS];
  }

  lemma EqualsIsNoDigit()
    ensures !IsDigit(EQUALS)
  {
  }

  lemma GroupValueOf4(a: Byte, b: Byte, c: Byte, d: Byte)
    ensures GroupValue([a, b, c, d]) == 262144 * ItemValue(a) + 4096 * ItemValue(b) + 64 * ItemValue(c) + ItemValue(d)
  {
    hide ItemValue;
    var v := [a, b, c, d];
    assert v[..3] == [a, b, c] && v[..3][..2] == [a, b] && v[..2][..1] == [a] && v[..1][..0] == [];
    assert GroupValue([]) == 0;
    assert GroupValue([a]) == ItemValue(a);
    assert GroupValue([a, b]) == 64 * ItemValue(a) + ItemValue(b);
    assert GroupValue([a, b, c]) == 64 * (64 * ItemValue(a) + ItemValue(b)) + ItemValue(c);
  }

  lemma OneLeft(c: Byte)
    ensures var v := Encoded([c]); Decoded(v, 0) == [c] && Shape(v, 2)
  {
    hide EncChar, DecValue, GroupValue, Pads, Decoded;
    EqualsIsNoDigit();
    QuadValue(c, 0, 0);
    PaddedValue(c, 0);
    GroupOfFour(Encoded([c]), 0x1_0000 * (c as int), 2);
    BytesOfValue(c, 0, 0);
  }

  lemma TwoLeft(c: Byte, d: Byte)
    ensures var v := Encoded([c, d]); Decoded(v, 0) == [c, d] && Shape(v, 1)
  {
    hide EncChar, DecValue, GroupValue, Pads, Decoded;
    EqualsIsNoDigit();
    QuadValue(c, d, 0);
    PaddedValue(c, d);
    GroupOfFour(Encoded([c, d]), 0x1_0000 * (c as int) + 0x100 * (d as int), 1);
    BytesOfValue(c, d, 0);
  }

  /** Decoding undoes encoding, and encoded text is digits with one padding character per missing byte. */
  lemma {:induction false} DecodedEncoded(s: Bytes)
    ensures Decoded(Encoded(s), 0) == s
    ensures Shape(Encoded(s), (3 - |s| % 3) % 3)
  {
    hide Encoded, Decoded, Shape;
    if s == [] {
      NoneLeft();
    } else if |s| == 1 {
      OneLeft(s[0]);
      assert s == [s[0]];
    } else if |s| == 2 {
      TwoLeft(s[0], s[1]);
      assert s == [s[0], s[1]];
    } else {
      QuadFirst(s);
      DecodedEncoded(s[3..]);
    }
  }

  lemma NoneLeft()
    ensures Decoded(Encoded([]), 0) == [] && Shape(Encoded([]), 0)
  {
  }

  lemma QuadFirst(s: Bytes)
    requires |s| >= 3
    ensures Decoded(Encoded(s), 0) == s[..3] + Decoded(Encoded(s[3..]), 0)
    ensures forall e :: Shape(Encoded(s[3..]), e) ==> Shape(Encoded(s), e)
  {
    hide Quad, IsDigit, Decoded, Encoded, Shape;
    var q, v := Quad(s[0], s[1], s[2]), Encoded(s[3..]);
    EncodedUnfold(s);
    QuadDecodes(s[0], s[1], s[2], v);
    QuadValue(s[0], s[1], s[2]);
    assert s[..3] == [s[0], s[1], s[2]];
    forall e | Shape(v, e)
      ensures Shape(q + v, e)
    {
      DigitsFirst(q, v, e);
    }
  }

  lemma DigitsFirst(q: Bytes, v: Bytes, equals: nat)
    requires Shape(v, equals) && forall i :: 0 <= i < |q| ==> IsDigit(q[i])
    ensures Shape(q + v, equals)
  {
    hide IsDigit;
  }

  lemma QuadDecodes(c1: Byte, c2: Byte, c3: Byte, v: Bytes)
    ensures Decoded(Quad(c1, c2, c3) + v, 0) == [c1, c2, c3] + Decoded(v, 0)
  {
    hide Quad, GroupValue, Pads, IsDigit;
    var q := Quad(c1, c2, c3);
    QuadValue(c1, c2, c3);
    assert |q| == 4;
    ShapePads(q, 0);
    BytesOfValue(c1, c2, c3);
    assert (q + v)[..4] == q && (q + v)[4..] == v;
  }

  /** Any four digits, six bits each, are decoded to the three bytes of the same 24 bits. */
  lemma DecodesGroup(a: Byte, b: Byte, c: Byte, d: Byte, v: Bytes)
    requires IsDigit(a) && IsDigit(b) && IsDigit(c) && IsDigit(d)
    ensures var r := Decoded([a, b, c, d] + v, 0);
            && |r| >= 3 && r[3..] == Decoded(v, 0)
            && 0x1_0000 * (r[0] as int) + 0x100 * (r[1] as int) + r[2]
               == 0x4_0000 * DecValue(a) + 0x1000 * DecValue(b) + 0x40 * DecValue(c) + DecValue(d)
  {
    hide GroupValue, Pads, DecValue;
    var q := [a, b, c, d];
    ShapePads(q, 0);
    GroupValueOf4(a, b, c, d);
    assert (q + v)[..4] == q && (q + v)[4..] == v;
    ThreeBytes(GroupValue(q));
  }

  lemma ThreeBytes(x: nat)
    ensures x < 0x100_0000 ==> 0x1_0000 * (x / 0x1_0000 % 0x100) + 0x100 * (x / 0x100 % 0x100) + x % 0x100 == x
  {
  }

  /** When the whole decoder refuses a text, asks for more room, or succeeds, and the room it asks for. */
  lemma DecodeStatus(s: Bytes, room: Option<nat>)
    ensures var o, v := DecodeOutcome(s, room), Items(s);
            var needed := 3 * (|v| / 4) + |v| % 4 - Pads(v);
            && (o == Rejected <==> !(LinesWell(s) && ItemsWell(s) && (s != [] ==> s[|s| - 1] != CR)))
            && (o != Rejected ==>
                  if v == [] then o == Done([])
                  else if room.Some? && room.value >= needed then o == Done(Decoded(v, 0)) else o == TooSmall(needed))
  {
    hide Run, Items, LinesWell, ItemsWell, Decoded, Announced, Shape;
    AcceptsExact(s);
    LiveShape(s);
    var q := Run(Start, s);
    if Accepts(s) {
      ShapePads(Items(s), q.equals);
      AnnouncedIs(q.n, q.equals);
    }
  }

  lemma GroupOfFour(v: Bytes, x: nat, equals: nat)
    requires |v| == 4 && Shape(v, equals) && GroupValue(v) == x
    ensures Decoded(v, 0) == GroupBytes(x, equals)
  {
    ShapePads(v, equals);
    assert v[..4] == v;
  }

  lemma BytesOfValue(c1: Byte, c2: Byte, c3: Byte)
    ensures var x := 0x1_0000 * c1 + 0x100 * c2 + c3;
            x / 0x1_0000 % 0x100 == c1 && x / 0x100 % 0x100 == c2 && x % 0x100 == c3
  {
  }

  /** Decoding encoded bytes gives them back whenever there is room for them. */
  lemma DecodeOfEncode(s: Bytes, room: nat)
    requires room >= |s|
    ensures DecodeOutcome(Encoded(s), Some(room)) == Done(s)
  {
    hide Encoded, Decoded, Items, Run, Shape, Announced;
    var equals := (3 - |s| % 3) % 3;
    EncodedLength(s);
    DecodedEncoded(s);
    ShapeAccepted(Encoded(s), equals);
  }

  lemma EncodedLength(s: Bytes)
    ensures (|Encoded(s)| == 0 <==> s == []) && Announced(|Encoded(s)|, (3 - |s| % 3) % 3) == |s|
  {
    hide Encoded, Announced;
    EncodedSize(s);
    FourPerThree(|s|, |Encoded(s)|);
    AnnouncedIs(|Encoded(s)|, (3 - |s| % 3) % 3);
  }

  lemma FourPerThree(l: nat, n: nat)
    requires n == (l / 3 + if l % 3 != 0 then 1 else 0) * 4
    ensures n / 4 == l / 3 + (if l % 3 != 0 then 1 else 0) && n % 4 == 0 && (n == 0 <==> l == 0)
    ensures 3 * (n / 4) - (3 - l % 3) % 3 == l
  {
  }

  // ---------------------------------------------------------------- the texts that are accepted

  /** A CR stands before an LF, and a space before another, before a line break or at the end. */
  ghost predicate LinesWell(s: Bytes)
  {
    forall k :: 0 <= k < |s| - 1 ==>
      && (s[k] == CR ==> s[k + 1] == LF)
      && (s[k] == SPACE ==> s[k + 1] == SPACE || s[k + 1] == CR || s[k + 1] == LF)
  }

  /** The characters that count are digits and then at most two padding characters. */
  ghost predicate ItemsWell(s: Bytes)
  {
    exists equals :: Shape(Items(s), equals)
  }

  /** The first pass stays live exactly on texts with good lines and good characters. */
  lemma {:induction false} LiveExact(s: Bytes)
    ensures Run(Start, s).Live? <==> LinesWell(s) && ItemsWell(s)
  {
    hide Run, Items, Shape;
    if s == [] {
      RunNothing(Start);
      NoItems();
    } else {
      var t, c := s[..|s| - 1], s[|s| - 1];
      assert s == t + [c];
      LiveExact(t);
      RunAppend(Start, t, [c]);
      RunOne(Run(Start, t), c);
      LastCharacter(t);
      LiveShape(t);
      LinesNext(t, c);
      ItemsSnoc(t, c);
      var equals: nat := 0;
      if Run(Start, t).Live? {
        equals := Run(Start, t).equals;
      } else if ItemsWell(t) {
        equals :| Shape(Items(t), equals);
      }
      ItemsNext(t, c, equals);
    }
  }

  lemma NoItems()
    ensures ItemsWell([])
  {
    assert Shape(Items([]), 0);
  }

  lemma LinesNext(t: Bytes, c: Byte)
    ensures LinesWell(t + [c]) <==>
              LinesWell(t) && (t != [] && t[|t| - 1] == CR ==> c == LF)
              && (t != [] && t[|t| - 1] == SPACE ==> c == SPACE || c == CR || c == LF)
  {
    var s := t + [c];
    assert forall k :: 0 <= k < |t| ==> s[k] == t[k];
    assert t != [] ==> s[|t| - 1] == t[|t| - 1] && s[|t|] == c;
    if LinesWell(s) && t != [] {
      assert s[|t| - 1] == CR ==> s[|t| - 1 + 1] == LF;
    }
  }

  lemma ItemsNext(t: Bytes, c: Byte, equals: nat)
    requires ItemsWell(t) ==> Shape(Items(t), equals)
    ensures IsSkipped(c) ==> (ItemsWell(t + [c]) <==> ItemsWell(t))
    ensures !IsSkipped(c) ==>
              (ItemsWell(t + [c]) <==> ItemsWell(t) && if c == EQUALS then equals < 2 else equals == 0 && IsDigit(c))
  {
    hide Items, IsDigit;
    ItemsSnoc(t, c);
    var v := Items(t);
    if IsSkipped(c) {
      assert v + [] == v;
    } else {
      EqualsIsNoDigit();
      if ItemsWell(t + [c]) {
        var e :| Shape(v + [c], e);
        ShapeShorter(v, c, e);
      }
      if ItemsWell(t) && (if c == EQUALS then equals < 2 else equals == 0 && IsDigit(c)) {
        assert Shape(v + [c], if c == EQUALS then equals + 1 else 0);
      }
    }
  }

  /** Without its last character the shape has one padding character less, if that was one. */
  lemma ShapeShorter(v: Bytes, c: Byte, e: nat)
    requires Shape(v + [c], e)
    ensures Shape(v, if e > 0 then e - 1 else 0)
    ensures if e > 0 then c == EQUALS else IsDigit(c)
    ensures forall equals :: Shape(v, equals) ==> equals == if e > 0 then e - 1 else 0
  {
    var w := v + [c];
    assert forall i :: 0 <= i < |v| ==> v[i] == w[i];
    assert w[|v|] == c;
    forall equals | Shape(v, equals)
      ensures equals == if e > 0 then e - 1 else 0
    {
      ShapePads(v, equals);
      ShapePads(v, if e > 0 then e - 1 else 0);
    }
  }

  /** The whole grammar: good lines that do not end in a lone CR, and good characters. */
  lemma AcceptsExact(s: Bytes)
    ensures Accepts(s) <==> LinesWell(s) && ItemsWell(s) && (s != [] ==> s[|s| - 1] != CR)
  {
    hide Run, Items, LinesWell, ItemsWell;
    LiveExact(s);
    LastCharacter(s);
  }

  // ---------------------------------------------------------------- line breaks

  /** The text with something inserted at position k. */
  function Insert(s: Bytes, k: nat, t: Bytes): Bytes
    requires k <= |s|
  {
    s[..k] + t + s[k..]
  }

  /** Accepted texts with the same characters and the same end state decode alike. */
  lemma SameOutcome(s: Bytes, t: Bytes, room: Option<nat>)
    requires Items(s) == Items(t)
    requires Run(Start, s) == Run(Start, t) || (!Accepts(s) && !Accepts(t))
    ensures DecodeOutcome(s, room) == DecodeOutcome(t, room)
  {
  }

  lemma InsertItems(s: Bytes, k: nat, t: Bytes)
    requires k <= |s| && Items(t) == []
    ensures Items(Insert(s, k, t)) == Items(s)
  {
    ItemsAppend(s[..k] + t, s[k..]);
    ItemsAppend(s[..k], t);
    ItemsAppend(s[..k], s[k..]);
    assert s[..k] + s[k..] == s;
  }

  lemma InsertRun(s: Bytes, k: nat, t: Bytes)
    requires k <= |s|
    ensures Run(Start, Insert(s, k, t)) == Run(Run(Run(Start, s[..k]), t), s[k..])
    ensures Run(Start, s) == Run(Run(Start, s[..k]), s[k..])
  {
    RunAppend(Start, s[..k] + t, s[k..]);
    RunAppend(Start, s[..k], t);
    RunAppend(Start, s[..k], s[k..]);
    assert s[..k] + s[k..] == s;
  }

  lemma RunOne(q: State, c: Byte)
    ensures Run(q, [c]) == Step(q, c)
  {
    assert [c][..0] == [];
    assert Run(q, []) == q;
  }

  lemma RunTwo(q: State, c: Byte, d: Byte)
    ensures Run(q, [c, d]) == Step(Step(q, c), d)
  {
    assert [c, d][..1] == [c];
    RunOne(q, c);
  }

  lemma BreaksAreSkipped()
    ensures Items([LF]) == [] && Items([CR, LF]) == []
  {
    assert [CR, LF][..1] == [CR] && [CR][..0] == [] && [LF][..0] == [];
    assert Items([]) == [];
    assert Items([CR]) == [];
  }

  /** The state tells the last character: a pending space or a waiting CR. */
  lemma LastCharacter(s: Bytes)
    ensures var q := Run(Start, s);
            q.Live? ==>
              && (q.cr <==> s != [] && s[|s| - 1] == CR)
              && (!q.cr ==> (q.spaces <==> s != [] && s[|s| - 1] == SPACE))
  {
  }

  /** What follows pending spaces is treated as without them, unless it is a digit on the same line. */
  lemma {:induction false} SpacesDropped(q: State, t: Bytes)
    requires q.Live? && !q.cr
    ensures var r, r' := Run(q.(spaces := true), t), Run(q.(spaces := false), t);
            r == r' || r == Dead
            || (r.Live? && r'.Live? && !r.cr && !r'.cr && r == r'.(spaces := true))
            || (r.Live? && r'.Live? && r.cr && r'.cr && r == r'.(spaces := true))
  {
    if t != [] {
      SpacesDropped(q, t[..|t| - 1]);
    }
  }

  /** A line feed inserted anywhere into an accepted text does not change what it decodes to. */
  lemma InsertLf(s: Bytes, k: nat, room: Option<nat>)
    requires k <= |s| && Accepts(s)
    ensures DecodeOutcome(Insert(s, k, [LF]), room) == DecodeOutcome(s, room)
  {
    hide Decoded;
    InsertBreak(s, k);
    BreaksAreSkipped();
    InsertItems(s, k, [LF]);
  }

  /** After a line feed the text goes on as it would have. */
  lemma InsertBreak(s: Bytes, k: nat)
    requires k <= |s| && Accepts(s)
    ensures var t := Run(Start, Insert(s, k, [LF]));
            t.Live? && !t.cr && t.n == Run(Start, s).n && t.equals == Run(Start, s).equals
  {
    hide Run, Insert;
    var q, t := Run(Start, s[..k]), s[k..];
    InsertRun(s, k, [LF]);
    RunOne(q, LF);
    BreakBefore(q, t);
  }

  /** A line feed before a text that is accepted from a state. */
  lemma BreakBefore(q: State, t: Bytes)
    requires Run(q, t).Live? && !Run(q, t).cr
    ensures var r := Run(Step(q, LF), t); r.Live? && !r.cr && r.n == Run(q, t).n && r.equals == Run(q, t).equals
  {
    hide Run;
    if q.Dead? {
      DeadStays(t);
    } else if q.cr {
      FirstAfterCr(q, t);
    } else if q.spaces {
      SpacesDropped(q, t);
      assert q.(spaces := true) == q;
    } else {
      assert Step(q, LF) == q;
    }
  }

  /** After a CR an accepted text goes on with a line feed. */
  lemma FirstAfterCr(q: State, t: Bytes)
    requires q.Live? && q.cr && Run(q, t).Live? && !Run(q, t).cr
    ensures t != [] && t[0] == LF && Run(q, t) == Run(Live(false, false, q.n, q.equals), t)
  {
    if t != [] {
      var fresh' := Live(false, false, q.n, q.equals);
      RunAppend(q, t[..1], t[1..]);
      RunAppend(fresh', t[..1], t[1..]);
      assert t[..1] + t[1..] == t && t[..1] == [t[0]];
      RunOne(q, t[0]);
      RunOne(fresh', t[0]);
      if t[0] != LF {
        DeadStays(t[1..]);
      }
    }
  }

  /**
   * CR LF inserted into an accepted text does not change what it decodes to, except between the CR
   * and the LF of a line break, where it makes the decoder reject the text.
   */
  lemma InsertCrLf(s: Bytes, k: nat, room: Option<nat>)
    requires k <= |s| && Accepts(s)
    ensures DecodeOutcome(Insert(s, k, [CR, LF]), room)
         == if k > 0 && s[k - 1] == CR then Rejected else DecodeOutcome(s, room)
  {
    hide Decoded, Run, Items, Insert;
    var q, t := Run(Start, s[..k]), s[k..];
    InsertRun(s, k, [CR, LF]);
    InsertRun(s, k, [LF]);
    RunTwo(q, CR, LF);
    RunOne(q, LF);
    LastCharacter(s[..k]);
    if q.Dead? || q.cr {
      DeadStays(t);
      if q.Dead? {
        RejectedAt(s, k);
      }
    } else {
      BreaksAreSkipped();
      InsertItems(s, k, [CR, LF]);
      InsertItems(s, k, [LF]);
      assert Step(Step(q, CR), LF) == Step(q, LF);
      SameOutcome(Insert(s, k, [CR, LF]), Insert(s, k, [LF]), room);
      InsertLf(s, k, room);
    }
  }

  /** Rejected texts too keep their outcome when the line break does not follow a space or a CR. */
  lemma InsertAfterOther(s: Bytes, k: nat, room: Option<nat>)
    requires k <= |s| && (k == 0 || s[k - 1] !in {SPACE, CR})
    ensures DecodeOutcome(Insert(s, k, [LF]), room) == DecodeOutcome(s, room)
         == DecodeOutcome(Insert(s, k, [CR, LF]), room)
  {
    InsertLfExact(s, k, room);
    InsertCrLfExact(s, k, room);
  }

  /** After its leading spaces the text goes on with something that begins no line break. */
  predicate LineGoesOn(t: Bytes)
  {
    if t == [] then false
    else if t[0] == SPACE then LineGoesOn(t[1..])
    else t[0] != LF && !(t[0] == CR && |t| > 1 && t[1] == LF)
  }

  lemma RunFirst(q: State, t: Bytes)
    requires t != []
    ensures Run(q, t) == Run(Step(q, t[0]), t[1..])
  {
    RunAppend(q, [t[0]], t[1..]);
    RunOne(q, t[0]);
    assert t == [t[0]] + t[1..];
  }

  /** The state accepts if the text ends here. */
  predicate Final(q: State)
  {
    q.Live? && !q.cr
  }

  /** With spaces pending only a text that does not go on in the line is accepted. */
  lemma {:induction false} GoesOnRejected(q: State, t: Bytes)
    requires q.Live? && !q.cr && q.spaces && Final(Run(q, t))
    ensures !LineGoesOn(t)
  {
    hide Run;
    if t != [] {
      RunFirst(q, t);
      if t[0] == SPACE {
        assert Step(q, SPACE) == q;
        GoesOnRejected(q, t[1..]);
      } else if t[0] == CR {
        AfterCr(Step(q, CR), t[1..]);
      } else if t[0] != LF {
        DeadStays(t[1..]);
      }
    }
  }

  /** After a CR only a text that begins with LF is accepted. */
  lemma AfterCr(q: State, t: Bytes)
    requires q.Live? && q.cr
    ensures Final(Run(q, t)) ==> t != [] && t[0] == LF
    ensures t != [] && t[0] == LF ==> Run(q, t) == Run(Live(false, false, q.n, q.equals), t[1..])
  {
    hide Run;
    if t == [] {
      RunNothing(q);
    } else {
      RunFirst(q, t);
      if t[0] != LF {
        DeadStays(t[1..]);
      }
    }
  }

  lemma RunNothing(q: State)
    ensures Run(q, []) == q
  {
  }

  /** Pending spaces matter to a text accepted without them exactly when it goes on in the line. */
  lemma SpacesMatter(q: State, t: Bytes)
    requires q.Live? && !q.cr && q.spaces && Final(Run(q.(spaces := false), t))
    ensures Final(Run(q, t)) <==> !LineGoesOn(t)
  {
    hide Run;
    var p := q.(spaces := false);
    if t == [] {
      RunNothing(q);
    } else {
      RunFirst(q, t);
      RunFirst(p, t);
      if t[0] == SPACE {
        GoesOnRejected(q, t[1..]);
      } else if t[0] == CR {
        AfterCr(Step(p, CR), t[1..]);
        AfterCr(Step(q, CR), t[1..]);
      } else if t[0] != LF {
        DeadStays(t[1..]);
      }
    }
  }

  /** A line feed at position k repairs the text: it follows a lone CR, or spaces inside a line. */
  predicate Repairs(s: Bytes, k: nat)
    requires k <= |s|
  {
    k > 0 && ((s[k - 1] == CR && !(k < |s| && s[k] == LF)) || (s[k - 1] == SPACE && LineGoesOn(s[k..])))
  }

  /**
   * For every text: where the text with a line feed at position k is accepted, the text without it is
   * accepted too, except exactly where the line feed repairs it; and only then do the outcomes differ.
   */
  lemma InsertLfExact(s: Bytes, k: nat, room: Option<nat>)
    requires k <= |s|
    ensures Accepts(Insert(s, k, [LF])) ==> (Accepts(s) <==> !Repairs(s, k))
    ensures DecodeOutcome(Insert(s, k, [LF]), room) == DecodeOutcome(s, room)
            <==> !(Accepts(Insert(s, k, [LF])) && Repairs(s, k))
  {
    hide Decoded, Run, Items, Insert;
    var q, t := Run(Start, s[..k]), s[k..];
    InsertRun(s, k, [LF]);
    RunOne(q, LF);
    LastCharacter(s[..k]);
    AcceptsIs(s);
    AcceptsIs(Insert(s, k, [LF]));
    if Accepts(Insert(s, k, [LF])) {
      if q.Dead? {
        DeadStays(t);
      } else if q.cr {
        AfterCr(q, t);
        if t != [] && t[0] == LF {
          RunFirst(Step(q, LF), t);
        }
      } else if q.spaces {
        SpacesMatter(q, t);
      } else {
        assert Step(q, LF) == q;
      }
    }
    if Accepts(s) {
      InsertLf(s, k, room);
    }
  }

  /**
   * For every text: CR LF at a position that does not follow a CR does what LF alone does there; after
   * a CR the text with it is rejected, so the outcome changes exactly when the text was accepted.
   */
  lemma InsertCrLfExact(s: Bytes, k: nat, room: Option<nat>)
    requires k <= |s|
    ensures k > 0 && s[k - 1] == CR ==>
              && !Accepts(Insert(s, k, [CR, LF]))
              && (DecodeOutcome(Insert(s, k, [CR, LF]), room) == DecodeOutcome(s, room) <==> !Accepts(s))
    ensures !(k > 0 && s[k - 1] == CR) ==>
              && (DecodeOutcome(Insert(s, k, [CR, LF]), room) == DecodeOutcome(s, room)
                  <==> !(Accepts(Insert(s, k, [CR, LF])) && Repairs(s, k)))
  {
    hide Decoded, Run, Items, Insert;
    var q, t := Run(Start, s[..k]), s[k..];
    InsertRun(s, k, [CR, LF]);
    InsertRun(s, k, [LF]);
    RunTwo(q, CR, LF);
    RunOne(q, LF);
    LastCharacter(s[..k]);
    AcceptsIs(s);
    if q.Dead? || q.cr {
      DeadStays(t);
      AcceptsIs(Insert(s, k, [CR, LF]));
    }
    if !(k > 0 && s[k - 1] == CR) {
      assert Step(Step(q, CR), LF) == Step(q, LF);
      BreaksAreSkipped();
      InsertItems(s, k, [CR, LF]);
      InsertItems(s, k, [LF]);
      SameOutcome(Insert(s, k, [CR, LF]), Insert(s, k, [LF]), room);
      AcceptsIs(Insert(s, k, [CR, LF]));
      AcceptsIs(Insert(s, k, [LF]));
      InsertLfExact(s, k, room);
    }
  }

  /** An accepted text and a place where CR LF makes it rejected: inside its line break. */
  lemma BreakSplit(room: Option<nat>)
    ensures var s: Bytes := [CR, LF];
            DecodeOutcome(s, room) == Done([]) && DecodeOutcome(Insert(s, 1, [CR, LF]), room) == Rejected
  {
    hide Decoded, Items, Insert;
    RunTwo(Start, CR, LF);
    InsertCrLf([CR, LF], 1, room);
  }

  /** A rejected text can become an accepted one: a line feed after a space, or after a lone CR. */
  lemma BreakRepairs(room: Option<nat>)
    ensures var spaced: Bytes := [65, SPACE, 65];
            DecodeOutcome(spaced, room) == Rejected && DecodeOutcome(Insert(spaced, 2, [LF]), room) != Rejected
    ensures var lone: Bytes := [65, CR];
            DecodeOutcome(lone, room) == Rejected && DecodeOutcome(Insert(lone, 2, [LF]), room) != Rejected
  {
    hide Decoded, Items;
    var spaced: Bytes, lone: Bytes := [65, SPACE, 65], [65, CR];
    RunTwo(Start, 65, SPACE);
    RunTwo(Start, 65, CR);
    assert spaced[..2] == [65, SPACE] && lone[..2] == lone && lone[2..] == [] && spaced[2..] == [65];
    InsertRun(spaced, 2, [LF]);
    InsertRun(lone, 2, [LF]);
    var q := Run(Start, spaced[..2]);
    RunOne(q, LF);
    RunOne(q, 65);
    RunOne(Step(q, LF), 65);
    var r := Run(Start, lone);
    RunOne(r, LF);
    assert Run(Step(r, LF), []) == Step(r, LF);
  }

  // ---------------------------------------------------------------- the implementation

  /** mbedtls_base64_encode; olen is set in every case. */
  method Encode(dst: array?<Byte>, dlen: nat, src: Bytes) returns (status: Status, olen: nat)
    requires |src| <= SIZE_MAX && (dst != null ==> dlen <= dst.Length)
    modifies dst
    ensures var n := |src| / 3 + if |src| % 3 != 0 then 1 else 0;
            if src == [] then status == Ok && olen == 0
            else if n > (SIZE_MAX - 1) / 4 then status == BufferTooSmall && olen == SIZE_MAX
            else if dst == null || dlen < |Encoded(src)| + 1 then status == BufferTooSmall && olen == |Encoded(src)| + 1
            else status == Ok && olen == |Encoded(src)| && dst[..olen] == Encoded(src) && dst[olen] == 0
    ensures dst != null ==>
              forall j :: 0 <= j < dst.Length && (status != Ok || src == [] || j > olen) ==> dst[j] == old(dst[j])
  {
    hide Encoded, Quad;
    EncodedSize(src);
    if |src| == 0 {
      return Ok, 0;
    }
    var n := |src| / 3 + if |src| % 3 != 0 then 1 else 0;
    if n > (SIZE_MAX - 1) / 4 {
      return BufferTooSmall, SIZE_MAX;
    }
    n := n * 4;
    if dlen < n + 1 || dst == null {
      return BufferTooSmall, n + 1;
    }
    n := |src| / 3 * 3;
    var i, p := 0, 0;
    assert dst[..0] == [] && src[0..] == src;
    while i < n
      invariant 0 <= i <= n && i % 3 == 0
      invariant p + |Encoded(src[i..])| == |Encoded(src)| && p <= |Encoded(src)| < dst.Length
      invariant dst[..p] + Encoded(src[i..]) == Encoded(src)
      invariant forall j :: p <= j < dst.Length ==> dst[j] == old(dst[j])
    {
      var q := Quad(src[i], src[i + 1], src[i + 2]);
      EncodedUnfold(src[i..]);
      assert src[i..][3..] == src[i + 3..];
      PutQuad(dst, p, q);
      i, p := i + 3, p + 4;
    }
    EncodedUnfold(src[i..]);
    if i < |src| {
      var c1 := src[i];
      var c2 := if i + 1 < |src| then src[i + 1] else 0;
      var q := Quad(c1, c2, 0);
      PutQuad(dst, p, [q[0], q[1], if i + 1 < |src| then q[2] else EQUALS, EQUALS]);
      p := p + 4;
    } else {
      assert src[i..] == [];
    }
    dst[p] := 0;
    assert dst[..p] == Encoded(src);
    return Ok, p;
  }

  /** *p++ four times */
  method PutQuad(dst: array<Byte>, p: nat, q: Bytes)
    requires p + 4 <= dst.Length && |q| == 4
    modifies dst
    ensures dst[..p + 4] == old(dst[..p]) + q
    ensures forall j :: p + 4 <= j < dst.Length ==> dst[j] == old(dst[j])
  {
    dst[p] := q[0];
    dst[p + 1] := q[1];
    dst[p + 2] := q[2];
    dst[p + 3] := q[3];
  }

  lemma EncodedUnfold(s: Bytes)
    ensures s == [] ==> Encoded(s) == []
    ensures |s| == 1 ==> Encoded(s) == [Quad(s[0], 0, 0)[0], Quad(s[0], 0, 0)[1], EQUALS, EQUALS]
    ensures |s| == 2 ==> Encoded(s) == [Quad(s[0], s[1], 0)[0], Quad(s[0], s[1], 0)[1], Quad(s[0], s[1], 0)[2], EQUALS]
    ensures |s| >= 3 ==> Encoded(s) == Quad(s[0], s[1], s[2]) + Encoded(s[3..])
  {
  }

  lemma RunPrefix(s: Bytes, i: nat)
    requires i < |s|
    ensures Run(Start, s[..i + 1]) == Step(Run(Start, s[..i]), s[i])
  {
    assert s[..i + 1][..i] == s[..i];
  }

  lemma RejectedAt(s: Bytes, i: nat)
    requires i <= |s| && Run(Start, s[..i]).Dead?
    ensures !Accepts(s)
  {
    RunAppend(Start, s[..i], s[i..]);
    DeadStays(s[i..]);
    assert s[..i] + s[i..] == s;
  }

  /** A CR that no LF follows is rejected. */
  lemma LoneCr(s: Bytes, i: nat)
    requires i < |s| && s[i] == CR && Run(Start, s[..i]).Live? && !Run(Start, s[..i]).cr
    requires i + 1 < |s| ==> s[i + 1] != LF
    ensures !Accepts(s)
  {
    RunPrefix(s, i);
    if i + 1 < |s| {
      RunPrefix(s, i + 1);
      RejectedAt(s, i + 2);
    } else {
      assert s[..i + 1] == s;
    }
  }

  /** The variables of the first pass agree with the state. */
  ghost predicate Reached(q: State, spaces: bool, cr: bool, n: nat, equals: nat)
  {
    q.Live? && q.cr == cr && q.n == n && q.equals == equals && (!cr ==> q.spaces == spaces)
  }

  /** The first pass of mbedtls_base64_decode. */
  method CheckAndCount(src: Bytes) returns (ok: bool, n: nat, equals: nat)
    ensures ok == Accepts(src)
    ensures ok ==> Run(Start, src).n == n && Run(Start, src).equals == equals
  {
    hide Run, DecValue, Accepts;
    var i := 0;
    n, equals := 0, 0;
    RunEmpty();
    assert src[..0] == [];
    ghost var cr := false;
    while i < |src|
      invariant i <= |src| && equals <= 2 && (cr ==> i < |src| && src[i] == LF)
      invariant Reached(Run(Start, src[..i]), false, cr, n, equals)
    {
      var spacesPresent := false;
      ghost var before := i;
      while i < |src| && src[i] == SPACE
        invariant before <= i <= |src|
        invariant spacesPresent <==> i > before
        invariant cr ==> i == before
        invariant Reached(Run(Start, src[..i]), spacesPresent, cr, n, equals)
      {
        RunPrefix(src, i);
        i := i + 1;
        spacesPresent := true;
      }
      if i == |src| {
        break;
      }
      RunPrefix(src, i);
      if |src| - i >= 2 && src[i] == CR && src[i + 1] == LF {
        i := i + 1;
        cr := true;
        continue;
      }
      if src[i] == LF {
        i := i + 1;
        cr := false;
        continue;
      }
      if src[i] == CR {
        LoneCr(src, i);
      } else if Run(Start, src[..i + 1]).Dead? {
        RejectedAt(src, i + 1);
      }
      if spacesPresent {
        return false, n, equals;
      }
      if src[i] > 127 {
        HighIsNoDigit(src[i]);
        return false, n, equals;
      }
      if src[i] == EQUALS {
        equals := equals + 1;
        if equals > 2 {
          return false, n, equals;
        }
      } else {
        if equals != 0 {
          return false, n, equals;
        }
        if DecValue(src[i]) < 0 {
          return false, n, equals;
        }
        CrIsNoDigit();
      }
      n := n + 1;
      i := i + 1;
    }
    assert src[..|src|] == src;
    AcceptsIs(src);
    return true, n, equals;
  }

  lemma RunEmpty()
    ensures Run(Start, []) == Start
  {
  }

  lemma HighIsNoDigit(c: Byte)
    requires c > 127
    ensures !IsDigit(c)
  {
  }

  lemma CrIsNoDigit()
    ensures !IsDigit(CR) && !IsDigit(SPACE) && !IsDigit(LF)
  {
  }

  lemma AcceptsIs(s: Bytes)
    ensures Accepts(s) <==> Run(Start, s).Live? && !Run(Start, s).cr
  {
  }

  function Pow64(k: nat): nat
  {
    if k == 0 then 1 else if k == 1 then 64 else if k == 2 then 4096 else if k == 3 then 262144 else 16777216
  }

  /** The low bits of the accumulator are the characters of the group begun. */
  ghost predicate Accumulates(x: nat, group: Bytes)
  {
    |group| <= 4 && x < 0x1_0000_0000 && x % Pow64(|group|) == GroupValue(group)
  }

  /** The accumulator is shifted in 32 bits, so earlier groups drop out at the top. */
  lemma NextDigit(x: nat, group: Bytes, c: Byte)
    requires Accumulates(x, group) && |group| < 4
    ensures Accumulates(64 * x % 0x1_0000_0000 + ItemValue(c), group + [c])
  {
    hide GroupValue, ItemValue;
    GroupValueAppend(group, c);
    var v := ItemValue(c);
    var k := |group|;
    if k == 0 {
      DigitStep(x, v, 1, 0x400_0000);
    } else if k == 1 {
      DigitStep(x, v, 64, 0x10_0000);
    } else if k == 2 {
      DigitStep(x, v, 4096, 0x4000);
    } else {
      DigitStep(x, v, 262144, 0x100);
    }
    assert |group + [c]| == k + 1;
  }

  lemma DigitStep(x: nat, v: Digit, m: nat, c: nat)
    requires m > 0 && 64 * (m * c) == 0x1_0000_0000
    ensures (64 * x % 0x1_0000_0000 + v) % (64 * m) == 64 * (x % m) + v
    ensures 64 * x % 0x1_0000_0000 + v < 0x1_0000_0000
  {
    var q, r, h := x / m, x % m, x / 0x400_0000;
    ShiftedOut(x);
    Regroup(x, m, q, r, c, h);
    DivUnique(64 * x - 0x1_0000_0000 * h + v, 64 * m, q - c * h, 64 * r + v);
  }

  /** What a shift by six bits pushes out of 32. */
  lemma ShiftedOut(x: nat)
    ensures 64 * x % 0x1_0000_0000 == 64 * x - 0x1_0000_0000 * (x / 0x400_0000) <= 0xFFFF_FFC0
  {
    var h, w := x / 0x400_0000, x % 0x400_0000;
    DivUnique(64 * x, 0x1_0000_0000, h, 64 * w);
  }

  lemma Regroup(x: int, m: int, q: int, r: int, c: int, h: int)
    requires x == m * q + r
    ensures 64 * x - (64 * (m * c)) * h == (64 * m) * (q - c * h) + 64 * r
  {
    assert (m * c) * h == m * (c * h);
    assert m * (q - c * h) == m * q - m * (c * h);
  }

  lemma GroupValueAppend(group: Bytes, c: Byte)
    ensures GroupValue(group + [c]) == 64 * GroupValue(group) + ItemValue(c)
  {
    assert (group + [c])[..|group|] == group;
  }

  lemma GroupBytesOfAccumulator(x: nat, group: Bytes, pads: nat)
    requires Accumulates(x, group) && |group| == 4
    ensures GroupBytes(x, pads) == GroupBytes(GroupValue(group), pads)
  {
    hide GroupValue;
    LowBytes(x, GroupValue(group));
  }

  lemma LowBytes(x: nat, v: nat)
    requires v == x % 0x100_0000
    ensures x / 0x1_0000 % 0x100 == v / 0x1_0000 % 0x100 && x / 0x100 % 0x100 == v / 0x100 % 0x100
    ensures x % 0x100 == v % 0x100
  {
    var q := x / 0x100_0000;
    DivMod(x, 0x100_0000);
    AddMultiple(v, 0x1_0000, 0x100 * q);
    AddMultiple(v / 0x1_0000, 0x100, q);
    AddMultiple(v, 0x100, 0x1_0000 * q);
    AddMultiple(v / 0x100, 0x100, 0x100 * q);
  }

  /** Bytes written, group begun and text left together make up the result. */
  ghost predicate Remaining(done: Bytes, group: Bytes, rest: Bytes, base: nat, whole: Bytes)
  {
    done + Decoded(group + rest, base) == whole
  }

  lemma GroupDone(done: Bytes, group: Bytes, rest: Bytes, base: nat, whole: Bytes)
    requires Remaining(done, group, rest, base, whole) && |group| == 4
    ensures var seen := base + Pads(group);
            Remaining(done + GroupBytes(GroupValue(group), seen), [], rest, seen, whole)
            && |done| + |GroupBytes(GroupValue(group), seen)| <= |whole|
  {
    assert (group + rest)[..4] == group && (group + rest)[4..] == rest;
    assert [] + rest == rest;
  }

  lemma ItemsFirst(s: Bytes, i: nat)
    requires i < |s|
    ensures Items(s[i..]) == (if IsSkipped(s[i]) then [] else [s[i]]) + Items(s[i + 1..])
  {
    ItemsAppend([s[i]], s[i + 1..]);
    assert s[i..] == [s[i]] + s[i + 1..];
    assert [s[i]][..0] == [];
    assert Items([]) == [];
  }

  /** Accepted texts hold nothing but digits, padding and white space. */
  lemma AcceptedItem(s: Bytes, i: nat)
    requires Accepts(s) && i < |s| && !IsSkipped(s[i])
    ensures s[i] == EQUALS || IsDigit(s[i])
  {
    hide Run, IsDigit;
    LiveShape(s);
    ItemsAppend(s[..i], s[i..]);
    ItemsFirst(s, i);
    assert s == s[..i] + s[i..];
    assert Items(s)[|Items(s[..i])|] == s[i];
  }

  lemma PadsAppend(group: Bytes, c: Byte)
    ensures Pads(group + [c]) == Pads(group) + if c == EQUALS then 1 else 0
  {
    assert (group + [c])[..|group|] == group;
  }

  /** The second pass of mbedtls_base64_decode. */
  method WriteBytes(dst: array<Byte>, src: Bytes) returns (olen: nat)
    requires Accepts(src) && |Decoded(Items(src), 0)| <= dst.Length
    modifies dst
    ensures olen == |Decoded(Items(src), 0)| && dst[..olen] == Decoded(Items(src), 0)
    ensures forall j :: olen <= j < dst.Length ==> dst[j] == old(dst[j])
  {
    hide Decoded, Items, DecValue, GroupBytes, Pads, GroupValue, Accepts, Remaining, Accumulates;
    ghost var whole := Decoded(Items(src), 0);
    ghost var group: Bytes, base: nat := [], 0;
    var i: nat, p: nat, x: nat, accumulated: nat, equals: nat := 0, 0, 0, 0, 0;
    StartsEmpty(src);
    while i < |src|
      invariant i <= |src| && p <= |whole| && |group| == accumulated < 4
      invariant equals == base + Pads(group) && Accumulates(x, group)
      invariant Remaining(dst[..p], group, Items(src[i..]), base, whole)
      invariant forall j :: p <= j < dst.Length ==> dst[j] == old(dst[j])
    {
      ItemsFirst(src, i);
      if src[i] == CR || src[i] == LF || src[i] == SPACE {
        assert Items(src[i..]) == Items(src[i + 1..]);
        i := i + 1;
        continue;
      }
      var c := src[i];
      AcceptedItem(src, i);
      EqualsIsNoDigit();
      NextDigit(x, group, c);
      PadsAppend(group, c);
      MoveItem(dst[..p], group, c, Items(src[i + 1..]), base, whole);
      group := group + [c];
      x := 64 * x % 0x1_0000_0000;
      if c == EQUALS {
        equals := equals + 1;
      } else {
        x := x + DecValue(c);
      }
      accumulated := accumulated + 1;
      if accumulated == 4 {
        accumulated := 0;
        GroupDone(dst[..p], group, Items(src[i + 1..]), base, whole);
        GroupBytesOfAccumulator(x, group, equals);
        p := PutGroup(dst, p, x, equals);
        base := equals;
        group := [];
        EmptyGroup(x);
      }
      i := i + 1;
    }
    NothingLeft(dst[..p], group, base, whole);
    assert src[i..] == [];
    olen := p;
  }

  lemma StartsEmpty(src: Bytes)
    ensures Accumulates(0, []) && Pads([]) == 0
    ensures Remaining([], [], Items(src[0..]), 0, Decoded(Items(src), 0))
  {
    assert src[0..] == src && [] + Items(src) == Items(src);
    assert GroupValue([]) == 0;
  }

  lemma EmptyGroup(x: nat)
    ensures Pads([]) == 0 && (x < 0x1_0000_0000 ==> Accumulates(x, []))
  {
    assert GroupValue([]) == 0 && x % 1 == 0;
  }

  lemma MoveItem(done: Bytes, group: Bytes, c: Byte, rest: Bytes, base: nat, whole: Bytes)
    requires Remaining(done, group, [c] + rest, base, whole)
    ensures Remaining(done, group + [c], rest, base, whole)
  {
    assert group + [c] + rest == group + ([c] + rest);
  }

  lemma NothingLeft(done: Bytes, group: Bytes, base: nat, whole: Bytes)
    requires Remaining(done, group, Items([]), base, whole) && |group| < 4
    ensures done == whole
  {
    assert group + [] == group;
  }

  /** The bytes of one group, as many as its padding leaves. */
  method PutGroup(dst: array<Byte>, p: nat, x: nat, equals: nat) returns (next: nat)
    requires p + |GroupBytes(x, equals)| <= dst.Length
    modifies dst
    ensures next == p + |GroupBytes(x, equals)| && dst[..next] == old(dst[..p]) + GroupBytes(x, equals)
    ensures forall j :: next <= j < dst.Length ==> dst[j] == old(dst[j])
  {
    next := p;
    dst[next] := x / 0x1_0000 % 0x100;
    next := next + 1;
    if equals <= 1 {
      dst[next] := x / 0x100 % 0x100;
      next := next + 1;
    }
    if equals <= 0 {
      dst[next] := x % 0x100;
      next := next + 1;
    }
  }

  /** mbedtls_base64_decode */
  method Decode(dst: array?<Byte>, dlen: nat, src: Bytes) returns (status: Status, olen: nat)
    requires |src| <= SIZE_MAX && (dst != null ==> dlen <= dst.Length)
    modifies dst
    ensures match DecodeOutcome(src, if dst == null then None else Some(dlen))
            case Rejected => status == InvalidCharacter
            case TooSmall(needed) => status == BufferTooSmall && olen == needed
            case Done(bytes) =>
              status == Ok && olen == |bytes| && (olen > 0 ==> dst != null && olen <= dlen && dst[..olen] == bytes)
    ensures dst != null ==> forall j :: 0 <= j < dst.Length && (status != Ok || j >= olen) ==> dst[j] == old(dst[j])
  {
    hide Decoded, Items, Run, Accepts;
    var ok, n, equals := CheckAndCount(src);
    if !ok {
      return InvalidCharacter, 0;
    }
    if n == 0 {
      return Ok, 0;
    }
    WritesAtMostAnnounced(src);
    n := 6 * (n / 8) + (6 * (n % 8) + 7) / 8;
    n := n - equals;
    if dst == null || dlen < n {
      return BufferTooSmall, n;
    }
    olen := WriteBytes(dst, src);
    status := Ok;
  }
}
