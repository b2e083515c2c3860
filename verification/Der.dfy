/**
 * DER as asn1write.c writes it and asn1parse.c reads it: length fields, non-negative integers and
 * bit strings as functions on byte strings, and the proofs that they undo each other.
 */
module Der {
  import opened Bytes
  import opened Bits
  import opened Division

  const INTEGER: Byte := 0x02
  const BIT_STRING: Byte := 0x03

  datatype DerStatus = Success | BufferTooSmall | OutOfData | UnexpectedTag | InvalidLength | LengthMismatch

  // ---------------------------------------------------------------- big-endian numbers

  /** The shortest big-endian form, one byte at least. */
  function BeBytes(v: nat): (b: Bytes)
    ensures |b| > 0
  {
    if v < 0x100 then [v] else BeBytes(v / 0x100) + [v % 0x100]
  }

  function Pow256(n: nat): (p: nat)
    ensures p > 0
  {
    if n == 0 then 1 else 0x100 * Pow256(n - 1)
  }

  lemma {:induction false} BeBytesVal(v: nat)
    ensures BeVal(BeBytes(v)) == v
  {
    if v >= 0x100 {
      BeBytesVal(v / 0x100);
      assert BeBytes(v)[..|BeBytes(v)| - 1] == BeBytes(v / 0x100);
    } else {
      assert BeBytes(v)[..0] == [];
      assert BeVal([]) == 0;
    }
  }

  lemma {:induction false} BeValBound(s: Bytes)
    ensures BeVal(s) < Pow256(|s|)
  {
    if s != [] {
      BeValBound(s[..|s| - 1]);
    }
  }

  /** The form is shortest: it has n bytes or fewer exactly when the number is below 256^n. */
  lemma {:induction false} BeBytesLength(v: nat, n: nat)
    requires n > 0
    ensures |BeBytes(v)| <= n <==> v < Pow256(n)
  {
    if v >= 0x100 {
      if n == 1 {
        assert Pow256(1) == 0x100 * Pow256(0);
      } else {
        BeBytesLength(v / 0x100, n - 1);
      }
    } else {
      assert Pow256(n) == 0x100 * Pow256(n - 1);
    }
  }

  /** Leading zeros do not matter. */
  lemma {:induction false} LeadingZero(s: Bytes)
    ensures BeVal([0] + s) == BeVal(s)
  {
    if s == [] {
      assert [0] + s == [0] && [0][..0] == [];
    } else {
      LeadingZero(s[..|s| - 1]);
      assert ([0] + s)[..|s|] == [0] + s[..|s| - 1];
    }
  }

  lemma {:induction false} BeValAppend(s: Bytes, t: Bytes)
    ensures BeVal(s + t) == Pow256(|t|) * BeVal(s) + BeVal(t)
  {
    if t == [] {
      assert s + t == s;
    } else {
      var u := t[..|t| - 1];
      BeValAppend(s, u);
      assert (s + t)[..|s + t| - 1] == s + u;
      assert 0x100 * (Pow256(|u|) * BeVal(s)) == Pow256(|t|) * BeVal(s);
    }
  }

  // ---------------------------------------------------------------- length fields

  /** mbedtls_asn1_write_len */
  function LenField(len: nat): (f: Bytes)
    requires len < 0x1_0000_0000
    ensures |f| > 0
  {
    BeBytesLength(len, 4);
    Pow256Values();
    if len < 0x80 then [len] else [0x80 + |BeBytes(len)|] + BeBytes(len)
  }

  lemma Pow256Values()
    ensures Pow256(0) == 1 && Pow256(1) == 0x100 && Pow256(2) == 0x1_0000 && Pow256(3) == 0x100_0000
    ensures Pow256(4) == 0x1_0000_0000
  {
    assert Pow256(1) == 0x100 * Pow256(0);
    assert Pow256(2) == 0x100 * Pow256(1);
    assert Pow256(3) == 0x100 * Pow256(2);
  }

  /** A status, the read pointer, and a length or value. */
  datatype Parsed = Parsed(status: DerStatus, pos: nat, value: nat)

  /** mbedtls_asn1_get_len on the bytes from p to the end */
  function ParseLen(s: Bytes, p: nat): (r: Parsed)
    requires p <= |s|
    ensures r.status == Success ==> p < r.pos && r.pos + r.value <= |s|
  {
    if |s| - p < 1 then Parsed(OutOfData, p, 0)
    else
      var n: int := (s[p] as int) - 0x80;
      if n == 0 || n > 4 then Parsed(InvalidLength, p, 0)
      else if n > 0 && |s| - p <= n then Parsed(OutOfData, p, 0)
      else
        var len := if n < 0 then s[p] else BeVal(s[p + 1..p + 1 + n]);
        var pos := if n < 0 then p + 1 else p + 1 + n;
        Parsed(if len > |s| - pos then OutOfData else Success, pos, len)
  }

  /** mbedtls_asn1_get_tag */
  function ParseTag(s: Bytes, p: nat, tag: Byte): (r: Parsed)
    requires p <= |s|
    ensures r.status == Success ==> p + 1 < r.pos && r.pos + r.value <= |s|
  {
    if |s| - p < 1 then Parsed(OutOfData, p, 0)
    else if s[p] != tag then Parsed(UnexpectedTag, p, 0)
    else ParseLen(s, p + 1)
  }

  /** X.690, section 8.1.3: one byte below 128, else 128 plus the number of big-endian bytes, the first not zero. */
  lemma LenForm(len: nat)
    requires len < 0x1_0000_0000
    ensures var f := LenField(len);
            if len < 128 then f == [len]
            else 2 <= |f| <= 5 && f[0] as int == 128 + (|f| - 1) && BeVal(f[1..]) == len && f[1] != 0
  {
    BeBytesLength(len, 4);
    Pow256Values();
    BeBytesVal(len);
    FirstDigit(len);
    assert len >= 128 ==> LenField(len)[1..] == BeBytes(len);
  }

  lemma {:induction false} FirstDigit(v: nat)
    ensures v > 0 ==> BeBytes(v)[0] > 0
  {
    if v >= 0x100 {
      FirstDigit(v / 0x100);
    }
  }

  /** Which length fields are read: all short ones and the long ones of one to four bytes, if all is there. */
  lemma LenParsed(s: Bytes, p: nat)
    requires p <= |s|
    ensures var r := ParseLen(s, p);
            && (r.status == InvalidLength <==> p < |s| && (s[p] == 0x80 || s[p] > 0x84))
            && (r.status == Success <==>
                  && p < |s|
                  && (if s[p] < 0x80 then p + 1 + s[p] <= |s|
                      else
                        var n := s[p] as int - 0x80;
                        1 <= n <= 4 && p + 1 + n <= |s| && p + 1 + n + BeVal(s[p + 1..p + 1 + n]) <= |s|))
            && (r.status == Success ==>
                  if s[p] < 0x80 then r.value == s[p] && r.pos == p + 1
                  else
                    var n := s[p] as int - 0x80;
                    r.value == BeVal(s[p + 1..p + 1 + n]) && r.pos == p + 1 + n)
            && r.status in {Success, InvalidLength, OutOfData}
  {
    hide BeVal;
  }

  /** The length fields of 127, 128, 256 and 65536. */
  lemma KnownLengths()
    ensures LenField(127) == [0x7F] && LenField(128) == [0x81, 0x80]
    ensures LenField(256) == [0x82, 0x01, 0x00] && LenField(0x1_0000) == [0x83, 0x01, 0x00, 0x00]
  {
  }

  /** A written length field is read back, and the content begins after it. */
  lemma LenRoundTrip(before: Bytes, len: nat, after: Bytes)
    requires len < 0x1_0000_0000
    ensures ParseLen(before + LenField(len) + after, |before|)
         == Parsed(if len > |after| then OutOfData else Success, |before| + |LenField(len)|, len)
  {
    var s, f, p := before + LenField(len) + after, LenField(len), |before|;
    BeBytesLength(len, 4);
    Pow256Values();
    BeBytesVal(len);
    assert s[p] == f[0];
    if len >= 0x80 {
      var n := |BeBytes(len)|;
      assert s[p + 1..p + 1 + n] == BeBytes(len);
    }
  }

  /** The field is minimal (X.690, section 10.1): nothing shorter is read as the same length. */
  lemma LenMinimal(s: Bytes, p: nat)
    requires p <= |s| && ParseLen(s, p).status == Success
    ensures ParseLen(s, p).value < 0x1_0000_0000
    ensures ParseLen(s, p).pos - p >= |LenField(ParseLen(s, p).value)|
  {
    Pow256Values();
    var n: int := (s[p] as int) - 0x80;
    var len := ParseLen(s, p).value;
    if n > 0 {
      BeValBound(s[p + 1..p + 1 + n]);
      BeBytesLength(len, n);
      assert Pow256(n) <= Pow256(4);
      LenFieldSize(len);
    }
  }

  lemma LenFieldSize(len: nat)
    requires len < 0x1_0000_0000
    ensures |LenField(len)| == if len < 0x80 then 1 else 1 + |BeBytes(len)|
  {
  }

  /** Tag, length and content. */
  function Element(tag: Byte, content: Bytes): (e: Bytes)
    requires |content| < 0x1_0000_0000
  {
    [tag] + LenField(|content|) + content
  }

  lemma ElementRoundTrip(before: Bytes, tag: Byte, content: Bytes, after: Bytes)
    requires |content| < 0x1_0000_0000
    ensures var s := before + Element(tag, content) + after;
            var r := ParseTag(s, |before|, tag);
            && r == Parsed(Success, |before| + 1 + |LenField(|content|)|, |content|)
            && s[r.pos..r.pos + r.value] == content
  {
    hide LenField;
    var s := before + Element(tag, content) + after;
    LenRoundTrip(before + [tag], |content|, content + after);
    assert s == before + [tag] + LenField(|content|) + (content + after);
  }

  // ---------------------------------------------------------------- integers

  /** A C int. */
  type Int32 = x: int | -0x8000_0000 <= x < 0x8000_0000

  /** The digits asn1_write_tagged_int writes: a negative number ends its loop after one byte. */
  function IntDigits(val: Int32): (b: Bytes)
    ensures |b| > 0
  {
    if val >= 0 then BeBytes(val) else [val % 0x100]
  }

  /** A zero byte keeps the sign bit clear. */
  function IntContent(val: Int32): (b: Bytes)
    ensures |b| > 0 && b[0] < 0x80
  {
    var d := IntDigits(val);
    if d[0] >= 0x80 then [0] + d else d
  }

  function SkipZeros(b: Bytes): (r: Bytes)
    ensures |r| <= |b|
  {
    if b != [] && b[0] == 0 then SkipZeros(b[1..]) else b
  }

  lemma {:induction false} SkipZerosVal(b: Bytes)
    ensures BeVal(SkipZeros(b)) == BeVal(b)
    ensures SkipZeros(b) == [] || SkipZeros(b)[0] > 0
  {
    if b != [] && b[0] == 0 {
      SkipZerosVal(b[1..]);
      LeadingZero(b[1..]);
      assert b == [0] + b[1..];
    }
  }

  /** asn1_get_tagged_int on a content: a value, or none. */
  function IntValue(content: Bytes): (v: Option<nat>)
  {
    if content == [] || content[0] >= 0x80 then None
    else
      var r := SkipZeros(content);
      if |r| > 4 || (|r| == 4 && r[0] >= 0x80) then None else Some(BeVal(r))
  }

  lemma {:induction false} BeValFirst(b: Bytes)
    requires b != []
    ensures b[0] * Pow256(|b| - 1) <= BeVal(b) < (b[0] + 1) * Pow256(|b| - 1)
  {
    if |b| == 1 {
      assert b[..0] == [];
      assert BeVal([]) == 0;
    } else {
      BeValFirst(b[..|b| - 1]);
      var f: int, p, v := b[0], Pow256(|b| - 2), BeVal(b[..|b| - 1]);
      assert Pow256(|b| - 1) == 0x100 * p;
      assert f * (0x100 * p) == 0x100 * (f * p) && (f + 1) * (0x100 * p) == 0x100 * ((f + 1) * p);
    }
  }

  lemma Pow256Mono(m: nat, n: nat)
    requires m <= n
    ensures Pow256(m) <= Pow256(n)
  {
  }

  /** The parser accepts exactly the non-empty contents without sign bit whose value is below 2^31. */
  lemma IntAccepted(content: Bytes)
    ensures IntValue(content) == if content != [] && content[0] < 0x80 && BeVal(content) < 0x8000_0000
                                 then Some(BeVal(content)) else None
  {
    hide Pow256, BeVal, SkipZeros;
    if content != [] && content[0] < 0x80 {
      SkipZerosVal(content);
      FitsInt(SkipZeros(content));
    }
  }

  /** Without leading zeros the number of bytes and the top bit decide whether a value is below 2^31. */
  lemma FitsInt(r: Bytes)
    requires r == [] || r[0] > 0
    ensures BeVal(r) < 0x8000_0000 <==> |r| < 4 || (|r| == 4 && r[0] < 0x80)
  {
    hide Pow256, BeVal;
    Pow256Values();
    BeValBound(r);
    if |r| > 4 {
      BeValFirst(r);
      Pow256Mono(4, |r| - 1);
      AtLeastOne(r[0], Pow256(|r| - 1));
    } else if |r| == 4 {
      BeValFirst(r);
    } else {
      Pow256Mono(|r|, 3);
    }
  }

  lemma AtLeastOne(f: int, p: int)
    requires f >= 1 && p >= 0
    ensures f * p >= p
  {
  }

  /** Every non-negative integer round-trips; a negative one comes back as its low byte. */
  lemma IntRoundTrip(val: Int32)
    ensures IntValue(IntContent(val)) == Some(if val >= 0 then val else val % 0x100)
    ensures |IntContent(val)| <= 5
  {
    hide SkipZeros;
    IntAccepted(IntContent(val));
    LeadingZero(IntDigits(val));
    Pow256Values();
    if val >= 0 {
      BeBytesVal(val);
      BeBytesLength(val, 4);
    } else {
      assert IntDigits(val)[..0] == [];
      assert BeVal([]) == 0;
    }
  }

  /** X.690, section 8.3: the content is the number in two's complement, and no shorter content is. */
  lemma IntForm(val: Int32)
    requires val >= 0
    ensures var c := IntContent(val);
            BeVal(c) == val && c[0] < 0x80 && (|c| > 1 ==> !(c[0] == 0 && c[1] < 0x80))
  {
    BeBytesVal(val);
    LeadingZero(IntDigits(val));
    FirstDigit(val);
  }

  /** The INTEGER elements of 0, 127, 128, 256 and 5. */
  lemma KnownIntegers()
    ensures IntContent(0) == [0x00] && IntContent(127) == [0x7F]
    ensures IntContent(128) == [0x00, 0x80] && IntContent(256) == [0x01, 0x00]
    ensures Element(INTEGER, IntContent(5)) == [0x02, 0x01, 0x05]
  {
  }

  /** The round trip is the identity exactly on the non-negative integers. */
  lemma IntRoundTripExact(val: Int32)
    ensures IntValue(IntContent(val)) == Some(val) <==> val >= 0
  {
    hide IntValue, IntContent;
    IntRoundTrip(val);
  }

  /** A written INTEGER element is parsed back to the integer, wherever it stands, when it is not negative. */
  lemma IntElementRoundTrip(before: Bytes, val: Int32, after: Bytes)
    ensures |IntContent(val)| <= 5
    ensures var s := before + Element(INTEGER, IntContent(val)) + after;
            var r := ParseTag(s, |before|, INTEGER);
            && r.status == Success && r.pos + r.value == |before| + |Element(INTEGER, IntContent(val))|
            && IntValue(s[r.pos..r.pos + r.value]) == Some(if val >= 0 then val else val % 0x100)
  {
    hide IntContent, IntValue, ParseTag, LenField;
    IntRoundTrip(val);
    ElementRoundTrip(before, INTEGER, IntContent(val), after);
  }

  // ---------------------------------------------------------------- bit strings

  /** Bit i, the most significant bit of a byte first. */
  function BitAt(s: Bytes, i: nat): (b: nat)
    requires i < 8 * |s|
  {
    s[i / 8] / Pow2(7 - i % 8) % 2
  }

  /** The low u bits cleared. */
  function Masked(b: Byte, u: nat): (m: Byte)
    requires u < 8
  {
    MaskedFits(b, Pow2(u));
    b / Pow2(u) * Pow2(u)
  }

  lemma MaskedFits(b: nat, p: nat)
    requires p > 0
    ensures 0 <= b / p * p <= b
  {
    DivMod(b, p);
  }

  function BytesFor(bits: nat): (n: nat)
    ensures bits <= 8 * n < bits + 8
  {
    (bits + 7) / 8
  }

  /** The content of a bit string: the number of unused bits, then the bytes, the unused bits cleared. */
  function BitContent(src: Bytes, bits: nat): (c: Bytes)
    requires bits <= 8 * |src|
    ensures |c| == BytesFor(bits) + 1
  {
    var n := BytesFor(bits);
    var u := 8 * n - bits;
    [u] + if n == 0 then [] else src[..n - 1] + [Masked(src[n - 1], u)]
  }

  /** The number of bits left when trailing zero bits are dropped. */
  function Trim(src: Bytes, bits: nat): (k: nat)
    requires bits <= 8 * |src|
    ensures k <= bits && (k > 0 ==> BitAt(src, k - 1) == 1)
    ensures forall i :: k <= i < bits ==> BitAt(src, i) == 0
  {
    if bits == 0 || BitAt(src, bits - 1) == 1 then bits else Trim(src, bits - 1)
  }

  /** Status, read pointer, unused bits, and where the bytes of the string are. */
  datatype ParsedBits = ParsedBits(status: DerStatus, pos: nat, unused: nat, start: nat, length: nat)

  /** mbedtls_asn1_get_bitstring */
  function ParseBits(s: Bytes, p: nat): (r: ParsedBits)
    requires p <= |s|
    ensures r.status == Success ==> r.start + r.length == r.pos == |s| && r.unused <= 7
  {
    var t := ParseTag(s, p, BIT_STRING);
    if t.status != Success then ParsedBits(t.status, t.pos, 0, 0, t.value)
    else if t.value < 1 then ParsedBits(OutOfData, t.pos, 0, 0, t.value)
    else if s[t.pos] > 7 then ParsedBits(InvalidLength, t.pos, s[t.pos], 0, t.value - 1)
    else
      var pos := t.pos + t.value;
      ParsedBits(if pos != |s| then LengthMismatch else Success, pos, s[t.pos], t.pos + 1, t.value - 1)
  }

  /** When a bit string is read: its element ends the input and its first byte counts at most seven unused bits. */
  lemma BitsParsed(s: Bytes, p: nat)
    requires p <= |s|
    ensures var r, t := ParseBits(s, p), ParseTag(s, p, BIT_STRING);
            && (r.status == Success <==>
                  t.status == Success && t.value >= 1 && s[t.pos] <= 7 && t.pos + t.value == |s|)
            && (r.status == Success ==> r.unused == s[t.pos] && r.start == t.pos + 1 && r.length == t.value - 1)
            && (t.status != Success ==> r.status == t.status)
  {
    hide ParseTag;
  }

  /** The example of X.690, section 8.6.4: 18 bits. */
  lemma KnownBits()
    ensures Element(BIT_STRING, BitContent([0x6E, 0x5D, 0xC0], 18)) == [0x03, 0x04, 0x06, 0x6E, 0x5D, 0xC0]
  {
  }

  /** Above the cleared bits a byte is unchanged. */
  lemma MaskedBit(b: Byte, u: nat, k: nat)
    requires u < 8
    ensures Masked(b, u) / Pow2(k) % 2 == if k >= u then b / Pow2(k) % 2 else 0
  {
    hide Pow2;
    if k >= u {
      Pow2Add(u, k - u);
      ClearedAbove(b, Pow2(u), Pow2(k - u), Pow2(k));
    } else {
      PowSplit(u, k);
      ClearedBelow(b / Pow2(u), Pow2(u - k - 1), Pow2(k), Pow2(u));
    }
  }

  lemma ClearedAbove(b: nat, p: int, d: int, c: int)
    requires p > 0 && d > 0 && c == p * d
    ensures b / p * p / c == b / c
  {
    DivTwice(b, p, d);
    DivUnique(b / p * p, p, b / p, 0);
    MaskedFits(b, p);
    DivTwice(b / p * p, p, d);
  }

  lemma ClearedBelow(q: nat, d: int, c: int, p: int)
    requires d > 0 && c > 0 && p == 2 * d * c
    ensures q * p / c % 2 == 0
  {
    assert q * (2 * d * c) == (2 * (q * d)) * c;
    DivUnique(q * p, c, 2 * (q * d), 0);
  }

  lemma PowSplit(u: nat, k: nat)
    requires k < u
    ensures Pow2(u) == 2 * Pow2(u - k - 1) * Pow2(k)
  {
    Pow2Add(u - k, k);
  }

  /** The bits of a written content are the bits given, and the unused ones are zero. */
  lemma ContentBits(src: Bytes, bits: nat, i: nat)
    requires bits <= 8 * |src| && i < 8 * BytesFor(bits)
    ensures BitAt(BitContent(src, bits)[1..], i) == if i < bits then BitAt(src, i) else 0
  {
    hide Pow2, Masked;
    var n := BytesFor(bits);
    var data := BitContent(src, bits)[1..];
    if i / 8 == n - 1 {
      MaskedBit(src[n - 1], 8 * n - bits, 7 - i % 8);
    }
  }

  /** A bit string that ends the input comes back bit for bit, its unused bits cleared. */
  lemma BitsRoundTrip(before: Bytes, src: Bytes, bits: nat)
    requires bits <= 8 * |src| && BytesFor(bits) < 0xFFFF_FFFF
    ensures var s := before + Element(BIT_STRING, BitContent(src, bits));
            var r := ParseBits(s, |before|);
            && r.status == Success && r.pos == |s|
            && 8 * r.length - r.unused == bits
            && (forall i {:trigger BitAt(src, i)} :: 0 <= i < bits ==> BitAt(s[r.start..r.pos], i) == BitAt(src, i))
            && (forall i {:trigger BitAt(s[r.start..r.pos], i)} :: bits <= i < 8 * r.length ==> BitAt(s[r.start..r.pos], i) == 0)
  {
    hide LenField, BitContent, Element, BitAt, ParseTag;
    var content := BitContent(src, bits);
    var s := before + Element(BIT_STRING, content);
    assert s == before + Element(BIT_STRING, content) + [];
    ElementRoundTrip(before, BIT_STRING, content, []);
    ContentHead(src, bits);
    var t := ParseTag(s, |before|, BIT_STRING);
    assert s[t.pos..t.pos + t.value][0] == content[0];
    ElementEnds(before, BIT_STRING, content);
    var r := ParseBits(s, |before|);
    assert s[r.start..r.pos] == content[1..] by {
      assert s[r.start..r.pos] == s[t.pos..t.pos + t.value][1..];
    }
    forall i | 0 <= i < 8 * BytesFor(bits)
      ensures BitAt(content[1..], i) == if i < bits then BitAt(src, i) else 0
    {
      ContentBits(src, bits, i);
    }
  }

  lemma ContentHead(src: Bytes, bits: nat)
    requires bits <= 8 * |src|
    ensures BitContent(src, bits)[0] == 8 * BytesFor(bits) - bits
  {
  }

  lemma ElementEnds(before: Bytes, tag: Byte, content: Bytes)
    requires |content| < 0x1_0000_0000
    ensures |before + Element(tag, content)| == |before| + 1 + |LenField(|content|)| + |content|
  {
  }

  /** A named bit string comes back with exactly its trailing zero bits removed (X.690, section 11.2.2). */
  lemma NamedBitsRoundTrip(before: Bytes, src: Bytes, bits: nat)
    requires bits <= 8 * |src| && BytesFor(bits) < 0xFFFF_FFFF
    ensures var k := Trim(src, bits);
            && BytesFor(k) <= BytesFor(bits)
            && var s := before + Element(BIT_STRING, BitContent(src, k));
            var r := ParseBits(s, |before|);
            && r.status == Success && 8 * r.length - r.unused == k
            && (forall i {:trigger BitAt(src, i)} :: 0 <= i < k ==> BitAt(s[r.start..r.pos], i) == BitAt(src, i))
            && (k > 0 ==> BitAt(s[r.start..r.pos], k - 1) == 1)
            && (forall i :: k <= i < bits ==> BitAt(src, i) == 0)
  {
    hide BitContent, Element, BitAt, ParseBits, Trim;
    BitsRoundTrip(before, src, Trim(src, bits));
  }
}
