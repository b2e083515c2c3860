/**
 * asn1write.c: DER elements are written backwards from the write pointer p towards start. Every
 * method returns the new write pointer.
 */
module Asn1Writer {
  import opened Bytes
  import opened Bits
  import opened Division
  import opened Der

  /**
   * The bytes e have been written in front of p, or they do not fit between start and p. Nothing
   * outside that part of the buffer changes.
   */
  twostate predicate Wrote(buf: array<Byte>, start: nat, p: nat, e: Bytes, status: DerStatus, next: nat)
    requires start <= p <= buf.Length
    reads buf
  {
    && start <= next <= p
    && (status == if |e| <= p - start then Success else BufferTooSmall)
    && (status == Success ==> next == p - |e| && buf[next..p] == e)
    && (forall j :: 0 <= j < buf.Length && !(start <= j < p) ==> buf[j] == old(buf[j]))
    && (status == Success ==> forall j :: start <= j < next ==> buf[j] == old(buf[j]))
  }

  /** *--(*p) = b, in front of what has been written up to end. */
  method Put(buf: array<Byte>, p: nat, b: Byte, ghost end: nat) returns (next: nat)
    requires 0 < p <= end <= buf.Length
    modifies buf
    ensures next == p - 1 && buf[next..end] == [b] + old(buf[p..end])
    ensures forall j :: 0 <= j < buf.Length && j != next ==> buf[j] == old(buf[j])
  {
    next := p - 1;
    buf[next] := b;
  }

  /** mbedtls_asn1_write_len */
  method WriteLen(buf: array<Byte>, p: nat, start: nat, len: nat) returns (status: DerStatus, next: nat)
    requires start <= p <= buf.Length && len < 0x1_0000_0000
    modifies buf
    ensures Wrote(buf, start, p, LenField(len), status, next)
    ensures status != Success ==> next == p && buf[..] == old(buf[..])
  {
    hide LenField;
    LenFieldIs(len);
    var required := 1;
    if len >= 0x80 {
      var l := len;
      while l != 0
        invariant required == 1 + |BeBytes(len)| - if l == 0 then 0 else |BeBytes(l)|
      {
        required := required + 1;
        l := l / 0x100;
      }
    }
    if required > p - start {
      return BufferTooSmall, p;
    }
    next := PutDigits(buf, p, start, len);
    if required > 1 {
      next := Put(buf, next, 0x80 + required - 1, p);
    }
    return Success, next;
  }

  /** The do loop that writes a number backwards. */
  method PutDigits(buf: array<Byte>, p: nat, start: nat, len: nat) returns (next: nat)
    requires start <= p <= buf.Length && |BeBytes(len)| <= p - start
    modifies buf
    ensures next == p - |BeBytes(len)| && buf[next..p] == BeBytes(len)
    ensures forall j :: 0 <= j < buf.Length && !(next <= j < p) ==> buf[j] == old(buf[j])
  {
    hide BeBytes;
    SizeOfDigits(len);
    next := Put(buf, p, len % 0x100, p);
    var rest: nat := len / 0x100;
    assert buf[next..p] == [len % 0x100];
    while rest != 0
      invariant start <= next < p
      invariant (if rest == 0 then [] else BeBytes(rest)) + buf[next..p] == BeBytes(len)
      invariant forall j :: 0 <= j < buf.Length && !(next <= j < p) ==> buf[j] == old(buf[j])
    {
      SizeOfDigits(rest);
      ghost var tail := buf[next..p];
      assert |BeBytes(rest)| + |tail| == |BeBytes(len)|;
      next := Put(buf, next, rest % 0x100, p);
      rest := rest / 0x100;
    }
    assert [] + buf[next..p] == buf[next..p];
  }

  lemma LenFieldIs(len: nat)
    requires len < 0x1_0000_0000
    ensures 1 <= |BeBytes(len)| <= 4
    ensures LenField(len) == if len < 0x80 then BeBytes(len) else [0x80 + |BeBytes(len)|] + BeBytes(len)
  {
    BeBytesLength(len, 4);
    Pow256Values();
  }

  lemma SizeOfDigits(v: nat)
    ensures BeBytes(v) == (if v / 0x100 == 0 then [] else BeBytes(v / 0x100)) + [v % 0x100]
  {
  }

  /** mbedtls_asn1_write_tag */
  method WriteTag(buf: array<Byte>, p: nat, start: nat, tag: Byte) returns (status: DerStatus, next: nat)
    requires start <= p <= buf.Length
    modifies buf
    ensures Wrote(buf, start, p, [tag], status, next)
  {
    if p - start < 1 {
      return BufferTooSmall, p;
    }
    next := p - 1;
    buf[next] := tag;
    return Success, next;
  }

  /** mbedtls_asn1_write_len_and_tag, in front of a content that ends at the pointer it was written from */
  method WriteLenAndTag(buf: array<Byte>, p: nat, start: nat, len: nat, tag: Byte) returns (status: DerStatus, next: nat)
    requires start <= p <= buf.Length && len < 0x1_0000_0000
    modifies buf
    ensures Wrote(buf, start, p, [tag] + LenField(len), status, next)
  {
    hide LenField;
    status, next := WriteLen(buf, p, start, len);
    if status != Success {
      return;
    }
    ghost var field := buf[next..p];
    status, next := WriteTag(buf, next, start, tag);
    if status == Success {
      assert buf[next..p] == buf[next..next + 1] + buf[next + 1..p];
      assert buf[next + 1..p] == field;
    }
  }

  /** Length and tag in front of a content that is in place make up the element. */
  method FinishElement(buf: array<Byte>, q: nat, start: nat, tag: Byte, ghost p: nat, ghost content: Bytes, len: nat)
    returns (status: DerStatus, next: nat)
    requires start <= q <= p <= buf.Length && len == |content| < 0x1_0000_0000 && buf[q..p] == content
    modifies buf
    ensures start <= next <= p
    ensures status == if |Element(tag, content)| <= p - start then Success else BufferTooSmall
    ensures status == Success ==> next == p - |Element(tag, content)| && buf[next..p] == Element(tag, content)
    ensures forall j :: 0 <= j < buf.Length && !(start <= j < q) ==> buf[j] == old(buf[j])
    ensures status == Success ==> forall j :: start <= j < next ==> buf[j] == old(buf[j])
  {
    hide LenField;
    status, next := WriteLenAndTag(buf, q, start, len, tag);
    if status == Success {
      assert buf[q..p] == content;
      assert buf[next..p] == buf[next..q] + buf[q..p];
    }
  }

  /** The do loop of asn1_write_tagged_int and the zero byte that keeps the sign bit clear. */
  method WriteIntContent(buf: array<Byte>, p: nat, start: nat, val: Int32) returns (status: DerStatus, next: nat)
    requires start <= p <= buf.Length
    modifies buf
    ensures Wrote(buf, start, p, IntContent(val), status, next)
  {
    hide IntDigits;
    status, next := WriteIntDigits(buf, p, start, val);
    if status != Success {
      return;
    }
    if buf[next] >= 0x80 {
      if next - start < 1 {
        return BufferTooSmall, next;
      }
      next := Put(buf, next, 0x00, p);
    }
  }

  method WriteIntDigits(buf: array<Byte>, p: nat, start: nat, val: Int32) returns (status: DerStatus, next: nat)
    requires start <= p <= buf.Length
    modifies buf
    ensures Wrote(buf, start, p, IntDigits(val), status, next)
  {
    hide BeBytes, IntDigits;
    ghost var digits := IntDigits(val);
    next := p;
    var v: int, more := val, true;
    DigitsStart(val);
    while more
      invariant start <= next <= p
      invariant more ==> Pending(v, val, buf[next..p], digits)
      invariant !more ==> buf[next..p] == digits
      invariant forall j :: 0 <= j < buf.Length && !(next <= j < p) ==> buf[j] == old(buf[j])
      decreases if more then (if v > 0 then v else 0) + 1 else 0
    {
      PendingNext(v, val, buf[next..p], digits);
      if next - start < 1 {
        return BufferTooSmall, next;
      }
      next := Put(buf, next, v % 0x100, p);
      v := v / 0x100;
      more := v > 0;
    }
    return Success, next;
  }

  /** What is still to be written, in front of what has been. */
  ghost predicate Pending(v: int, val: Int32, tail: Bytes, digits: Bytes)
  {
    (tail == [] && v == val && digits == IntDigits(val)) || (v > 0 && BeBytes(v) + tail == digits)
  }

  lemma PendingNext(v: int, val: Int32, tail: Bytes, digits: Bytes)
    requires Pending(v, val, tail, digits)
    ensures |digits| > |tail|
    ensures v / 0x100 > 0 ==> Pending(v / 0x100, val, [v % 0x100] + tail, digits)
    ensures v / 0x100 <= 0 ==> [v % 0x100] + tail == digits
  {
    if v >= 0 {
      SizeOfDigits(v);
      if v / 0x100 > 0 {
        assert BeBytes(v / 0x100) + [v % 0x100] + tail == BeBytes(v / 0x100) + ([v % 0x100] + tail);
      }
    } else {
      assert [v % 0x100] + tail == [v % 0x100];
    }
  }

  /** asn1_write_tagged_int */
  method WriteTaggedInt(buf: array<Byte>, p: nat, start: nat, val: Int32, tag: Byte) returns (status: DerStatus, next: nat)
    requires start <= p <= buf.Length
    modifies buf
    ensures |IntContent(val)| <= 5
    ensures Wrote(buf, start, p, Element(tag, IntContent(val)), status, next)
  {
    hide LenField, IntContent, IntValue;
    IntRoundTrip(val);
    var q: nat;
    status, q := WriteIntContent(buf, p, start, val);
    next := q;
    if status == Success {
      status, next := FinishElement(buf, q, start, tag, p, IntContent(val), p - q);
    }
  }

  lemma DigitsStart(val: Int32)
    ensures val <= 0 ==> IntDigits(val) == [val % 0x100]
  {
  }

  /** The bytes of a bit string, the unused bits of the last one cleared. */
  method WriteBitBytes(buf: array<Byte>, p: nat, src: Bytes, byteLen: nat, unusedBits: nat) returns (next: nat)
    requires p <= buf.Length && byteLen <= p && byteLen <= |src| && unusedBits < 8
    modifies buf
    ensures next == p - byteLen
    ensures buf[next..p] == if byteLen == 0 then [] else src[..byteLen - 1] + [Masked(src[byteLen - 1], unusedBits)]
    ensures forall j :: 0 <= j < buf.Length && !(next <= j < p) ==> buf[j] == old(buf[j])
  {
    hide Masked;
    next := p;
    if byteLen > 0 {
      ghost var last := Masked(src[byteLen - 1], unusedBits);
      next := Put(buf, next, Masked(src[byteLen - 1], unusedBits), p);
      assert buf[p - 1] == last by {
        assert buf[next..p][0] == last;
      }
      next := next - (byteLen - 1);
      Store(buf, next, src[..byteLen - 1]);
      assert buf[next..p - 1] == src[..byteLen - 1] && buf[p - 1] == last;
      assert buf[next..p] == buf[next..p - 1] + [last];
    }
  }

  /** mbedtls_asn1_write_bitstring */
  method WriteBitstring(buf: array<Byte>, p: nat, start: nat, src: Bytes, bits: nat) returns (status: DerStatus, next: nat)
    requires start <= p <= buf.Length && bits <= 8 * |src| && BytesFor(bits) < 0xFFFF_FFFF
    modifies buf
    ensures Wrote(buf, start, p, Element(BIT_STRING, BitContent(src, bits)), status, next)
  {
    hide LenField, Masked;
    var byteLen := (bits + 7) / 8;
    var unusedBits := byteLen * 8 - bits;
    if p - start < byteLen + 1 {
      return BufferTooSmall, p;
    }
    next := WriteBitBytes(buf, p, src, byteLen, unusedBits);
    next := Put(buf, next, unusedBits, p);
    assert buf[next..p] == BitContent(src, bits);
    status, next := FinishElement(buf, next, start, BIT_STRING, p, BitContent(src, bits), byteLen + 1);
  }

  /** The byte of the last bit, shifted so that this bit is the lowest. */
  ghost predicate AtBit(src: Bytes, bits: nat, shifted: nat)
    requires 0 < bits <= 8 * |src|
  {
    shifted == src[(bits - 1) / 8] / Pow2(7 - (bits - 1) % 8)
  }

  lemma LowestIsBit(src: Bytes, bits: nat, shifted: nat)
    requires 0 < bits <= 8 * |src| && AtBit(src, bits, shifted)
    ensures shifted % 2 == BitAt(src, bits - 1)
  {
  }

  /** Stepping back one bit shifts on, or takes the byte before. */
  lemma StepBack(src: Bytes, bits: nat, shifted: nat)
    requires 1 < bits <= 8 * |src| && AtBit(src, bits, shifted)
    ensures (bits - 2) / 8 == (bits - 1) / 8 - if (bits - 1) % 8 == 0 then 1 else 0
    ensures AtBit(src, bits - 1, if (bits - 1) % 8 == 0 then src[(bits - 2) / 8] else shifted / 2)
  {
    hide Pow2;
    var k := (bits - 1) % 8;
    if k == 0 {
      assert (bits - 2) / 8 == (bits - 1) / 8 - 1 && (bits - 2) % 8 == 7;
      assert Pow2(0) == 1 by {
        PowZero();
      }
    } else {
      assert (bits - 2) / 8 == (bits - 1) / 8 && (bits - 2) % 8 == k - 1;
      Pow2Add(7 - k, 1);
      PowOne();
      DivTwice(src[(bits - 1) / 8], Pow2(7 - k), 2);
    }
  }

  lemma PowZero()
    ensures Pow2(0) == 1
  {
  }

  lemma PowOne()
    ensures Pow2(1) == 2
  {
  }

  /** The loop of mbedtls_asn1_write_named_bitstring that drops trailing zero bits. */
  method TrimBits(src: Bytes, bits: nat) returns (kept: nat)
    requires bits <= 8 * |src|
    ensures kept == Trim(src, bits)
  {
    hide AtBit, BitAt, Pow2;
    kept := bits;
    var byteLen := (bits + 7) / 8;
    var unusedBits := byteLen * 8 - bits;
    if kept != 0 {
      LastByte(bits);
      var curByte := byteLen - 1;
      var shifted: nat := src[curByte] / Pow2(unusedBits);
      StartAt(src, bits, shifted);
      while true
        invariant 0 < kept <= bits && curByte == (kept - 1) / 8
        invariant AtBit(src, kept, shifted) && Trim(src, kept) == Trim(src, bits)
        decreases kept
      {
        LowestIsBit(src, kept, shifted);
        var bit := shifted % 2;
        if bit != 0 {
          break;
        }
        if kept > 1 {
          StepBack(src, kept, shifted);
        }
        shifted := shifted / 2;
        kept := kept - 1;
        if kept == 0 {
          break;
        }
        if kept % 8 == 0 {
          curByte := curByte - 1;
          shifted := src[curByte];
        }
      }
    }
  }

  lemma LastByte(bits: nat)
    requires bits > 0
    ensures (bits + 7) / 8 - 1 == (bits - 1) / 8 && (bits + 7) / 8 * 8 - bits == 7 - (bits - 1) % 8
  {
    var q, r := (bits - 1) / 8, (bits - 1) % 8;
    DivMod(bits - 1, 8);
    DivUnique(bits + 7, 8, q + 1, r);
  }

  lemma StartAt(src: Bytes, bits: nat, shifted: nat)
    requires 0 < bits <= 8 * |src| && shifted == src[(bits - 1) / 8] / Pow2(7 - (bits - 1) % 8)
    ensures AtBit(src, bits, shifted)
  {
  }

  /** mbedtls_asn1_write_named_bitstring */
  method WriteNamedBitstring(buf: array<Byte>, p: nat, start: nat, src: Bytes, bits: nat)
    returns (status: DerStatus, next: nat)
    requires start <= p <= buf.Length && bits <= 8 * |src| && BytesFor(bits) < 0xFFFF_FFFF
    modifies buf
    ensures Wrote(buf, start, p, Element(BIT_STRING, BitContent(src, Trim(src, bits))), status, next)
  {
    hide Element, BitContent, Trim;
    var kept := TrimBits(src, bits);
    status, next := WriteBitstring(buf, p, start, src, kept);
  }
}
