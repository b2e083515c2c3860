/**
 * asn1parse.c: the read pointer p advances through the input, whose end is the end of s. A method
 * returns the status, the new pointer and what it stored through its out-parameters.
 */
module Asn1Parser {
  import opened Bytes
  import opened Der

  /** mbedtls_asn1_get_len */
  method GetLen(s: Bytes, p: nat) returns (status: DerStatus, next: nat, len: nat)
    requires p <= |s|
    ensures Parsed(status, next, len) == ParseLen(s, p)
  {
    next, len := p, 0;
    if |s| - next < 1 {
      return OutOfData, next, len;
    }
    if s[next] < 0x80 {
      len := s[next];
      next := next + 1;
    } else {
      var n: nat := s[next] % 0x80;
      if n == 0 || n > 4 {
        return InvalidLength, next, len;
      }
      if |s| - next <= n {
        return OutOfData, next, len;
      }
      len := 0;
      next := next + 1;
      ghost var field := s[next..next + n];
      assert field[..0] == [];
      assert BeVal([]) == 0;
      ghost var k := 0;
      while n > 0
        invariant 0 <= n && k + n == |field| && next == p + 1 + k
        invariant len == BeVal(field[..k])
      {
        assert field[..k + 1][..k] == field[..k];
        len := len * 0x100 + s[next];
        next := next + 1;
        n := n - 1;
        k := k + 1;
      }
      assert field[..k] == field;
    }
    status := if len > |s| - next then OutOfData else Success;
  }

  /** mbedtls_asn1_get_tag */
  method GetTag(s: Bytes, p: nat, tag: Byte) returns (status: DerStatus, next: nat, len: nat)
    requires p <= |s|
    ensures Parsed(status, next, len) == ParseTag(s, p, tag)
  {
    if |s| - p < 1 {
      return OutOfData, p, 0;
    }
    if s[p] != tag {
      return UnexpectedTag, p, 0;
    }
    status, next, len := GetLen(s, p + 1);
  }

  /** asn1_get_tagged_int: a non-negative integer below 2^31, whatever zeros lead it. */
  method GetTaggedInt(s: Bytes, p: nat, tag: Byte) returns (status: DerStatus, next: nat, val: nat)
    requires p <= |s|
    ensures var t := ParseTag(s, p, tag);
            if t.status != Success then status == t.status
            else
              var content := s[t.pos..t.pos + t.value];
              var accepted := content != [] && content[0] < 0x80 && BeVal(content) < 0x8000_0000;
              && status == (if accepted then Success else InvalidLength)
              && (accepted ==> val == BeVal(content) && next == t.pos + t.value)
  {
    hide ParseTag, BeVal, IntValue, SkipZeros;
    var len: nat;
    status, next, len := GetTag(s, p, tag);
    val := 0;
    if status != Success {
      return;
    }
    ghost var content, end := s[next..next + len], next + len;
    IntAccepted(content);
    if len == 0 {
      return InvalidLength, next, 0;
    }
    if s[next] >= 0x80 {
      return InvalidLength, next, 0;
    }
    IntValueIs(content);
    while len > 0 && s[next] == 0
      invariant 0 <= len && next + len == end <= |s|
      invariant SkipZeros(s[next..end]) == SkipZeros(content)
    {
      SkipsZero(s[next..end]);
      assert s[next..end][1..] == s[next + 1..end];
      next := next + 1;
      len := len - 1;
    }
    ghost var digits := s[next..end];
    SkipsNone(digits);
    if len > 4 {
      return InvalidLength, next, 0;
    }
    if len == 4 && s[next] >= 0x80 {
      return InvalidLength, next, 0;
    }
    ghost var k := 0;
    BeValNext(digits, 0);
    while len > 0
      invariant 0 <= len && next + len == end && k + len == |digits|
      invariant val == BeVal(digits[..k]) && digits == s[next - k..end] && k <= next
    {
      BeValNext(digits, k);
      val := val * 0x100 + s[next];
      next := next + 1;
      len := len - 1;
      k := k + 1;
    }
    assert digits[..k] == digits;
    return Success, next, val;
  }

  lemma IntValueIs(content: Bytes)
    requires content != [] && content[0] < 0x80
    ensures var r := SkipZeros(content);
            IntValue(content) == if |r| > 4 || (|r| == 4 && r[0] >= 0x80) then None else Some(BeVal(r))
  {
  }

  lemma SkipsZero(b: Bytes)
    requires b != [] && b[0] == 0
    ensures SkipZeros(b) == SkipZeros(b[1..])
  {
  }

  lemma SkipsNone(b: Bytes)
    requires b == [] || b[0] != 0
    ensures SkipZeros(b) == b
  {
  }

  lemma BeValNext(s: Bytes, k: nat)
    ensures k == 0 ==> BeVal(s[..0]) == 0
    ensures k < |s| ==> BeVal(s[..k + 1]) == 0x100 * BeVal(s[..k]) + s[k]
  {
    if k < |s| {
      assert s[..k + 1][..k] == s[..k];
    }
  }

  /** mbedtls_asn1_get_bitstring */
  method GetBitstring(s: Bytes, p: nat) returns (status: DerStatus, next: nat, unused: nat, start: nat, len: nat)
    requires p <= |s|
    ensures var r := ParseBits(s, p);
            && status == r.status
            && (status == Success ==> next == r.pos && unused == r.unused && start == r.start && len == r.length)
  {
    hide ParseTag;
    status, next, len := GetTag(s, p, BIT_STRING);
    unused, start := 0, 0;
    if status != Success {
      return;
    }
    if len < 1 {
      return OutOfData, next, 0, 0, len;
    }
    len := len - 1;
    unused := s[next];
    if unused > 7 {
      return InvalidLength, next, unused, 0, len;
    }
    next := next + 1;
    start := next;
    next := next + len;
    status := if next != |s| then LengthMismatch else Success;
  }
}
