/** Byte strings and buffers of bytes. */
module Bytes {
  type Byte = x: int | 0 <= x < 0x100

  type Bytes = seq<Byte>

  datatype Option<+T> = None | Some(value: T)

  /** memcmp over the shorter of the two lengths reports no difference. */
  predicate SamePrefix(a: Bytes, b: Bytes)
  {
    var n := if |a| < |b| then |a| else |b|;
    a[..n] == b[..n]
  }

  /** One of the two begins with the other. */
  lemma SamePrefixIs(a: Bytes, b: Bytes)
    ensures SamePrefix(a, b) <==> a <= b || b <= a
  {
    assert a[..|a|] == a && b[..|b|] == b;
  }

  lemma EqualLengthPrefix(a: Bytes, b: Bytes)
    requires |a| == |b|
    ensures SamePrefix(a, b) <==> a == b
  {
    assert a[..|a|] == a && b[..|b|] == b;
  }

  /** The big-endian number in a byte string. */
  function BeVal(s: Bytes): (v: nat)
  {
    if s == [] then 0 else 0x100 * BeVal(s[..|s| - 1]) + s[|s| - 1]
  }

  /** The next n bytes of an input of which s is the whole, and what is left. */
  lemma NextPiece(x: array<Byte>, length: nat, s: Bytes, at: nat, n: nat)
    requires at + n <= length <= x.Length && |s| == length && x[at..length] == s[at..]
    ensures x[at..at + n] == s[at..at + n] && x[at + n..length] == s[at + n..]
  {
    assert x[at..at + n] == x[at..length][..n] && x[at + n..length] == x[at..length][n..];
  }

  /** Nothing of the buffer has changed outside n bytes from offset at. */
  twostate predicate OnlyWritten(x: array<Byte>, at: nat, n: nat)
    reads x
  {
    forall j {:trigger x[j]} :: 0 <= j < x.Length && !(at <= j < at + n) ==> x[j] == old(x[j])
  }

  /** Stores a byte string. */
  method Store(x: array<Byte>, at: nat, b: seq<Byte>)
    requires at + |b| <= x.Length
    modifies x
    ensures x[at..at + |b|] == b
    ensures OnlyWritten(x, at, |b|)
  {
    for i := 0 to |b|
      invariant x[at..at + i] == b[..i]
      invariant OnlyWritten(x, at, |b|)
    {
      x[at + i] := b[i];
      assert x[at..at + i + 1] == b[..i] + [b[i]];
    }
    assert b[..|b|] == b;
  }
}
