/**
 * authenticatorLargeBlobs of cbor_large_blobs.c: the fragmented write session and fragmented reads.
 * A request arrives parsed; whether its pinUvAuthParam verifies is part of it.
 */
module LargeBlobs {
  import opened Bytes

  const MAX_FRAGMENT_LENGTH: nat := 960
  const MAX_LARGE_BLOB_SIZE: nat := 2048

  /** The errors the command distinguishes; its caller sees one status for all of them. */
  datatype Code =
    | Ok | InvalidParameter | InvalidLength | StorageFull | InvalidSequence | PuatRequired | MissingParameter
    | PinAuthInvalid | IntegrityFailure

  /** SHA-256 */
  type Hash = Bytes -> Bytes

  datatype Request = Request(get: nat, fragment: Option<Bytes>, offset: Option<nat>, length: nat,
                             authPresent: bool, protocol: nat, verified: bool, permitted: bool)

  /** The two statics, the buffer of the session and the stored array. */
  datatype State = State(expectedLength: nat, expectedNextOffset: nat, temp: Bytes, file: Bytes)

  predicate BufferFits(s: State)
  {
    |s.temp| == MAX_LARGE_BLOB_SIZE
  }

  // ---------------------------------------------------------------- writing

  /** What offset 0 sets before anything is authenticated. */
  function Started(s: State, r: Request): State
  {
    if r.offset == Some(0) then s.(expectedLength := r.length, expectedNextOffset := 0) else s
  }

  /** The checks before the fragment is copied. */
  function WriteCheck(s: State, r: Request): Code
    requires r.fragment.Some? && r.offset.Some?
  {
    var offset, n := r.offset.value, |r.fragment.value|;
    if n > MAX_FRAGMENT_LENGTH then InvalidLength
    else if offset == 0 && r.length == 0 then InvalidParameter
    else if offset == 0 && r.length > MAX_LARGE_BLOB_SIZE then StorageFull
    else if offset == 0 && r.length < 17 then InvalidParameter
    else if offset != 0 && r.length != 0 then InvalidParameter
    else
      var t := Started(s, r);
      if offset != t.expectedNextOffset then InvalidSequence
      else if !r.authPresent then PuatRequired
      else if r.protocol == 0 then MissingParameter
      else if !r.verified || !r.permitted then PinAuthInvalid
      else if offset + n > t.expectedLength then InvalidParameter
      else Ok
  }

  /** The request gets as far as setting the two statics. */
  predicate Starts(r: Request)
    requires r.fragment.Some? && r.offset.Some?
  {
    |r.fragment.value| <= MAX_FRAGMENT_LENGTH && r.offset.value == 0 && 17 <= r.length <= MAX_LARGE_BLOB_SIZE
  }

  /** A fragment is copied to its place in the buffer. */
  function Copied(temp: Bytes, at: nat, b: Bytes): (t: Bytes)
    requires at + |b| <= |temp|
    ensures |t| == |temp|
  {
    temp[..at] + b + temp[at + |b|..]
  }

  /** More than the minimum of 17 bytes has to end with half the hash of the rest. */
  predicate Integral(h: Hash, b: Bytes)
    requires |b| >= 17
  {
    |b| > 17 ==> Prefix16(h(b[..|b| - 16])) == b[|b| - 16..]
  }

  function Prefix16(b: Bytes): Bytes
  {
    if |b| <= 16 then b else b[..16]
  }

  function Zeros(): (t: Bytes)
    ensures |t| == MAX_LARGE_BLOB_SIZE
  {
    seq(MAX_LARGE_BLOB_SIZE, _ => 0)
  }

  /** Bounds the statics keep. */
  predicate InBounds(s: State)
  {
    && BufferFits(s) && s.expectedNextOffset <= s.expectedLength <= MAX_LARGE_BLOB_SIZE
    && (s.expectedNextOffset > 0 ==> s.expectedLength >= 17)
  }

  function WriteResult(h: Hash, s: State, r: Request): (Code, State)
    requires r.fragment.Some? && r.offset.Some? && InBounds(s)
  {
    var code := WriteCheck(s, r);
    var t := if Starts(r) then Started(s, r) else s;
    if code != Ok then (code, t)
    else
      var at, b := t.expectedNextOffset, r.fragment.value;
      var temp := Copied(if r.offset.value == 0 then Zeros() else t.temp, at, b);
      var u := t.(temp := temp, expectedNextOffset := at + |b|);
      if u.expectedNextOffset < u.expectedLength then (Ok, u)
      else if !Integral(h, temp[..u.expectedLength]) then (IntegrityFailure, u)
      else (Ok, u.(file := temp[..u.expectedLength]))
  }

  // ---------------------------------------------------------------- reading, and the whole command

  function ReadResult(file: Bytes, r: Request): (c: (Code, Bytes))
    requires r.offset.Some?
  {
    var offset := r.offset.value;
    if r.length != 0 || offset > |file| then (InvalidParameter, [])
    else (Ok, file[offset..offset + if r.get < |file| - offset then r.get else |file| - offset])
  }

  function Result(h: Hash, s: State, r: Request): (Code, State, Bytes)
    requires InBounds(s)
  {
    if r.offset.None? || (r.get == 0 <==> r.fragment.None?) then (InvalidParameter, s, [])
    else if r.get > 0 then
      var (code, b) := ReadResult(s.file, r);
      (code, s, b)
    else
      var (code, t) := WriteResult(h, s, r);
      (code, t, [])
  }

  /** The request is a write whose fragment is accepted. */
  predicate Accepted(s: State, r: Request)
  {
    r.offset.Some? && r.get == 0 && r.fragment.Some? && WriteCheck(s, r) == Ok
  }

  // ---------------------------------------------------------------- what is accepted

  /**
   * When a fragment is accepted, in every state: it has its place, fits, and is authenticated, with a
   * length announced at offset 0 and only there. Nothing else changes the buffer or the stored array.
   */
  lemma WriteOutcome(h: Hash, s: State, r: Request)
    requires InBounds(s) && r.fragment.Some? && r.offset.Some? && r.get == 0
    ensures var (code, t, response) := Result(h, s, r);
            var n, at := |r.fragment.value|, r.offset.value;
            var fits := n <= 960 && if at == 0 then 17 <= r.length <= 2048 && n <= r.length
                                    else r.length == 0 && at == s.expectedNextOffset && at + n <= s.expectedLength;
            && (Accepted(s, r) <==> fits && r.authPresent && r.protocol != 0 && r.verified && r.permitted)
            && (code in {Ok, IntegrityFailure} <==> Accepted(s, r))
            && (!Accepted(s, r) ==> t.file == s.file && t.temp == s.temp)
            && (Accepted(s, r) ==>
                  && t.expectedNextOffset == at + n && t.expectedLength == (if at == 0 then r.length else s.expectedLength)
                  && t.temp[at..at + n] == r.fragment.value
                  && (t.file != s.file ==> t.file == t.temp[..t.expectedLength] && at + n == t.expectedLength)
                  && (code == Ok && at + n == t.expectedLength ==> t.file == t.temp[..t.expectedLength]))
            && response == []
  {
    hide Integral;
  }

  /** What an integral array of more than 17 bytes ends with: 16 bytes of the hash of what is before them. */
  lemma IntegralIs(h: Hash, b: Bytes)
    requires |b| >= 17 && forall x :: |h(x)| == 32
    ensures Integral(h, b) <==> |b| == 17 || b[|b| - 16..] == h(b[..|b| - 16])[..16]
  {
  }

  /** When a read is answered, and with what; it changes nothing. */
  lemma ReadOutcome(h: Hash, s: State, r: Request)
    requires InBounds(s) && r.get > 0
    ensures var (code, t, response) := Result(h, s, r);
            && t == s
            && (code == Ok <==> r.fragment.None? && r.offset.Some? && r.length == 0 && r.offset.value <= |s.file|)
            && (code != Ok ==> code == InvalidParameter && response == [])
            && (code == Ok ==>
                  var at := r.offset.value;
                  response <= s.file[at..] && |response| == if r.get < |s.file| - at then r.get else |s.file| - at)
  {
  }

  // ---------------------------------------------------------------- every run

  /** What has been accepted since the last accepted fragment at offset 0, and the length it announced. */
  datatype Session = Session(announced: nat, data: Bytes)

  function NextSession(q: Session, s: State, r: Request): Session
  {
    if !Accepted(s, r) then q
    else if r.offset.value == 0 then Session(r.length, r.fragment.value)
    else Session(q.announced, q.data + r.fragment.value)
  }

  /** The buffer holds the session, and the session is what the statics describe. */
  ghost predicate Consistent(s: State, q: Session)
  {
    && InBounds(s)
    && (s.expectedNextOffset > 0 ==>
         |q.data| == s.expectedNextOffset && s.temp[..s.expectedNextOffset] == q.data && q.announced == s.expectedLength)
  }

  lemma CopiedPrefix(temp: Bytes, at: nat, b: Bytes)
    requires at + |b| <= |temp|
    ensures Copied(temp, at, b)[..at + |b|] == temp[..at] + b
  {
  }

  /** Every step keeps it. A step that changes the stored array stores the session, whole and integral. */
  lemma StepKeeps(h: Hash, s: State, q: Session, r: Request)
    requires Consistent(s, q)
    ensures var t, q' := Result(h, s, r).1, NextSession(q, s, r);
            && Consistent(t, q')
            && (Commits(h, s, q, r) ==> t.file == q'.data)
            && (!Commits(h, s, q, r) ==> t.file == s.file)
  {
    hide Integral;
    if Accepted(s, r) {
      var t := if Starts(r) then Started(s, r) else s;
      var temp := if r.offset.value == 0 then Zeros() else t.temp;
      CopiedPrefix(temp, t.expectedNextOffset, r.fragment.value);
      if r.offset.value == 0 {
        assert temp[..0] + r.fragment.value == r.fragment.value;
      }
    }
  }

  /** A commit: the accepted fragment completes the announced length, and the whole is integral. */
  ghost predicate Commits(h: Hash, s: State, q: Session, r: Request)
  {
    var q' := NextSession(q, s, r);
    Accepted(s, r) && |q'.data| == q'.announced >= 17 && Integral(h, q'.data)
  }

  function Run(h: Hash, s: State, q: Session, requests: seq<Request>): (State, Session)
    requires InBounds(s)
    ensures InBounds(Run(h, s, q, requests).0)
  {
    if requests == [] then (s, q)
    else
      var (t, q') := Run(h, s, q, requests[..|requests| - 1]);
      var r := requests[|requests| - 1];
      StepInBounds(h, t, r);
      (Result(h, t, r).1, NextSession(q', t, r))
  }

  lemma StepInBounds(h: Hash, s: State, r: Request)
    requires InBounds(s)
    ensures InBounds(Result(h, s, r).1)
  {
  }

  /** A stored array: 17 to 2048 bytes, ending with half the hash of the rest when longer than 17. */
  ghost predicate Stored(h: Hash, b: Bytes)
  {
    17 <= |b| <= MAX_LARGE_BLOB_SIZE && Integral(h, b)
  }

  /** After any run the offsets are in bounds and the stored array is the first one or a good one. */
  lemma {:induction false} RunKeeps(h: Hash, s: State, q: Session, requests: seq<Request>)
    requires Consistent(s, q)
    ensures var (t, q') := Run(h, s, q, requests); Consistent(t, q') && (t.file == s.file || Stored(h, t.file))
  {
    hide Integral;
    if requests != [] {
      var before := requests[..|requests| - 1];
      RunKeeps(h, s, q, before);
      var (t, q') := Run(h, s, q, before);
      StepKeeps(h, t, q', requests[|requests| - 1]);
      CommitIsStored(h, t, q', requests[|requests| - 1]);
    }
  }

  lemma CommitIsStored(h: Hash, s: State, q: Session, r: Request)
    requires Consistent(s, q)
    ensures Commits(h, s, q, r) ==> Stored(h, NextSession(q, s, r).data)
  {
  }

  // ---------------------------------------------------------------- write, then read

  /** An authenticated write of one fragment. */
  function Fragment(b: Bytes, offset: nat, length: nat): Request
  {
    Request(0, Some(b), Some(offset), length, true, 1, true, true)
  }

  function Join(parts: seq<Bytes>): (b: Bytes)
  {
    if parts == [] then [] else Join(parts[..|parts| - 1]) + parts[|parts| - 1]
  }

  /** The requests that write the parts one after the other. */
  function Upload(parts: seq<Bytes>, total: nat): (r: seq<Request>)
    ensures |r| == |parts|
  {
    if parts == [] then []
    else
      var offset := |Join(parts[..|parts| - 1])|;
      Upload(parts[..|parts| - 1], total) + [Fragment(parts[|parts| - 1], offset, if offset == 0 then total else 0)]
  }

  predicate Parts(parts: seq<Bytes>)
  {
    forall i :: 0 <= i < |parts| ==> 0 < |parts[i]| <= MAX_FRAGMENT_LENGTH
  }

  lemma {:induction false} UploadSession(h: Hash, s: State, q: Session, parts: seq<Bytes>, total: nat)
    requires Consistent(s, q) && Parts(parts) && parts != []
    requires 17 <= total <= MAX_LARGE_BLOB_SIZE && |Join(parts)| <= total
    ensures var (t, q') := Run(h, s, q, Upload(parts, total));
            && Consistent(t, q') && q' == Session(total, Join(parts))
            && t.expectedNextOffset == |Join(parts)| > 0
            && (|Join(parts)| == total && Integral(h, Join(parts)) ==> t.file == Join(parts))
            && (|Join(parts)| < total || !Integral(h, Join(parts)) ==> t.file == s.file)
  {
    hide Integral, Result;
    var before, last := parts[..|parts| - 1], parts[|parts| - 1];
    var requests := Upload(parts, total);
    assert requests[..|requests| - 1] == Upload(before, total);
    var r := requests[|requests| - 1];
    var (t, q') := Run(h, s, q, Upload(before, total));
    if before == [] {
      assert (t, q') == (s, q);
    } else {
      UploadSession(h, s, q, before, total);
    }
    assert WriteCheck(t, r) == Ok;
    StepKeeps(h, t, q', r);
    AcceptedMoves(h, t, r);
  }

  lemma AcceptedMoves(h: Hash, s: State, r: Request)
    requires InBounds(s) && Accepted(s, r)
    ensures Result(h, s, r).1.expectedNextOffset == r.offset.value + |r.fragment.value|
  {
  }

  /** Writing an array in any non-empty fragments stores it exactly when it is integral. */
  lemma UploadStores(h: Hash, s: State, q: Session, parts: seq<Bytes>)
    requires Consistent(s, q) && Parts(parts) && 17 <= |Join(parts)| <= MAX_LARGE_BLOB_SIZE
    ensures Run(h, s, q, Upload(parts, |Join(parts)|)).0.file == if Integral(h, Join(parts)) then Join(parts) else s.file
  {
    hide Integral, Run;
    assert parts != [];
    UploadSession(h, s, q, parts, |Join(parts)|);
  }

  function Reading(get: nat, offset: nat): Request
  {
    Request(get, None, Some(offset), 0, false, 0, false, false)
  }

  /** What reading from an offset on delivers, each read asking for so many bytes. */
  function ReadFrom(file: Bytes, offset: nat, sizes: seq<nat>): (b: Bytes)
    decreases |sizes|
  {
    if sizes == [] then []
    else
      var (code, b) := ReadResult(file, Reading(sizes[0], offset));
      if code != Ok then [] else b + ReadFrom(file, offset + |b|, sizes[1..])
  }

  function Total(sizes: seq<nat>): (n: nat)
  {
    if sizes == [] then 0 else sizes[0] + Total(sizes[1..])
  }

  /** Reading at successive offsets returns the stored array, as far as was asked for. */
  lemma {:induction false} ReadsBack(file: Bytes, offset: nat, sizes: seq<nat>)
    requires offset <= |file|
    ensures var rest := file[offset..];
            ReadFrom(file, offset, sizes) == if Total(sizes) < |rest| then rest[..Total(sizes)] else rest
    decreases |sizes|
  {
    if sizes == [] {
      assert file[offset..][..0] == [];
    } else {
      var b := ReadResult(file, Reading(sizes[0], offset)).1;
      ReadsBack(file, offset + |b|, sizes[1..]);
      assert file[offset..] == b + file[offset + |b|..];
    }
  }

  // ---------------------------------------------------------------- the implementation

  class LargeBlobStore {
    var expectedLength: nat
    var expectedNextOffset: nat
    const tempLba: array<Byte>
    var file: Bytes

    function Contents(): State
      reads this, tempLba
    {
      State(expectedLength, expectedNextOffset, tempLba[..], file)
    }

    ghost predicate Valid()
      reads this, tempLba
    {
      InBounds(Contents())
    }

    constructor (initial: Bytes)
      ensures Valid() && fresh(tempLba) && Contents() == State(0, 0, Zeros(), initial)
    {
      expectedLength, expectedNextOffset, file := 0, 0, initial;
      tempLba := new Byte[MAX_LARGE_BLOB_SIZE](_ => 0);
      new;
      assert tempLba[..] == Zeros();
    }

    /** cbor_large_blobs */
    method Command(h: Hash, r: Request) returns (code: Code, response: Bytes)
      requires Valid()
      modifies this, tempLba
      ensures (code, Contents(), response) == Result(h, old(Contents()), r)
      ensures Valid()
    {
      hide InBounds, WriteResult, Integral;
      StepInBounds(h, Contents(), r);
      if r.offset.None? {
        return InvalidParameter, [];
      }
      if r.get == 0 && r.fragment.None? {
        return InvalidParameter, [];
      }
      if r.get != 0 && r.fragment.Some? {
        return InvalidParameter, [];
      }
      if r.get > 0 {
        var offset := r.offset.value;
        if r.length != 0 {
          return InvalidParameter, [];
        }
        if offset > |file| {
          return InvalidParameter, [];
        }
        var n := if r.get < |file| - offset then r.get else |file| - offset;
        return Ok, file[offset..offset + n];
      }
      code := Write(h, r, r.offset.value, r.fragment.value);
      response := [];
    }

    /** The branch that writes a fragment. */
    method Write(h: Hash, r: Request, offset: nat, b: Bytes) returns (code: Code)
      requires Valid() && r.offset == Some(offset) && r.fragment == Some(b)
      modifies this, tempLba
      ensures (code, Contents()) == WriteResult(h, old(Contents()), r)
    {
      hide Integral, Zeros;
      if |b| > MAX_FRAGMENT_LENGTH {
        return InvalidLength;
      }
      if offset == 0 {
        if r.length == 0 {
          return InvalidParameter;
        }
        if r.length > MAX_LARGE_BLOB_SIZE {
          return StorageFull;
        }
        if r.length < 17 {
          return InvalidParameter;
        }
        expectedLength := r.length;
        expectedNextOffset := 0;
      } else {
        if r.length != 0 {
          return InvalidParameter;
        }
      }
      if offset != expectedNextOffset {
        return InvalidSequence;
      }
      if !r.authPresent {
        return PuatRequired;
      }
      if r.protocol == 0 {
        return MissingParameter;
      }
      if !r.verified {
        return PinAuthInvalid;
      }
      if !r.permitted {
        return PinAuthInvalid;
      }
      if offset + |b| > expectedLength {
        return InvalidParameter;
      }
      CopyFragment(offset == 0, b);
      if expectedNextOffset == expectedLength {
        var sha := h(tempLba[..expectedLength - 16]);
        if expectedLength > 17 && Prefix16(sha) != tempLba[expectedLength - 16..expectedLength] {
          IntegralOfBuffer(h, tempLba[..], expectedLength);
          return IntegrityFailure;
        }
        IntegralOfBuffer(h, tempLba[..], expectedLength);
        file := tempLba[..expectedLength];
      }
      return Ok;
    }

    /** memset at offset 0, then memcpy to the expected offset. */
    method CopyFragment(first: bool, b: Bytes)
      requires tempLba.Length == MAX_LARGE_BLOB_SIZE && expectedNextOffset + |b| <= MAX_LARGE_BLOB_SIZE
      modifies this`expectedNextOffset, tempLba
      ensures expectedNextOffset == old(expectedNextOffset) + |b|
      ensures tempLba[..] == Copied(if first then Zeros() else old(tempLba[..]), old(expectedNextOffset), b)
    {
      if first {
        for i := 0 to tempLba.Length
          invariant expectedNextOffset == old(expectedNextOffset)
          invariant forall j :: 0 <= j < i ==> tempLba[j] == 0
        {
          tempLba[i] := 0;
        }
        assert tempLba[..] == Zeros();
      }
      ghost var before := tempLba[..];
      Store(tempLba, expectedNextOffset, b);
      assert tempLba[..] == Copied(before, expectedNextOffset, b);
      expectedNextOffset := expectedNextOffset + |b|;
    }
  }

  lemma IntegralOfBuffer(h: Hash, temp: Bytes, n: nat)
    requires 17 <= n <= |temp|
    ensures Integral(h, temp[..n]) <==> n > 17 ==> Prefix16(h(temp[..n - 16])) == temp[n - 16..n]
  {
    assert temp[..n][..n - 16] == temp[..n - 16] && temp[..n][n - 16..] == temp[n - 16..n];
  }
}
