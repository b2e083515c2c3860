/**
 * Credential selection of cbor_get_assertion.c: gathering, the credProtect filter, the exchange sort
 * by creation time, and the session of authenticatorGetNextAssertion.
 */
module Assertion {
  import opened Bytes
  import opened CredentialFiles

  /** MAX_CREDENTIAL_COUNT_IN_LIST */
  const MAX_LIST: nat := 16

  /** A loaded credential with its id. */
  datatype Candidate = Candidate(id: Bytes, cred: Credential)

  /** An allow-list entry with the fields the loop looks at. */
  datatype Descriptor = Descriptor(complete: bool, publicKey: bool, id: Bytes)

  const NoCandidate := Candidate([], Credential([], [], 0, None))

  // ---------------------------------------------------------------- gathering

  /** The loadable public-key entries of the allow list, in order. */
  function Listed(load: Loader, hash: Bytes, list: seq<Descriptor>): (c: seq<Candidate>)
    ensures |c| <= |list|
  {
    if list == [] then []
    else
      var n := |list| - 1;
      Listed(load, hash, list[..n]) +
      match load(list[n].id, hash)
      case Some(cred) => if list[n].publicKey then [Candidate(list[n].id, cred)] else []
      case None => []
  }

  /** The loadable credentials of the RP among stored files, in slot order. */
  function Stored(load: Loader, hash: Bytes, files: seq<Option<CredFile>>): (c: seq<Candidate>)
    ensures |c| <= |files|
  {
    if files == [] then []
    else
      var n := |files| - 1;
      Stored(load, hash, files[..n]) +
      if files[n].Some? && files[n].value.rpIdHash == hash then
        match load(files[n].value.id, hash)
        case Some(cred) => [Candidate(files[n].value.id, cred)]
        case None => []
      else []
  }

  /** At most the first 16 of them are taken. */
  function FirstStored(load: Loader, hash: Bytes, files: seq<Option<CredFile>>): (c: seq<Candidate>)
    ensures |c| <= MAX_LIST
  {
    var c := Stored(load, hash, files);
    if |c| <= MAX_LIST then c else c[..MAX_LIST]
  }

  lemma {:induction false} StoredPrefix(load: Loader, hash: Bytes, files: seq<Option<CredFile>>, n: nat)
    requires n <= |files|
    ensures Stored(load, hash, files[..n]) <= Stored(load, hash, files)
    decreases |files|
  {
    if n < |files| {
      var m := |files| - 1;
      StoredPrefix(load, hash, files[..m], n);
      assert files[..m][..n] == files[..n];
    } else {
      assert files[..n] == files;
    }
  }

  /** The allow list is gone through in order, each entry for itself. */
  lemma {:induction false} ListedAppend(load: Loader, hash: Bytes, a: seq<Descriptor>, b: seq<Descriptor>)
    ensures Listed(load, hash, a + b) == Listed(load, hash, a) + Listed(load, hash, b)
  {
    if b == [] {
      assert a + b == a;
    } else {
      var n := |b| - 1;
      ListedAppend(load, hash, a, b[..n]);
      assert (a + b)[..|a + b| - 1] == a + b[..n];
    }
  }

  /** An entry gives its credential exactly when it is a public key and loads. */
  lemma ListedOne(load: Loader, hash: Bytes, d: Descriptor, x: Candidate)
    ensures Listed(load, hash, [d]) == [x] <==> d.publicKey && x.id == d.id && load(d.id, hash) == Some(x.cred)
    ensures Listed(load, hash, [d]) == [] <==> !d.publicKey || load(d.id, hash) == None
  {
    assert [d][..0] == [] && Listed(load, hash, []) == [];
    var cred := load(d.id, hash);
    var one := if d.publicKey && cred.Some? then [Candidate(d.id, cred.value)] else [];
    assert Listed(load, hash, [d]) == [] + one == one;
    assert one != [] && one == [x] ==> one[0] == x;
  }

  /** So are the stored files. */
  lemma {:induction false} StoredAppend(load: Loader, hash: Bytes, a: seq<Option<CredFile>>, b: seq<Option<CredFile>>)
    ensures Stored(load, hash, a + b) == Stored(load, hash, a) + Stored(load, hash, b)
  {
    if b == [] {
      assert a + b == a;
    } else {
      var n := |b| - 1;
      StoredAppend(load, hash, a, b[..n]);
      assert (a + b)[..|a + b| - 1] == a + b[..n];
    }
  }

  /** At most sixteen are taken. */
  lemma SixteenStored(load: Loader, hash: Bytes, a: seq<Option<CredFile>>)
    ensures FirstStored(load, hash, a) <= Stored(load, hash, a)
    ensures |FirstStored(load, hash, a)| == if |Stored(load, hash, a)| < 16 then |Stored(load, hash, a)| else 16
  {
  }

  /** A file gives its credential exactly when it is of the RP and loads. */
  lemma StoredOne(load: Loader, hash: Bytes, f: CredFile, x: Candidate)
    ensures Stored(load, hash, [None]) == []
    ensures Stored(load, hash, [Some(f)]) == [x] <==> f.rpIdHash == hash && x.id == f.id && load(f.id, hash) == Some(x.cred)
    ensures Stored(load, hash, [Some(f)]) == [] <==> f.rpIdHash != hash || load(f.id, hash) == None
  {
    var none: seq<Option<CredFile>> := [None];
    assert [Some(f)][..0] == [] && none[..0] == [];
    assert Stored(load, hash, []) == [];
    var cred := load(f.id, hash);
    var one := if f.rpIdHash == hash && cred.Some? then [Candidate(f.id, cred.value)] else [];
    assert Stored(load, hash, [Some(f)]) == [] + one == one;
    assert Stored(load, hash, none) == [] + [];
    assert one != [] && one == [x] ==> one[0] == x;
  }

  // ---------------------------------------------------------------- credProtect

  /** The credential may be used: level 3 needs user verification, level 2 that or an allow list. */
  predicate Allowed(c: Candidate, uv: bool, resident: bool)
  {
    match c.cred.protection
    case None => true
    case Some(p) => uv || !(p == 3 || (p == 2 && resident))
  }

  /** CTAP 2.1, section 12.1: level 1 is always usable, level 2 with a list or verified, level 3 only verified. */
  lemma ProtectionLevels(c: Candidate, uv: bool, resident: bool)
    ensures c.cred.protection == None || c.cred.protection == Some(1) ==> Allowed(c, uv, resident)
    ensures c.cred.protection == Some(2) ==> (Allowed(c, uv, resident) <==> uv || !resident)
    ensures c.cred.protection == Some(3) ==> (Allowed(c, uv, resident) <==> uv)
    ensures uv ==> Allowed(c, uv, resident)
  {
  }

  function Kept(c: seq<Candidate>, uv: bool, resident: bool): (k: seq<Candidate>)
    ensures |k| <= |c|
  {
    if c == [] then []
    else
      var n := |c| - 1;
      Kept(c[..n], uv, resident) + if Allowed(c[n], uv, resident) then [c[n]] else []
  }

  /** Nothing else is dropped and nothing is added. */
  lemma {:induction false} KeptExactly(c: seq<Candidate>, uv: bool, resident: bool, x: Candidate)
    ensures multiset(Kept(c, uv, resident))[x] == if Allowed(x, uv, resident) then multiset(c)[x] else 0
  {
    if c != [] {
      var n := |c| - 1;
      KeptExactly(c[..n], uv, resident, x);
      assert c == c[..n] + [c[n]];
    }
  }

  // ---------------------------------------------------------------- order

  /** No credential is newer than one before it. */
  ghost predicate NewestFirst(c: seq<Candidate>)
  {
    Settled(c, |c|)
  }

  /** The first i credentials are in their final places. */
  ghost predicate Settled(c: seq<Candidate>, i: nat)
  {
    forall a, b :: 0 <= a < i && a < b < |c| ==> c[a].cred.creation >= c[b].cred.creation
  }

  /** The credential at i is as new as all those from there up to j. */
  ghost predicate Leads(c: seq<Candidate>, i: nat, j: nat)
  {
    i < |c| && forall b :: i < b < j && b < |c| ==> c[i].cred.creation >= c[b].cred.creation
  }

  function Swapped<T>(s: seq<T>, i: nat, j: nat): (t: seq<T>)
    requires i < j < |s|
    ensures |t| == |s|
  {
    s[i := s[j]][j := s[i]]
  }

  lemma SwapPermutes<T>(s: seq<T>, i: nat, j: nat)
    requires i < j < |s|
    ensures multiset(Swapped(s, i, j)) == multiset(s)
  {
  }

  /** Bringing a newer credential forward keeps what is settled and makes it lead. */
  lemma SwapKeeps(c: seq<Candidate>, i: nat, j: nat)
    requires i < j < |c| && Settled(c, i) && Leads(c, i, j) && c[j].cred.creation > c[i].cred.creation
    ensures Settled(Swapped(c, i, j), i) && Leads(Swapped(c, i, j), i, j + 1)
  {
  }

  lemma LeaderSettles(c: seq<Candidate>, i: nat)
    requires i < |c| && Settled(c, i) && Leads(c, i, |c|)
    ensures Settled(c, i + 1)
  {
  }

  lemma LeadsNext(c: seq<Candidate>, i: nat, j: nat)
    requires i < j < |c| && Leads(c, i, j) && c[j].cred.creation <= c[i].cred.creation
    ensures Leads(c, i, j + 1)
  {
  }

  /** The exchange sort: the newest of the rest comes to position i, for every i. */
  method ExchangeSort(creds: array<Candidate>, n: nat)
    requires n <= creds.Length
    modifies creds
    ensures NewestFirst(creds[..n])
    ensures multiset(creds[..n]) == multiset(old(creds[..n]))
    ensures creds[n..] == old(creds[n..])
  {
    hide Settled, Leads, Swapped;
    NothingSettled(creds[..n]);
    for i := 0 to n
      invariant Settled(creds[..n], i)
      invariant multiset(creds[..n]) == multiset(old(creds[..n])) && creds[n..] == old(creds[n..])
    {
      NothingLed(creds[..n], i);
      for j := i + 1 to n
        invariant Settled(creds[..n], i) && Leads(creds[..n], i, j)
        invariant multiset(creds[..n]) == multiset(old(creds[..n])) && creds[n..] == old(creds[n..])
      {
        if creds[j].cred.creation > creds[i].cred.creation {
          SwapKeeps(creds[..n], i, j);
          Exchange(creds, n, i, j);
        } else {
          LeadsNext(creds[..n], i, j);
        }
      }
      LeaderSettles(creds[..n], i);
    }
  }

  lemma NothingSettled(c: seq<Candidate>)
    ensures Settled(c, 0)
  {
  }

  lemma NothingLed(c: seq<Candidate>, i: nat)
    requires i < |c|
    ensures Leads(c, i, i + 1)
  {
  }

  /** Exchange through tmp. */
  method Exchange(creds: array<Candidate>, n: nat, i: nat, j: nat)
    requires i < j < n <= creds.Length
    modifies creds
    ensures creds[..n] == Swapped(old(creds[..n]), i, j) && multiset(creds[..n]) == multiset(old(creds[..n]))
    ensures creds[n..] == old(creds[n..])
  {
    SwapPermutes(creds[..n], i, j);
    var tmp := creds[j];
    creds[j] := creds[i];
    creds[i] := tmp;
  }

  // ---------------------------------------------------------------- the session

  const TWO_32: nat := 0x1_0000_0000

  /** A 32-bit clock reading in milliseconds. */
  type Clock = t: nat | t < TWO_32

  /** timerx + 30 * 1000 < board_millis(), in 32 bits, is the other case. */
  predicate Timely(timer: Clock, now: Clock)
  {
    !((timer + 30000) % TWO_32 < now)
  }

  /**
   * While the clock does not wrap, a call is timely exactly within 30 seconds, except in the last 30
   * seconds before the clock wraps, when the deadline wraps and every call is late.
   */
  lemma TimelyWithin30s(timer: Clock, now: Clock)
    requires timer <= now
    ensures Timely(timer, now) <==> now - timer <= 30000 && timer + 30000 < TWO_32
  {
  }

  /** Once the clock has wrapped, a deadline that has wrapped too is exact; an earlier one never ends. */
  lemma TimelyAfterWrap(timer: Clock, now: Clock)
    requires now < timer
    ensures Timely(timer, now) <==> now + TWO_32 - timer <= 30000 || timer + 30000 < TWO_32
  {
  }

  /** Milliseconds from timer to now on a clock that wraps at most once in between. */
  function Elapsed(timer: Clock, now: Clock): (d: nat)
    ensures d < TWO_32 && (timer + d) % TWO_32 == now
  {
    if timer <= now then now - timer else now + TWO_32 - timer
  }

  /** The comparison tells 30 seconds exactly when the deadline and the clock have wrapped together. */
  lemma TimelyExact(timer: Clock, now: Clock)
    ensures (Timely(timer, now) <==> Elapsed(timer, now) <= 30000) <==> (timer + 30000 < TWO_32 <==> timer <= now)
  {
    if timer <= now {
      TimelyWithin30s(timer, now);
    } else {
      TimelyAfterWrap(timer, now);
    }
  }

  /** One millisecond is too late just before the clock wraps; almost 50 days are not when only the clock has wrapped. */
  lemma TimelyFails()
    ensures !Timely(0xFFFF_8AD0, 0xFFFF_8AD1) && Elapsed(0xFFFF_8AD0, 0xFFFF_8AD1) == 1
    ensures Timely(0xFFFF_8ACF, 0xFFFF_8ACE) && Elapsed(0xFFFF_8ACF, 0xFFFF_8ACE) == TWO_32 - 1
  {
  }

  /** credsx, numberOfCredentialsx, credentialCounter and timerx */
  datatype Session = Session(creds: seq<Candidate>, number: Byte, counter: Byte, timer: Clock)

  const Initial := Session([], 0, 1, 0)
  const Ended := Session([], 0, 0, 0)

  datatype Reply =
    | Assertion(credential: Candidate, count: Option<nat>)
    | NotAllowed | NoCredentials | Denied | Failed | MissingParameter

  /**
   * authenticatorGetAssertion with sorted credentials c. silent: the options turn both user presence
   * and user verification off, and nothing is kept. produced: key and signature could be made.
   */
  function FirstStep(s: Session, c: seq<Candidate>, silent: bool, denied: bool, produced: bool, now: Clock)
    : (Reply, Session)
    requires |c| <= MAX_LIST
  {
    if c == [] then (NoCredentials, s)
    else if denied then (Denied, s)
    else
      var t := if !silent && |c| > 1 then Session(c, |c|, 1, now) else s;
      (if produced then Assertion(c[0], if |c| > 1 then Some(|c|) else None) else Failed, t)
  }

  /** Which reply the first call gives, and when it starts a session although key or signature then fail. */
  lemma FirstOutcome(s: Session, c: seq<Candidate>, silent: bool, denied: bool, produced: bool, now: Clock)
    requires |c| <= MAX_LIST
    ensures var (reply, t) := FirstStep(s, c, silent, denied, produced, now);
            && (reply == NoCredentials <==> c == [])
            && (reply == Denied <==> c != [] && denied)
            && (reply == Failed <==> c != [] && !denied && !produced)
            && (reply.Assertion? <==> c != [] && !denied && produced)
            && (reply.Assertion? ==>
                  reply.credential == c[0] && (reply.count == if |c| == 1 then None else Some(|c|)))
            && t == if |c| > 1 && !denied && !silent then Session(c, |c|, 1, now) else s
  {
  }

  predicate WellFormed(s: Session)
  {
    s.number <= |s.creds| <= MAX_LIST
  }

  /** authenticatorGetNextAssertion; any error and the last reply end the session. */
  function NextStep(s: Session, produced: bool, now: Clock): (Reply, Session)
    requires WellFormed(s)
  {
    if s.counter >= s.number || !Timely(s.timer, now) then (NotAllowed, Ended)
    else if !produced then (Failed, Ended)
    else
      (Assertion(s.creds[s.counter], None),
       if s.counter + 1 == s.number then Ended else s.(timer := now, counter := s.counter + 1))
  }

  /** A further call is answered exactly when credentials are left, it is timely, and the reply can be made. */
  lemma NextOutcome(s: Session, produced: bool, now: Clock)
    requires WellFormed(s)
    ensures var (reply, t) := NextStep(s, produced, now);
            && (reply == NotAllowed <==> s.counter >= s.number || !Timely(s.timer, now))
            && (reply == Failed <==> s.counter < s.number && Timely(s.timer, now) && !produced)
            && (s.counter < s.number && Timely(s.timer, now) && produced ==>
                  && reply == Assertion(s.creds[s.counter], None)
                  && (t.number > 0 ==> t == Session(s.creds, s.number, s.counter + 1, now)))
            && (t.number == 0 <==> !reply.Assertion? || s.counter + 1 == s.number)
  {
  }

  /** The session after k calls of authenticatorGetNextAssertion at the given times. */
  function After(s: Session, times: seq<Clock>, k: nat): (t: Session)
    requires WellFormed(s) && k <= |times|
    ensures WellFormed(t)
  {
    if k == 0 then s else NextStep(After(s, times, k - 1), true, times[k - 1]).1
  }

  /** Every call that is answered comes in time after the one before. */
  ghost predicate InTime(start: Clock, times: seq<Clock>, n: nat)
  {
    forall k :: 0 <= k < n && k < |times| ==> Timely(if k == 0 then start else times[k - 1], times[k])
  }

  /** The state of a session over n credentials after k calls. */
  lemma {:induction false} SessionState(c: seq<Candidate>, start: Clock, times: seq<Clock>, k: nat)
    requires 1 < |c| <= MAX_LIST && k <= |times| && InTime(start, times, |c| - 1)
    ensures After(Session(c, |c|, 1, start), times, k)
         == if k < |c| - 1 then Session(c, |c|, k + 1, if k == 0 then start else times[k - 1]) else Ended
  {
    if k > 0 {
      SessionState(c, start, times, k - 1);
    }
  }

  /**
   * The first reply of n credentials is the newest with the number n; the next n - 1 timely calls
   * deliver the others in order, once each; every call after those is refused.
   */
  lemma SessionDelivers(s: Session, c: seq<Candidate>, start: Clock, times: seq<Clock>, k: nat)
    requires 1 < |c| <= MAX_LIST && k < |times| && InTime(start, times, |c| - 1)
    ensures var (first, t) := FirstStep(s, c, false, false, true, start);
            && first == Assertion(c[0], Some(|c|))
            && WellFormed(t)
            && NextStep(After(t, times, k), true, times[k]).0
               == if k + 1 < |c| then Assertion(c[k + 1], None) else NotAllowed
  {
    SessionState(c, start, times, k);
  }

  /** A single credential, or options that turn everything off, start no session: an older one goes on. */
  lemma NoSession(s: Session, c: seq<Candidate>, silent: bool, denied: bool, produced: bool, now: Clock)
    requires |c| <= MAX_LIST
    ensures FirstStep(s, c, silent, denied, produced, now).1 == s
            <==> |c| <= 1 || silent || denied || s == Session(c, |c|, 1, now)
  {
  }

  // ---------------------------------------------------------------- the implementation

  /** The candidates of a request: those of the allow list, or without one the resident ones. */
  function Gathered(load: Loader, hash: Bytes, files: CredSlots, list: seq<Descriptor>): (c: seq<Candidate>)
  {
    if list != [] then Listed(load, hash, list) else FirstStored(load, hash, files)
  }

  predicate Complete(list: seq<Descriptor>)
  {
    forall e :: 0 <= e < |list| ==> list[e].complete
  }

  /** The loop over the allow list. */
  method GatherListed(creds: array<Candidate>, load: Loader, hash: Bytes, list: seq<Descriptor>)
    returns (complete: bool, n: nat)
    requires |list| <= creds.Length
    modifies creds
    ensures complete == Complete(list)
    ensures complete ==> n == |Listed(load, hash, list)| && creds[..n] == Listed(load, hash, list)
  {
    n := 0;
    var e := 0;
    while e < |list|
      invariant 0 <= e <= |list| && n <= e && forall d :: 0 <= d < e ==> list[d].complete
      invariant n == |Listed(load, hash, list[..e])| && creds[..n] == Listed(load, hash, list[..e])
    {
      if !list[e].complete {
        return false, n;
      }
      assert list[..e + 1][..e] == list[..e];
      if list[e].publicKey {
        var cred := load(list[e].id, hash);
        if cred.Some? {
          creds[n] := Candidate(list[e].id, cred.value);
          n := n + 1;
        }
      }
      e := e + 1;
    }
    assert list[..|list|] == list;
    return true, n;
  }

  /** The loop over the EF_CRED files, which stops at 16 credentials. */
  method GatherStored(creds: array<Candidate>, load: Loader, hash: Bytes, files: CredSlots) returns (n: nat)
    requires creds.Length == MAX_LIST
    modifies creds
    ensures n == |FirstStored(load, hash, files)| && creds[..n] == FirstStored(load, hash, files)
  {
    n := 0;
    var i := 0;
    while i < SLOTS && n < MAX_LIST
      invariant 0 <= i <= SLOTS && n <= MAX_LIST
      invariant n == |Stored(load, hash, files[..i])| && creds[..n] == Stored(load, hash, files[..i])
    {
      assert files[..i + 1][..i] == files[..i];
      if files[i].Some? && files[i].value.rpIdHash == hash {
        var cred := load(files[i].value.id, hash);
        if cred.Some? {
          creds[n] := Candidate(files[i].value.id, cred.value);
          n := n + 1;
        }
      }
      i := i + 1;
    }
    StoredPrefix(load, hash, files, i);
    assert files[..SLOTS] == files;
  }

  /** The credProtect loop, which compacts the array in place. */
  method Protect(creds: array<Candidate>, n: nat, uv: bool, resident: bool) returns (kept: nat)
    requires n <= creds.Length
    modifies creds
    ensures kept <= n && creds[..kept] == Kept(old(creds[..n]), uv, resident)
  {
    ghost var c := creds[..n];
    kept := 0;
    for i := 0 to n
      invariant kept <= i && creds[..kept] == Kept(c[..i], uv, resident)
      invariant forall j :: i <= j < n ==> creds[j] == c[j]
    {
      assert c[..i + 1][..i] == c[..i];
      if Allowed(creds[i], uv, resident) {
        ghost var done := creds[..kept];
        creds[kept] := creds[i];
        kept := kept + 1;
        assert creds[..kept] == done + [c[i]];
      }
    }
    assert c[..n] == c;
  }

  class GetAssertion {
    const credsx: array<Candidate>
    var numberOfCredentialsx: Byte
    var credentialCounter: Byte
    var timerx: Clock

    ghost predicate Valid()
      reads this
    {
      credsx.Length == MAX_LIST && numberOfCredentialsx <= MAX_LIST
    }

    function Contents(): Session
      reads this, credsx
      requires Valid()
    {
      Session(credsx[..numberOfCredentialsx], numberOfCredentialsx, credentialCounter, timerx)
    }

    constructor ()
      ensures Valid() && fresh(credsx) && Contents() == Initial
    {
      credsx := new Candidate[MAX_LIST](_ => NoCandidate);
      numberOfCredentialsx, credentialCounter, timerx := 0, 1, 0;
    }

    /** authenticatorGetAssertion from the allow list on; c is the sorted list it works with. */
    method First(load: Loader, hash: Bytes, files: CredSlots, list: seq<Descriptor>, uv: bool,
                 silent: bool, denied: bool, produced: bool, now: Clock)
      returns (reply: Reply, ghost c: seq<Candidate>)
      requires Valid() && |list| <= MAX_LIST
      modifies this, credsx
      ensures Valid()
      ensures !Complete(list) ==> reply == MissingParameter && Contents() == old(Contents())
      ensures Complete(list) ==>
                && NewestFirst(c) && |c| <= MAX_LIST
                && multiset(c) == multiset(Kept(Gathered(load, hash, files, list), uv, list == []))
                && (reply, Contents()) == FirstStep(old(Contents()), c, silent, denied, produced, now)
    {
      hide NewestFirst, Kept, Listed, Stored;
      var creds := new Candidate[MAX_LIST](_ => NoCandidate);
      var n: nat, resident := 0, false;
      c := [];
      if |list| > 0 {
        var complete: bool;
        complete, n := GatherListed(creds, load, hash, list);
        if !complete {
          return MissingParameter, [];
        }
      } else {
        n := GatherStored(creds, load, hash, files);
        resident := true;
      }
      var number: nat := Protect(creds, n, uv, resident);
      ghost var kept := creds[..number];
      assert kept == Kept(Gathered(load, hash, files, list), uv, list == []);
      ExchangeSort(creds, number);
      c := creds[..number];
      if number == 0 {
        return NoCredentials, c;
      }
      if denied {
        return Denied, c;
      }
      if !silent {
        if number > 1 {
          CopyCredentials(creds);
          numberOfCredentialsx := number;
          timerx := now;
          credentialCounter := 1;
          assert credsx[..number] == c;
        }
      }
      reply := if produced then Assertion(creds[0], if number > 1 then Some(number) else None) else Failed;
    }

    method CopyCredentials(creds: array<Candidate>)
      requires Valid() && creds.Length == MAX_LIST && creds != credsx
      modifies credsx
      ensures credsx[..] == creds[..]
    {
      for i := 0 to MAX_LIST
        invariant forall k :: 0 <= k < i ==> credsx[k] == creds[k]
      {
        credsx[i] := creds[i];
      }
    }

    /** cbor_get_next_assertion */
    method Next(produced: bool, now: Clock) returns (reply: Reply)
      requires Valid()
      modifies this
      ensures Valid() && (reply, Contents()) == NextStep(old(Contents()), produced, now)
    {
      if credentialCounter >= numberOfCredentialsx {
        reply := NotAllowed;
      } else if (timerx + 30000) % TWO_32 < now {
        reply := NotAllowed;
      } else if !produced {
        reply := Failed;
      } else {
        reply := Assertion(credsx[credentialCounter], None);
        timerx := now;
        credentialCounter := credentialCounter + 1;
      }
      if !reply.Assertion? || credentialCounter == numberOfCredentialsx {
        timerx, credentialCounter, numberOfCredentialsx := 0, 0, 0;
      }
    }
  }
}
