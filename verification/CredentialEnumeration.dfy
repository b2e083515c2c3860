/**
 * The enumerations of cbor_cred_mgmt.c: RPs (subcommands 0x02 and 0x03) and the credentials of one
 * RP (0x04 and 0x05), with their 8-bit counters, and the metadata command (0x01). A request arrives
 * parsed and authorised.
 */
module CredentialEnumeration {
  import opened Bytes
  import opened CredentialFiles

  /** The slots that p accepts, in order, among the first i. */
  function SlotsTo<T>(s: seq<Option<T>>, p: Option<T> -> bool, i: nat): (v: seq<nat>)
    requires i <= |s|
    ensures |v| <= i
    ensures forall k :: 0 <= k < |v| ==> v[k] < i && p(s[v[k]])
  {
    if i == 0 then [] else SlotsTo(s, p, i - 1) + if p(s[i - 1]) then [i - 1] else []
  }

  lemma {:induction false} SlotsPrefix<T>(s: seq<Option<T>>, p: Option<T> -> bool, i: nat, j: nat)
    requires i <= j <= |s|
    ensures SlotsTo(s, p, i) <= SlotsTo(s, p, j)
    decreases j
  {
    if i < j {
      SlotsPrefix(s, p, i, j - 1);
    }
  }

  /** Every accepted slot is listed exactly once, and the list is in slot order. */
  lemma {:induction false} SlotsExact<T>(s: seq<Option<T>>, p: Option<T> -> bool, i: nat)
    requires i <= |s|
    ensures forall j :: 0 <= j < i ==> (p(s[j]) <==> j in SlotsTo(s, p, i))
    ensures forall k, l :: 0 <= k < l < |SlotsTo(s, p, i)| ==> SlotsTo(s, p, i)[k] < SlotsTo(s, p, i)[l]
  {
    if i > 0 {
      SlotsExact(s, p, i - 1);
    }
  }

  /** An EF_RP file whose count byte is not zero. */
  function Visible(): Option<RpFile> -> bool
  {
    (f: Option<RpFile>) => f.Some? && f.value.count > 0
  }

  function OfRp(hash: Bytes): Option<CredFile> -> bool
  {
    (f: Option<CredFile>) => f.Some? && f.value.rpIdHash == hash
  }

  function RpList(fs: Files): (v: seq<nat>)
    ensures |v| <= SLOTS && forall k :: 0 <= k < |v| ==> v[k] < SLOTS && Visible()(fs.rps[v[k]])
  {
    SlotsTo(fs.rps, Visible(), SLOTS)
  }

  function CredList(fs: Files, hash: Bytes): (v: seq<nat>)
    ensures |v| <= SLOTS && forall k :: 0 <= k < |v| ==> v[k] < SLOTS && OfRp(hash)(fs.creds[v[k]])
  {
    SlotsTo(fs.creds, OfRp(hash), SLOTS)
  }

  // ---------------------------------------------------------------- one enumeration step

  datatype Reply = Found(slot: nat, total: Option<Byte>) | NoCredentials | NotAllowed

  /** rp_counter and rp_total, or cred_counter and cred_total */
  datatype Cursor = Cursor(counter: Byte, total: Byte)

  function LowByte(n: nat): (b: Byte)
  {
    n % 256
  }

  /** The place in the list that the counter stands for: the skip counter wraps like the counter. */
  function Place(counter: Byte): (k: nat)
  {
    if counter == 0 then 255 else counter - 1
  }

  /** One call over the list v. A credential that is not usable cannot be loaded, or its key cannot. */
  function Step(cur: Cursor, v: seq<nat>, usable: nat -> bool, begin: bool): (Reply, Cursor)
  {
    if !begin && cur.counter > cur.total then (NotAllowed, cur)
    else
      var start := if begin then Cursor(1, LowByte(|v|)) else cur;
      var k := Place(start.counter);
      if k >= |v| then (NoCredentials, start)
      else if !usable(v[k]) then (NotAllowed, start)
      else (Found(v[k], if begin then Some(start.total) else None), start.(counter := LowByte(start.counter + 1)))
  }

  /** The reply to call k of an enumeration, call 0 being the one that begins it, and the cursor after it. */
  function Call(cur: Cursor, v: seq<nat>, usable: nat -> bool, k: nat): (Reply, Cursor)
  {
    if k == 0 then Step(cur, v, usable, true) else Step(Call(cur, v, usable, k - 1).1, v, usable, false)
  }

  /**
   * The replies of an enumeration over at most 256 things. Up to 254 of them are delivered one by one
   * and then the answer is NotAllowed for ever; 255 are delivered too, but the counter has wrapped and
   * the answer stays NoCredentials; of 256 only the first is delivered, with an announced total of 0.
   * (That is the list's side; which list a credential call looks in is the subject of CredCalls.)
   */
  function Expected(v: seq<nat>, k: nat): (r: Reply)
  {
    if v == [] then (if k == 0 then NoCredentials else NotAllowed)
    else if k == 0 then Found(v[0], Some(LowByte(|v|)))
    else if k < |v| < 256 then Found(v[k], None)
    else if |v| == 255 then NoCredentials
    else NotAllowed
  }

  /** The cursor after call k. */
  function ExpectedCursor(v: seq<nat>, k: nat): (c: Cursor)
  {
    var n := |v|;
    var counter := if n == 0 then 1 else if n == 256 then 2 else if k < n then k + 2 else n + 1;
    Cursor(LowByte(counter), LowByte(n))
  }

  ghost predicate AllUsable(v: seq<nat>, usable: nat -> bool)
  {
    forall k :: 0 <= k < |v| ==> usable(v[k])
  }

  lemma LowByteIs(n: nat)
    requires n <= 256
    ensures LowByte(n) == if n == 256 then 0 else n
  {
  }

  /** Every call of an enumeration with nothing changed in between, whatever the cursor was before it. */
  lemma {:induction false} Enumeration(cur: Cursor, v: seq<nat>, usable: nat -> bool, k: nat)
    requires |v| <= 256 && AllUsable(v, usable)
    ensures Call(cur, v, usable, k) == (Expected(v, k), ExpectedCursor(v, k))
  {
    hide LowByte;
    LowByteIs(1);
    LowByteIs(2);
    LowByteIs(|v|);
    if k > 0 {
      Enumeration(cur, v, usable, k - 1);
      if 0 < |v| < 256 {
        if k < |v| {
          LowByteIs(k + 1);
          LowByteIs(LowByte(k + 1) + 1);
        }
        LowByteIs(|v| + 1);
      }
    }
  }

  /** The announced total is the number delivered exactly below 256, and the end is NotAllowed except at 255. */
  lemma EnumerationEnds(v: seq<nat>)
    requires 0 < |v| <= 256
    ensures Expected(v, 0).total == Some(|v|) <==> |v| < 256
    ensures (forall k: nat :: k > 0 ==> (Expected(v, k).Found? <==> k < |v|)) <==> |v| < 256
    ensures (forall k: nat :: k >= |v| ==> Expected(v, k) == NotAllowed) <==> |v| != 255
  {
    LowByteIs(|v|);
    var n: nat := |v|;
    assert Expected(v, n) == if n == 255 then NoCredentials else NotAllowed;
    assert !Expected(v, 1).Found? || |v| > 1;
    assert |v| == 256 ==> !Expected(v, 1).Found?;
  }

  // ---------------------------------------------------------------- the whole walk

  function Always(): nat -> bool
  {
    slot => true
  }

  /** The reply to call k of the RP enumeration. */
  function RpReply(cur: Cursor, fs: Files, k: nat): Reply
  {
    Call(cur, RpList(fs), Always(), k).0
  }

  /** The reply to call l of the credential enumeration under an RP id hash. */
  function CredReply(cur: Cursor, fs: Files, hash: Bytes, usable: nat -> bool, l: nat): Reply
  {
    Call(cur, CredList(fs, hash), usable, l).0
  }

  /** RP call k delivers an RP under which credential call l delivers the credential in slot i. */
  predicate Visit(cur: Cursor, fs: Files, usable: nat -> bool, k: nat, l: nat, i: nat)
  {
    match RpReply(cur, fs, k)
    case Found(r, _) =>
      && r < SLOTS && fs.rps[r].Some?
      && var reply := CredReply(cur, fs, fs.rps[r].value.rpIdHash, usable, l); reply.Found? && reply.slot == i
    case _ => false
  }

  /** Every stored credential can be loaded, and so can its key. */
  ghost predicate Loadable(fs: Files, usable: nat -> bool)
  {
    forall i :: 0 <= i < SLOTS && fs.creds[i].Some? ==> usable(i)
  }

  /** Neither number reaches 256: that of the RPs or that of the credentials of one RP. */
  ghost predicate Below256(fs: Files)
  {
    |RpList(fs)| < 256 && forall hash :: CountOf(fs.creds, hash) < 256
  }

  lemma {:induction false} CountAppend(creds: seq<Option<CredFile>>, f: Option<CredFile>, hash: Bytes)
    ensures CountOf(creds + [f], hash) == CountOf(creds, hash) + Carries(f, hash)
  {
    if creds == [] {
      assert creds + [f] == [f];
      assert [f][1..] == [];
    } else {
      assert (creds + [f])[1..] == creds[1..] + [f];
      CountAppend(creds[1..], f, hash);
    }
  }

  lemma {:induction false} ListLength(creds: seq<Option<CredFile>>, hash: Bytes, i: nat)
    requires i <= |creds|
    ensures |SlotsTo(creds, OfRp(hash), i)| == CountOf(creds[..i], hash)
  {
    if i > 0 {
      ListLength(creds, hash, i - 1);
      CountAppend(creds[..i - 1], creds[i - 1], hash);
      assert creds[..i] == creds[..i - 1] + [creds[i - 1]];
    }
  }

  lemma CredListLength(fs: Files, hash: Bytes)
    ensures |CredList(fs, hash)| == CountOf(fs.creds, hash)
  {
    ListLength(fs.creds, hash, SLOTS);
    assert fs.creds[..SLOTS] == fs.creds;
  }

  /** An RP is visible exactly when it has fewer than 256 credentials. */
  lemma VisibleBelow256(fs: Files, r: nat)
    requires Consistent(fs) && r < SLOTS && fs.rps[r].Some?
    ensures r in RpList(fs) <==> CountOf(fs.creds, fs.rps[r].value.rpIdHash) < 256
  {
    hide CountOf;
    SlotsExact(fs.rps, Visible(), SLOTS);
    assert CountsRight(fs, r);
  }

  /** The walk reaches every stored credential. */
  lemma WalkReaches(cur: Cursor, fs: Files, usable: nat -> bool, i: nat) returns (k: nat, l: nat)
    requires Consistent(fs) && Loadable(fs, usable) && Below256(fs)
    requires i < SLOTS && fs.creds[i].Some?
    ensures Visit(cur, fs, usable, k, l, i)
  {
    hide CountOf, SlotsTo, Call;
    var h := fs.creds[i].value.rpIdHash;
    assert Carries(fs.creds[i], h) == 1;
    CountPositive(fs.creds, h);
    assert HasRp(fs.rps, h);
    var r :| 0 <= r < SLOTS && CarriesHash(h)(fs.rps[r]);
    VisibleBelow256(fs, r);
    k :| 0 <= k < |RpList(fs)| && RpList(fs)[k] == r;
    Enumeration(cur, RpList(fs), Always(), k);
    SlotsExact(fs.creds, OfRp(h), SLOTS);
    assert OfRp(h)(fs.creds[i]);
    l :| 0 <= l < |CredList(fs, h)| && CredList(fs, h)[l] == i;
    CredListLength(fs, h);
    Enumeration(cur, CredList(fs, h), usable, l);
  }

  /** The walk delivers no credential twice. */
  lemma WalkOnce(cur: Cursor, fs: Files, usable: nat -> bool, k: nat, l: nat, k': nat, l': nat, i: nat)
    requires Consistent(fs) && Loadable(fs, usable)
    requires Visit(cur, fs, usable, k, l, i) && Visit(cur, fs, usable, k', l', i)
    ensures k == k' && l == l'
  {
    hide CountOf, SlotsTo, Call;
    var v := RpList(fs);
    Enumeration(cur, v, Always(), k);
    Enumeration(cur, v, Always(), k');
    var r, r' := RpReply(cur, fs, k).slot, RpReply(cur, fs, k').slot;
    var h, h' := fs.rps[r].value.rpIdHash, fs.rps[r'].value.rpIdHash;
    Enumeration(cur, CredList(fs, h), usable, l);
    Enumeration(cur, CredList(fs, h'), usable, l');
    SlotsExact(fs.creds, OfRp(h), SLOTS);
    assert h == fs.creds[i].value.rpIdHash == h';
    assert HashesDistinct(fs.rps);
    SlotsExact(fs.rps, Visible(), SLOTS);
  }

  /** The walk visits every stored credential. */
  ghost predicate VisitsAll(cur: Cursor, fs: Files, usable: nat -> bool)
  {
    forall i :: 0 <= i < SLOTS && fs.creds[i].Some? ==> exists k, l :: Visit(cur, fs, usable, k, l, i)
  }

  /** Where 256 matters: the walk is complete exactly when neither number reaches it. */
  lemma WalkComplete(cur: Cursor, fs: Files, usable: nat -> bool)
    requires Consistent(fs) && Loadable(fs, usable)
    ensures VisitsAll(cur, fs, usable) <==> Below256(fs)
  {
    hide CountOf, SlotsTo, Call, Consistent, Loadable, Visit;
    if Below256(fs) {
      forall i | 0 <= i < SLOTS && fs.creds[i].Some?
        ensures exists k, l :: Visit(cur, fs, usable, k, l, i)
      {
        var k, l := WalkReaches(cur, fs, usable, i);
      }
    } else {
      var i, h := Unreached(cur, fs);
      if k, l :| Visit(cur, fs, usable, k, l, i) {
        VisitFindsRp(cur, fs, usable, k, l, i);
      }
    }
  }

  /** A visit of a credential needs an RP call that delivers its RP. */
  lemma VisitFindsRp(cur: Cursor, fs: Files, usable: nat -> bool, k: nat, l: nat, i: nat)
    requires Loadable(fs, usable) && i < SLOTS && fs.creds[i].Some? && Visit(cur, fs, usable, k, l, i)
    ensures FindsRp(Expected(RpList(fs), k), fs, fs.creds[i].value.rpIdHash)
  {
    hide CountOf, SlotsTo, Call;
    Enumeration(cur, RpList(fs), Always(), k);
    var h := fs.rps[RpReply(cur, fs, k).slot].value.rpIdHash;
    Enumeration(cur, CredList(fs, h), usable, l);
  }

  predicate FindsRp(reply: Reply, fs: Files, hash: Bytes)
  {
    reply.Found? && reply.slot < SLOTS && CarriesHash(hash)(fs.rps[reply.slot])
  }

  /** When one of the numbers is 256 there is a credential whose RP no call delivers. */
  lemma Unreached(cur: Cursor, fs: Files) returns (i: nat, hash: Bytes)
    requires Consistent(fs) && !Below256(fs)
    ensures i < SLOTS && fs.creds[i].Some? && fs.creds[i].value.rpIdHash == hash
    ensures forall k :: !FindsRp(Expected(RpList(fs), k), fs, hash)
  {
    hide CountOf, SlotsTo;
    var v := RpList(fs);
    if |v| == 256 {
      hash := fs.rps[v[1]].value.rpIdHash;
      SlotsExact(fs.rps, Visible(), SLOTS);
      assert v[0] < v[1];
      assert CountsRight(fs, v[1]);
    } else {
      hash :| CountOf(fs.creds, hash) == 256;
      forall k | FindsRp(Expected(v, k), fs, hash)
        ensures false
      {
        VisibleBelow256(fs, Expected(v, k).slot);
      }
    }
    CountPositive(fs.creds, hash);
    i :| 0 <= i < SLOTS && Carries(fs.creds[i], hash) == 1;
  }

  /** With at most 255 stored credentials neither number reaches 256. */
  lemma At255(fs: Files)
    requires Consistent(fs) && Used(fs.creds) <= 255
    ensures Below256(fs)
  {
    hide Used, CountOf, SlotsTo;
    forall hash
      ensures CountOf(fs.creds, hash) <= Used(fs.creds)
    {
      CountAtMostUsed(fs.creds, hash);
    }
    if |RpList(fs)| == 256 {
      FullList(fs.rps, Visible(), SLOTS);
      assert forall i :: 0 <= i < SLOTS ==> Visible()(fs.rps[i]);
      AllUsed(fs.rps);
      forall i | 0 <= i < SLOTS && fs.rps[i].Some?
        ensures fs.rps[i].value.rpIdHash in HashesOf(fs.creds)
      {
        assert CountsRight(fs, i);
        CountPositive(fs.creds, fs.rps[i].value.rpIdHash);
      }
      DistinctNeedRoom(fs.rps, HashesOf(fs.creds));
    }
  }

  lemma {:induction false} CountAtMostUsed(creds: seq<Option<CredFile>>, hash: Bytes)
    ensures CountOf(creds, hash) <= Used(creds)
  {
    if creds != [] {
      CountAtMostUsed(creds[1..], hash);
    }
  }

  /** A list as long as the slots lists all of them. */
  lemma {:induction false} FullList<T>(s: seq<Option<T>>, p: Option<T> -> bool, i: nat)
    requires i <= |s| && |SlotsTo(s, p, i)| == i
    ensures forall j :: 0 <= j < i ==> p(s[j])
  {
    if i > 0 {
      FullList(s, p, i - 1);
    }
  }

  // ---------------------------------------------------------------- the session

  /** The first place of the list whose credential is not usable, or the end of the list. */
  function FirstUnusable(v: seq<nat>, usable: nat -> bool): (p: nat)
    ensures p <= |v| && (p < |v| ==> !usable(v[p]))
    ensures forall j :: 0 <= j < p ==> usable(v[j])
  {
    if v == [] || !usable(v[0]) then 0 else 1 + FirstUnusable(v[1..], usable)
  }

  /** Up to the first failure the calls are those of an enumeration without one; the failing call leaves the cursor. */
  lemma {:induction false} EnumerationToFailure(cur: Cursor, v: seq<nat>, usable: nat -> bool, k: nat)
    requires |v| <= 256
    ensures var p := FirstUnusable(v, usable);
            && (k < p || p == |v| ==> Call(cur, v, usable, k) == (Expected(v, k), ExpectedCursor(v, k)))
            && (k == p < |v| < 256 ==> Call(cur, v, usable, k) == (NotAllowed, Cursor(p + 1, |v|)))
            && (|v| == 256 ==> Call(cur, v, usable, k).1.total == 0 < Call(cur, v, usable, k).1.counter)
  {
    hide LowByte;
    LowByteIs(1);
    LowByteIs(2);
    LowByteIs(|v|);
    if k > 0 {
      EnumerationToFailure(cur, v, usable, k - 1);
      if 0 < |v| < 256 {
        if k < |v| {
          LowByteIs(k + 1);
          LowByteIs(LowByte(k + 1) + 1);
        }
        LowByteIs(|v| + 1);
      }
    }
  }

  /**
   * The cursor of the credential enumeration and the RP id hash kept for its next call (rpIdHashx): None
   * when there is none, or when the memory it points to has been given back.
   */
  datatype CredSession = CredSession(cur: Cursor, kept: Option<Bytes>)

  /** The hash a call looks for; `memory` is what is found where no hash is kept. */
  function Wanted(c: CredSession, request: Bytes, begin: bool, memory: Bytes): Bytes
  {
    if begin then request else if c.kept.Some? then c.kept.value else memory
  }

  /** One call of subcommand 0x04 or 0x05: the hash is kept if a further call is expected, else it is given back. */
  function CredStep(c: CredSession, fs: Files, request: Bytes, usable: nat -> bool, begin: bool, memory: Bytes)
    : (Reply, CredSession)
  {
    if !begin && c.cur.counter > c.cur.total then (NotAllowed, c)
    else
      var (reply, next) := Step(c.cur, CredList(fs, Wanted(c, request, begin, memory)), usable, begin);
      (reply, CredSession(next, KeptAfter(c.kept, request, begin, reply.Found? && next.counter <= next.total)))
  }

  function KeptAfter(kept: Option<Bytes>, request: Bytes, begin: bool, asserted: bool): Option<Bytes>
  {
    if begin then (if asserted then Some(request) else kept) else if asserted then kept else None
  }

  /** Call k of subcommand 0x04 for an RP id hash followed by subcommands 0x05. */
  function CredCall(c: CredSession, fs: Files, request: Bytes, usable: nat -> bool, memory: nat -> Bytes, k: nat)
    : (Reply, CredSession)
  {
    if k == 0 then CredStep(c, fs, request, usable, true, memory(0))
    else CredStep(CredCall(c, fs, request, usable, memory, k - 1).1, fs, [], usable, false, memory(k))
  }

  /** Calls up to k come before the one after the first failure, where a list of 255 fails at its end. */
  predicate Follows(v: seq<nat>, usable: nat -> bool, k: nat)
  {
    var p := FirstUnusable(v, usable);
    |v| == 0 || |v| == 256 || k <= p || p == |v| < 255
  }

  /** While the counters let a next call through, the hash is kept exactly if that call follows. */
  lemma KeptWhileFollowing(cur: Cursor, v: seq<nat>, usable: nat -> bool, k: nat)
    requires |v| <= 256 && Follows(v, usable, k)
    ensures var (reply, next) := Call(cur, v, usable, k);
            next.counter <= next.total ==> (reply.Found? <==> Follows(v, usable, k + 1))
    ensures k > 0 ==> Follows(v, usable, k - 1)
  {
    hide Call, LowByte;
    EnumerationToFailure(cur, v, usable, k);
    LowByteIs(|v|);
    LowByteIs(1);
    LowByteIs(2);
    if k < |v| < 256 {
      LowByteIs(k + 2);
    }
    if |v| < 256 {
      LowByteIs(|v| + 1);
    }
  }

  /** The kept hash makes the calls an enumeration of the requested RP, whatever the memory holds. */
  lemma {:induction false} CredCalls(c: CredSession, fs: Files, request: Bytes, usable: nat -> bool,
                                     memory: nat -> Bytes, k: nat)
    requires Follows(CredList(fs, request), usable, k)
    ensures CredCall(c, fs, request, usable, memory, k).0 == CredReply(c.cur, fs, request, usable, k)
    ensures CredCall(c, fs, request, usable, memory, k).1.cur == Call(c.cur, CredList(fs, request), usable, k).1
    ensures var after := CredCall(c, fs, request, usable, memory, k).1;
            after.cur.counter <= after.cur.total ==>
              after.kept == if Follows(CredList(fs, request), usable, k + 1) then Some(request)
                            else if k == 0 then c.kept else None
  {
    hide CredList, Call, LowByte, Follows, Step;
    var v := CredList(fs, request);
    CallUnfold(c.cur, v, usable, k);
    KeptWhileFollowing(c.cur, v, usable, k);
    if k > 0 {
      CredCalls(c, fs, request, usable, memory, k - 1);
      Refused(Call(c.cur, v, usable, k - 1).1, v, usable);
    }
  }

  lemma Refused(cur: Cursor, v: seq<nat>, usable: nat -> bool)
    ensures cur.counter > cur.total ==> Step(cur, v, usable, false) == (NotAllowed, cur)
  {
  }

  /**
   * The first call that does not follow is let through by the counters, and looks for another hash: the
   * one kept before the enumeration when its first credential failed, and otherwise memory given back.
   */
  lemma CallAstray(c: CredSession, fs: Files, request: Bytes, usable: nat -> bool, memory: nat -> Bytes, k: nat)
    requires k > 0 && Follows(CredList(fs, request), usable, k - 1) && !Follows(CredList(fs, request), usable, k)
    ensures var before := CredCall(c, fs, request, usable, memory, k - 1).1;
            && before.cur.counter <= before.cur.total
            && var hash := if k == 1 && c.kept.Some? then c.kept.value else memory(k);
               CredCall(c, fs, request, usable, memory, k).0 == Step(before.cur, CredList(fs, hash), usable, false).0
  {
    hide SlotsTo, Call, LowByte, Step;
    var v := CredList(fs, request);
    CredCalls(c, fs, request, usable, memory, k - 1);
    EnumerationToFailure(c.cur, v, usable, k - 1);
    LowByteIs(|v|);
    LowByteIs(|v| + 1);
  }

  /**
   * Such a case: the first credential of the requested RP cannot be loaded while the hash of another RP
   * is kept. The next call then delivers the first credential of the other RP.
   */
  lemma OtherRpDelivered(c: CredSession, fs: Files, request: Bytes, other: Bytes, usable: nat -> bool, memory: nat -> Bytes)
    requires c.kept == Some(other) && other != request
    requires 0 < |CredList(fs, request)| < 256 && !usable(CredList(fs, request)[0])
    requires CredList(fs, other) != [] && usable(CredList(fs, other)[0])
    ensures var reply := CredCall(c, fs, request, usable, memory, 1).0;
            reply.Found? && reply.slot < SLOTS && OfRp(other)(fs.creds[reply.slot])
  {
    hide SlotsTo, Call, LowByte;
    var v := CredList(fs, request);
    EnumerationToFailure(c.cur, v, usable, 0);
    CredCalls(c, fs, request, usable, memory, 0);
    CallAstray(c, fs, request, usable, memory, 1);
  }

  lemma CallUnfold(cur: Cursor, v: seq<nat>, usable: nat -> bool, k: nat)
    ensures Call(cur, v, usable, k)
         == if k == 0 then Step(cur, v, usable, true) else Step(Call(cur, v, usable, k - 1).1, v, usable, false)
  {
  }

  /** The slot at place k of the list; -1 stands for a file pointer that is still NULL. */
  function Chosen(v: seq<nat>, k: nat): (slot: int)
    ensures slot == if k < |v| then v[k] else -1
  {
    if k < |v| then v[k] else -1
  }

  /** One turn of the loop: the skip counter meets the 8-bit counter exactly at the chosen slot. */
  lemma NextSlot<T>(s: seq<Option<T>>, p: Option<T> -> bool, i: nat, counter: Byte)
    requires i < |s| <= 256
    ensures var v, w, k := SlotsTo(s, p, i), SlotsTo(s, p, i + 1), Place(counter);
            if !p(s[i]) then w == v
            else
              && LowByte(|w|) == LowByte(LowByte(|v|) + 1)
              && (if LowByte(|w|) == counter
                  then Chosen(v, k) == -1 && Chosen(w, k) == i && Chosen(SlotsTo(s, p, |s|), k) == i
                  else Chosen(w, k) == Chosen(v, k))
  {
    hide LowByte, Place;
    SlotsPrefix(s, p, i + 1, |s|);
    PlaceOfCount(|SlotsTo(s, p, i)|, counter);
  }

  lemma PlaceOfCount(n: nat, counter: Byte)
    requires n < 256
    ensures LowByte(n + 1) == LowByte(LowByte(n) + 1)
    ensures LowByte(n + 1) == counter <==> Place(counter) == n
  {
    LowByteIs(n);
    LowByteIs(n + 1);
  }

  lemma NoSlotYet<T>(s: seq<Option<T>>, p: Option<T> -> bool, k: nat)
    ensures LowByte(|SlotsTo(s, p, 0)|) == 0 && Chosen(SlotsTo(s, p, 0), k) == -1
  {
  }

  class Session {
    var rpCounter: Byte
    var rpTotal: Byte
    var credCounter: Byte
    var credTotal: Byte
    var rpIdHashx: Option<Bytes>

    function Rps(): Cursor
      reads this
    {
      Cursor(rpCounter, rpTotal)
    }

    function Creds(): CredSession
      reads this
    {
      CredSession(Cursor(credCounter, credTotal), rpIdHashx)
    }

    constructor ()
      ensures Rps() == Cursor(1, 0) && Creds() == CredSession(Cursor(1, 0), None)
    {
      rpCounter, rpTotal, credCounter, credTotal, rpIdHashx := 1, 0, 1, 0, None;
    }

    /** Subcommand 0x01: the number of stored credentials in one byte, and what is left of 256. */
    method Metadata(fs: Files) returns (existing: Byte, remaining: nat)
      ensures existing == LowByte(Used(fs.creds)) && existing + remaining == 256
    {
      hide LowByte, Used;
      existing := 0;
      LowByteIs(0);
      NoneUsed(fs.creds[..0]);
      for i := 0 to SLOTS
        invariant existing == LowByte(Used(fs.creds[..i]))
      {
        UsedAppend(fs.creds[..i], fs.creds[i]);
        assert fs.creds[..i + 1] == fs.creds[..i] + [fs.creds[i]];
        if fs.creds[i].Some? {
          PlaceOfCount(Used(fs.creds[..i]), 0);
          existing := LowByte(existing + 1);
        }
      }
      assert fs.creds[..SLOTS] == fs.creds;
      remaining := SLOTS - existing;
    }

    /** Subcommands 0x02 (begin) and 0x03 */
    method EnumerateRps(fs: Files, begin: bool) returns (reply: Reply)
      modifies this`rpCounter, this`rpTotal
      ensures (reply, Rps()) == Step(old(Rps()), RpList(fs), Always(), begin)
    {
      hide LowByte, SlotsTo, Place, Chosen;
      if begin {
        rpCounter, rpTotal := 1, 0;
      } else if rpCounter > rpTotal {
        return NotAllowed;
      }
      var rpEf, total := FindSlot(fs.rps, Visible(), rpCounter, rpTotal, begin);
      rpTotal := total;
      ChosenIs(RpList(fs), Place(rpCounter));
      if rpEf == -1 {
        return NoCredentials;
      }
      rpCounter := LowByte(rpCounter + 1);
      reply := Found(rpEf, if begin then Some(rpTotal) else None);
    }

    /** Subcommands 0x04 (begin, for the requested RP id hash) and 0x05 */
    method EnumerateCreds(fs: Files, request: Bytes, usable: nat -> bool, begin: bool, memory: Bytes) returns (reply: Reply)
      modifies this`credCounter, this`credTotal, this`rpIdHashx
      ensures (reply, Creds()) == CredStep(old(Creds()), fs, request, usable, begin, memory)
    {
      hide LowByte, SlotsTo, Place, Chosen;
      var rpIdHash := request;
      if begin {
        credCounter, credTotal := 1, 0;
      } else {
        if credCounter > credTotal {
          return NotAllowed;
        }
        rpIdHash := if rpIdHashx.Some? then rpIdHashx.value else memory;
      }
      var credEf, total := FindSlot(fs.creds, OfRp(rpIdHash), credCounter, credTotal, begin);
      credTotal := total;
      ChosenIs(CredList(fs, rpIdHash), Place(credCounter));
      var asserted := false;
      if credEf == -1 {
        reply := NoCredentials;
      } else if !usable(credEf) {
        reply := NotAllowed;
      } else {
        credCounter := LowByte(credCounter + 1);
        if credCounter <= credTotal {
          asserted := true;
          if begin {
            rpIdHashx := Some(rpIdHash);
          }
        }
        reply := Found(credEf, if begin then Some(credTotal) else None);
      }
      if !asserted && !begin {
        rpIdHashx := None;
      }
    }
  }

  lemma ChosenIs(v: seq<nat>, k: nat)
    ensures Chosen(v, k) == if k < |v| then v[k] else -1
  {
  }

  /**
   * The slot loop of both enumerations: the slot at which the skip counter meets the enumeration's, and
   * the total, which only the beginning call counts. A call that does not begin stops there.
   */
  method FindSlot<T>(files: seq<Option<T>>, p: Option<T> -> bool, counter: Byte, total: Byte, begin: bool)
    returns (ef: int, newTotal: Byte)
    requires |files| == SLOTS && (begin ==> total == 0)
    ensures ef == Chosen(SlotsTo(files, p, SLOTS), Place(counter))
    ensures newTotal == if begin then LowByte(|SlotsTo(files, p, SLOTS)|) else total
  {
    hide LowByte, SlotsTo, Place, Chosen;
    NoSlotYet(files, p, Place(counter));
    var skip: Byte := 0;
    ef, newTotal := -1, total;
    var i := 0;
    while i < SLOTS
      invariant i <= SLOTS && skip == LowByte(|SlotsTo(files, p, i)|)
      invariant newTotal == if begin then skip else total
      invariant ef == Chosen(SlotsTo(files, p, i), Place(counter))
    {
      NextSlot(files, p, i, counter);
      if p(files[i]) {
        skip := LowByte(skip + 1);
        if skip == counter {
          if ef == -1 {
            ef := i;
          }
          if !begin {
            break;
          }
        }
        if begin {
          newTotal := LowByte(newTotal + 1);
        }
      }
      i := i + 1;
    }
  }

  lemma NoneUsed<T>(s: seq<Option<T>>)
    ensures s == [] ==> Used(s) == 0
  {
  }

  lemma {:induction false} UsedAppend<T>(s: seq<Option<T>>, f: Option<T>)
    ensures Used(s + [f]) == Used(s) + if f.Some? then 1 else 0
  {
    if s == [] {
      assert s + [f] == [f];
      assert [f][1..] == [];
    } else {
      assert (s + [f])[1..] == s[1..] + [f];
      UsedAppend(s[1..], f);
    }
  }
}
