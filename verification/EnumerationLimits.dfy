/**
 * Storage that reaches the limits of the 8-bit counters: runs of stores from empty storage that leave
 * 255 or 256 credentials of one RP, or 255 or 256 RPs, and what the enumerations answer there.
 */
module EnumerationLimits {
  import opened Bytes
  import opened CredentialFiles
  import opened CredentialStore
  import opened CredentialEnumeration

  lemma {:induction false} RunSnoc(load: Loader, fs: Files, commands: seq<Command>, c: Command)
    ensures Run(load, fs, commands + [c]) == Result(load, Run(load, fs, commands), c).1
    decreases |commands|
  {
    if commands == [] {
      assert [] + [c] == [c];
      assert Run(load, Result(load, fs, c).1, []) == Result(load, fs, c).1;
      assert [c][1..] == [];
    } else {
      assert (commands + [c])[0] == commands[0] && (commands + [c])[1..] == commands[1..] + [c];
      RunSnoc(load, Result(load, fs, commands[0]).1, commands[1..], c);
    }
  }

  /** Storing ids one after the other, each under its RP id hash. */
  function Stores(ids: seq<Bytes>, hashes: seq<Bytes>): (c: seq<Command>)
    requires |ids| == |hashes|
  {
    if ids == [] then []
    else
      var n := |ids| - 1;
      Stores(ids[..n], hashes[..n]) + [Store(ids[n], hashes[n])]
  }

  /** Every id loads under its hash, and under one hash no two handles agree over the shorter length. */
  ghost predicate Separate(load: Loader, ids: seq<Bytes>, hashes: seq<Bytes>)
  {
    && |ids| == |hashes| <= SLOTS
    && (forall i :: 0 <= i < |ids| ==> load(ids[i], hashes[i]).Some?)
    && forall i, j :: 0 <= i < j < |ids| && hashes[i] == hashes[j] ==> Differ(load, ids[i], ids[j], hashes[i])
  }

  predicate Differ(load: Loader, a: Bytes, b: Bytes, hash: Bytes)
  {
    load(a, hash).Some? && load(b, hash).Some? ==>
      !SamePrefix(load(a, hash).value.userId, load(b, hash).value.userId)
  }

  /** The credentials fill the slots from the first on. */
  ghost predicate Filled(fs: Files, ids: seq<Bytes>, hashes: seq<Bytes>)
  {
    && |ids| == |hashes| <= SLOTS && Consistent(fs)
    && (forall i :: 0 <= i < |ids| ==> fs.creds[i] == Some(CredFile(hashes[i], ids[i])))
    && forall i :: |ids| <= i < SLOTS ==> fs.creds[i] == None
  }

  lemma FillNext(load: Loader, fs: Files, ids: seq<Bytes>, hashes: seq<Bytes>, id: Bytes, hash: Bytes)
    requires Filled(fs, ids, hashes) && |ids| < SLOTS && load(id, hash).Some?
    requires forall i :: 0 <= i < |ids| && hashes[i] == hash ==> Differ(load, ids[i], id, hash)
    ensures Filled(StoreResult(load, fs, id, hash).1, ids + [id], hashes + [hash])
    ensures FirstWhere(fs.creds, OfUser(load, hash, load(id, hash).value.userId), 0) == SLOTS
  {
    hide Consistent, AddReference, SamePrefix;
    StoreKeeps(load, fs, id, hash);
    var user := load(id, hash).value.userId;
    forall i | 0 <= i < SLOTS
      ensures !OfUser(load, hash, user)(fs.creds[i])
    {
      if i < |ids| && hashes[i] == hash {
        assert Differ(load, ids[i], id, hash);
      }
    }
    FirstWhereUnique(fs.creds, OfUser(load, hash, user), 0, SLOTS);
    FirstWhereUnique(fs.creds, IsFree(), 0, |ids|);
  }

  /** Separate credentials all find a slot of their own. */
  lemma {:induction false} StoresFill(load: Loader, ids: seq<Bytes>, hashes: seq<Bytes>)
    requires Separate(load, ids, hashes)
    ensures Filled(Run(load, Empty, Stores(ids, hashes)), ids, hashes)
  {
    hide StoreResult;
    if ids == [] {
      EmptyIsConsistent();
    } else {
      var n := |ids| - 1;
      StoresFill(load, ids[..n], hashes[..n]);
      RunSnoc(load, Empty, Stores(ids[..n], hashes[..n]), Store(ids[n], hashes[n]));
      FillNext(load, Run(load, Empty, Stores(ids[..n], hashes[..n])), ids[..n], hashes[..n], ids[n], hashes[n]);
      assert ids[..n] + [ids[n]] == ids && hashes[..n] + [hashes[n]] == hashes;
    }
  }

  // ---------------------------------------------------------------- one RP

  /** All credentials are of one RP. */
  ghost predicate OneRp(hashes: seq<Bytes>, hash: Bytes)
  {
    forall i :: 0 <= i < |hashes| ==> hashes[i] == hash
  }

  lemma CountOfFilled(fs: Files, ids: seq<Bytes>, hashes: seq<Bytes>, hash: Bytes)
    requires Filled(fs, ids, hashes) && OneRp(hashes, hash)
    ensures CountOf(fs.creds, hash) == |ids|
  {
    hide Consistent;
    CountPrefix(fs.creds, |ids|, hash);
  }

  lemma {:induction false} CountPrefix(creds: seq<Option<CredFile>>, n: nat, hash: Bytes)
    requires n <= |creds|
    requires forall i :: 0 <= i < n ==> Carries(creds[i], hash) == 1
    requires forall i :: n <= i < |creds| ==> Carries(creds[i], hash) == 0
    ensures CountOf(creds, hash) == n
  {
    if creds != [] {
      assert forall i :: 0 <= i < |creds| - 1 ==> creds[1..][i] == creds[i + 1];
      CountPrefix(creds[1..], if n > 0 then n - 1 else 0, hash);
    }
  }

  /**
   * 256 stores for one RP: the count byte is 0, the RP enumeration finds nothing, and the walk misses
   * credentials although all can be loaded.
   */
  lemma FullRp(load: Loader, ids: seq<Bytes>, hashes: seq<Bytes>, hash: Bytes, cur: Cursor, usable: nat -> bool)
    requires |ids| == 256 && Separate(load, ids, hashes) && OneRp(hashes, hash)
    requires forall i :: 0 <= i < SLOTS ==> usable(i)
    ensures var fs := Run(load, Empty, Stores(ids, hashes));
            && Consistent(fs)
            && (exists r :: 0 <= r < SLOTS && CarriesHash(hash)(fs.rps[r]) && fs.rps[r].value.count == 0)
            && RpReply(cur, fs, 0) == Reply.NoCredentials
            && !VisitsAll(cur, fs, usable)
  {
    hide Run, Call, SlotsTo, CountOf;
    StoresFill(load, ids, hashes);
    var fs := Run(load, Empty, Stores(ids, hashes));
    CountOfFilled(fs, ids, hashes, hash);
    assert HasRp(fs.rps, hash);
    var r :| 0 <= r < SLOTS && CarriesHash(hash)(fs.rps[r]);
    assert CountsRight(fs, r);
    OnlyRp(fs, ids, hashes, hash);
    Enumeration(cur, RpList(fs), Always(), 0);
    assert !Below256(fs);
    WalkComplete(cur, fs, usable);
  }

  /** No RP is visible. */
  lemma OnlyRp(fs: Files, ids: seq<Bytes>, hashes: seq<Bytes>, hash: Bytes)
    requires Filled(fs, ids, hashes) && OneRp(hashes, hash) && |ids| == 256
    ensures RpList(fs) == []
  {
    hide SlotsTo, CountOf;
    SlotsExact(fs.rps, Visible(), SLOTS);
    if RpList(fs) != [] {
      var r := RpList(fs)[0];
      assert CountsRight(fs, r);
      CountPositive(fs.creds, fs.rps[r].value.rpIdHash);
      CountOfFilled(fs, ids, hashes, hash);
    }
  }

  /**
   * 255 stores for one RP: calls 0 to 254 of the credential enumeration deliver them, and call 255
   * answers NO_CREDENTIALS, where fewer would have ended with NOT_ALLOWED.
   */
  lemma RpOf255(load: Loader, ids: seq<Bytes>, hashes: seq<Bytes>, hash: Bytes, cur: Cursor, usable: nat -> bool, k: nat)
    requires |ids| == 255 && Separate(load, ids, hashes) && OneRp(hashes, hash)
    requires forall i :: 0 <= i < SLOTS ==> usable(i)
    ensures var fs := Run(load, Empty, Stores(ids, hashes));
            if k < 255 then CredReply(cur, fs, hash, usable, k).Found?
            else k == 255 ==> CredReply(cur, fs, hash, usable, k) == Reply.NoCredentials
  {
    hide Run, Call, SlotsTo, CountOf, Consistent;
    StoresFill(load, ids, hashes);
    var fs := Run(load, Empty, Stores(ids, hashes));
    CountOfFilled(fs, ids, hashes, hash);
    CredListLength(fs, hash);
    Enumeration(cur, CredList(fs, hash), usable, k);
  }

  // ---------------------------------------------------------------- many RPs

  /** Every credential has an RP of its own. */
  ghost predicate OwnRps(hashes: seq<Bytes>)
  {
    forall i, j :: 0 <= i < j < |hashes| ==> hashes[i] != hashes[j]
  }

  /** The EF_RP files fill the slots from the first on, each counting one credential. */
  ghost predicate RpsFilled(rps: RpSlots, hashes: seq<Bytes>)
  {
    && |hashes| <= SLOTS
    && (forall i :: 0 <= i < |hashes| ==> CarriesHash(hashes[i])(rps[i]) && rps[i].value.count == 1)
    && forall i :: |hashes| <= i < SLOTS ==> rps[i] == None
  }

  lemma NextOwnRp(rps: RpSlots, hashes: seq<Bytes>, hash: Bytes, rpId: Bytes)
    requires RpsFilled(rps, hashes) && hash !in hashes && |hashes| < SLOTS
    ensures AddReference(rps, hash, rpId).Some? && RpsFilled(AddReference(rps, hash, rpId).value, hashes + [hash])
  {
    FirstWhereUnique(rps, CarriesHash(hash), 0, SLOTS);
    FirstWhereUnique(rps, IsFree(), 0, |hashes|);
  }

  lemma {:induction false} OwnRpsFill(load: Loader, ids: seq<Bytes>, hashes: seq<Bytes>)
    requires Separate(load, ids, hashes) && OwnRps(hashes)
    ensures RpsFilled(Run(load, Empty, Stores(ids, hashes)).rps, hashes)
  {
    hide AddReference;
    if ids != [] {
      var n := |ids| - 1;
      var fs := Run(load, Empty, Stores(ids[..n], hashes[..n]));
      StoresFill(load, ids[..n], hashes[..n]);
      OwnRpsFill(load, ids[..n], hashes[..n]);
      RunSnoc(load, Empty, Stores(ids[..n], hashes[..n]), Store(ids[n], hashes[n]));
      FillNext(load, fs, ids[..n], hashes[..n], ids[n], hashes[n]);
      NextOwnRp(fs.rps, hashes[..n], hashes[n], load(ids[n], hashes[n]).value.rpId);
      FirstWhereUnique(fs.creds, IsFree(), 0, n);
      assert hashes[..n] + [hashes[n]] == hashes;
    }
  }

  lemma {:induction false} VisibleNumber(rps: RpSlots, hashes: seq<Bytes>, i: nat)
    requires RpsFilled(rps, hashes) && i <= SLOTS
    ensures |SlotsTo(rps, Visible(), i)| == if i < |hashes| then i else |hashes|
  {
    if i > 0 {
      VisibleNumber(rps, hashes, i - 1);
      assert i <= |hashes| ==> CarriesHash(hashes[i - 1])(rps[i - 1]);
    }
  }

  /**
   * 256 stores for 256 RPs: the RP enumeration delivers one, announces 0 and ends, and the walk misses
   * credentials although all can be loaded.
   */
  lemma FullRps(load: Loader, ids: seq<Bytes>, hashes: seq<Bytes>, cur: Cursor, usable: nat -> bool)
    requires |ids| == 256 && Separate(load, ids, hashes) && OwnRps(hashes)
    requires forall i :: 0 <= i < SLOTS ==> usable(i)
    ensures var fs := Run(load, Empty, Stores(ids, hashes));
            && Consistent(fs)
            && RpReply(cur, fs, 0).Found? && RpReply(cur, fs, 0).total == Some(0)
            && RpReply(cur, fs, 1) == Reply.NotAllowed
            && !VisitsAll(cur, fs, usable)
  {
    hide Run, Call, SlotsTo, CountOf, Consistent;
    StoresFill(load, ids, hashes);
    OwnRpsFill(load, ids, hashes);
    var fs := Run(load, Empty, Stores(ids, hashes));
    VisibleNumber(fs.rps, hashes, SLOTS);
    LowByteIs(256);
    Enumeration(cur, RpList(fs), Always(), 0);
    Enumeration(cur, RpList(fs), Always(), 1);
    assert !Below256(fs);
    WalkComplete(cur, fs, usable);
  }

  /** 255 stores for 255 RPs: all are delivered, and call 255 answers NO_CREDENTIALS. */
  lemma RpsTo255(load: Loader, ids: seq<Bytes>, hashes: seq<Bytes>, cur: Cursor, k: nat)
    requires |ids| == 255 && Separate(load, ids, hashes) && OwnRps(hashes)
    ensures var fs := Run(load, Empty, Stores(ids, hashes));
            if k < 255 then RpReply(cur, fs, k).Found?
            else k == 255 ==> RpReply(cur, fs, k) == Reply.NoCredentials
  {
    hide Run, Call, SlotsTo, CountOf, Consistent;
    OwnRpsFill(load, ids, hashes);
    var fs := Run(load, Empty, Stores(ids, hashes));
    VisibleNumber(fs.rps, hashes, SLOTS);
    Enumeration(cur, RpList(fs), Always(), k);
  }

  // ---------------------------------------------------------------- such storage exists

  /** A device on which the credential id is the user handle. */
  function Plain(): Loader
  {
    (id: Bytes, hash: Bytes) => Some(Credential([], id, 0, None))
  }

  /** [0], [1], ..., [n - 1] */
  function Numbered(n: nat): (ids: seq<Bytes>)
    requires n <= 256
    ensures |ids| == n && forall i :: 0 <= i < n ==> ids[i] == [i]
  {
    if n == 0 then [] else Numbered(n - 1) + [[n - 1]]
  }

  function Repeated(hash: Bytes, n: nat): (hashes: seq<Bytes>)
    ensures |hashes| == n && forall i :: 0 <= i < n ==> hashes[i] == hash
  {
    seq(n, _ => hash)
  }

  /** On that device up to 256 credentials are separate, of one RP or each of its own. */
  lemma NumberedSeparate(n: nat, hash: Bytes)
    requires n <= 256
    ensures Separate(Plain(), Numbered(n), Repeated(hash, n)) && OneRp(Repeated(hash, n), hash)
    ensures Separate(Plain(), Numbered(n), Numbered(n)) && OwnRps(Numbered(n))
  {
    hide SamePrefix;
    var ids := Numbered(n);
    forall i, j | 0 <= i < j < n
      ensures !SamePrefix(ids[i], ids[j])
    {
      EqualLengthPrefix(ids[i], ids[j]);
      assert ids[i][0] != ids[j][0];
    }
  }

  /** With 256 stores for one RP the walk is incomplete on a device where every credential can be loaded. */
  lemma WalkCanMiss(hash: Bytes, cur: Cursor)
    ensures exists fs :: Consistent(fs) && Loadable(fs, Always()) && !VisitsAll(cur, fs, Always())
  {
    hide Consistent, VisitsAll;
    var n: nat := 256;
    NumberedSeparate(n, hash);
    FullRp(Plain(), Numbered(n), Repeated(hash, n), hash, cur, Always());
    var fs := Run(Plain(), Empty, Stores(Numbered(n), Repeated(hash, n)));
    assert Loadable(fs, Always());
  }
}
