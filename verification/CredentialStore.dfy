/**
 * credential_store of credential.c, and the commands of cbor_cred_mgmt.c that delete (0x06) and
 * update (0x07) a credential. A request arrives parsed and authorised.
 */
module CredentialStore {
  import opened Bytes
  import opened CredentialFiles

  datatype Status = Ok | InvalidCredential | NoCredentialSlot | NoRpSlot | NoCredentials | NotAllowed | InvalidParameter

  // ---------------------------------------------------------------- the commands as functions

  /** The slot a credential goes to: that of the first credential of the same user, or a free one. */
  function TargetSlot(load: Loader, creds: CredSlots, hash: Bytes, user: Bytes): nat
  {
    var u := FirstWhere(creds, OfUser(load, hash, user), 0);
    if u < SLOTS then u else FirstWhere(creds, IsFree(), 0)
  }

  function StoreResult(load: Loader, fs: Files, id: Bytes, hash: Bytes): (Status, Files)
  {
    match load(id, hash)
    case None => (InvalidCredential, fs)
    case Some(cred) =>
      var slot := TargetSlot(load, fs.creds, hash, cred.userId);
      if slot == SLOTS then (NoCredentialSlot, fs)
      else
        var creds := fs.creds[slot := Some(CredFile(hash, id))];
        if FirstWhere(fs.creds, OfUser(load, hash, cred.userId), 0) < SLOTS then (Ok, Files(creds, fs.rps))
        else
          match AddReference(fs.rps, hash, cred.rpId)
          case None => (NoRpSlot, Files(creds, fs.rps))
          case Some(rps) => (Ok, Files(creds, rps))
  }

  /** deletable says whether delete_file succeeds; a failure is taken to leave the file. */
  function DeleteResult(fs: Files, id: Bytes, deletable: bool): (Status, Files)
  {
    var i := FirstWhere(fs.creds, WithId(id), 0);
    if i == SLOTS then (NoCredentials, fs)
    else if !deletable then (NotAllowed, fs)
    else (Ok, Files(fs.creds[i := None], DropReference(fs.rps, fs.creds[i].value.rpIdHash)))
  }

  /** newId is what credential_create makes of the stored credential and the new user names, if anything. */
  function UpdateResult(load: Loader, fs: Files, id: Bytes, user: Bytes, newId: Option<Bytes>): (Status, Files)
  {
    var i := FirstWhere(fs.creds, WithId(id), 0);
    if i == SLOTS then (NoCredentials, fs)
    else
      var file := fs.creds[i].value;
      match load(file.id, file.rpIdHash)
      case None => (NotAllowed, fs)
      case Some(cred) =>
        if !SamePrefix(user, cred.userId) then (InvalidParameter, fs)
        else if newId.None? then (NotAllowed, fs)
        else
          var (status, after) := StoreResult(load, fs, newId.value, file.rpIdHash);
          (if status == Ok then Ok else NotAllowed, after)
  }

  // ---------------------------------------------------------------- every run

  datatype Command =
    | Store(id: Bytes, hash: Bytes)
    | Delete(id: Bytes, deletable: bool)
    | Update(id: Bytes, user: Bytes, newId: Option<Bytes>)

  function Result(load: Loader, fs: Files, c: Command): (Status, Files)
  {
    match c
    case Store(id, hash) => StoreResult(load, fs, id, hash)
    case Delete(id, deletable) => DeleteResult(fs, id, deletable)
    case Update(id, user, newId) => UpdateResult(load, fs, id, user, newId)
  }

  function Run(load: Loader, fs: Files, commands: seq<Command>): (after: Files)
    decreases |commands|
  {
    if commands == [] then fs else Run(load, Result(load, fs, commands[0]).1, commands[1..])
  }

  /** A store keeps the reference counts, and one that found a credential slot finds an RP slot. */
  lemma StoreKeeps(load: Loader, fs: Files, id: Bytes, hash: Bytes)
    requires Consistent(fs)
    ensures Consistent(StoreResult(load, fs, id, hash).1)
    ensures StoreResult(load, fs, id, hash).0 != NoRpSlot
  {
    hide Consistent, AddReference;
    if load(id, hash).Some? {
      var cred := load(id, hash).value;
      var slot := TargetSlot(load, fs.creds, hash, cred.userId);
      if slot < SLOTS {
        if FirstWhere(fs.creds, OfUser(load, hash, cred.userId), 0) < SLOTS {
          ReplaceKeeps(fs, slot, CredFile(hash, id));
        } else {
          AddKeeps(fs, slot, CredFile(hash, id), cred.rpId);
        }
      }
    }
  }

  lemma CommandKeeps(load: Loader, fs: Files, c: Command)
    requires Consistent(fs)
    ensures Consistent(Result(load, fs, c).1) && Result(load, fs, c).0 != NoRpSlot
  {
    hide Consistent, AddReference, DropReference, StoreResult;
    match c
    case Store(id, hash) => StoreKeeps(load, fs, id, hash);
    case Delete(id, deletable) =>
      var i := FirstWhere(fs.creds, WithId(id), 0);
      if i < SLOTS {
        DropKeeps(fs, i);
      }
    case Update(id, user, newId) =>
      var i := FirstWhere(fs.creds, WithId(id), 0);
      if i < SLOTS && newId.Some? {
        StoreKeeps(load, fs, newId.value, fs.creds[i].value.rpIdHash);
      }
  }

  /**
   * After any stores, deletes and updates from empty storage the EF_RP files are exactly the RPs of
   * the stored credentials, with their numbers modulo 256.
   */
  lemma {:induction false} RunKeeps(load: Loader, fs: Files, commands: seq<Command>)
    requires Consistent(fs)
    ensures Consistent(Run(load, fs, commands))
    decreases |commands|
  {
    if commands != [] {
      CommandKeeps(load, fs, commands[0]);
      RunKeeps(load, Result(load, fs, commands[0]).1, commands[1..]);
    }
  }

  lemma EmptyIsConsistent()
    ensures Consistent(Empty)
  {
    hide CountOf;
    forall hash
      ensures CountOf(Empty.creds, hash) == 0
    {
      CountPositive(Empty.creds, hash);
    }
  }

  // ---------------------------------------------------------------- what a command does

  /**
   * A store fails only when the new id does not load, or when every slot is in use and none belongs
   * to the user. Otherwise the new credential is in exactly one slot that changed, which was free or
   * held a credential of the same RP whose handle agrees with the new one over the shorter length.
   */
  lemma StoreOutcome(load: Loader, fs: Files, id: Bytes, hash: Bytes) returns (slot: nat)
    requires Consistent(fs)
    ensures var (status, after) := StoreResult(load, fs, id, hash);
            && (status == InvalidCredential <==> load(id, hash).None?)
            && (status == NoCredentialSlot <==>
                  load(id, hash).Some?
                  && forall i :: 0 <= i < SLOTS ==>
                       fs.creds[i].Some? && !OfUser(load, hash, load(id, hash).value.userId)(fs.creds[i]))
            && (status in {Ok, InvalidCredential, NoCredentialSlot})
            && (status != Ok ==> after == fs)
            && (status == Ok ==>
                  && slot < SLOTS && after.creds == fs.creds[slot := Some(CredFile(hash, id))]
                  && (fs.creds[slot].None? || OfUser(load, hash, load(id, hash).value.userId)(fs.creds[slot]))
                  && (fs.creds[slot].Some? ==> after.rps == fs.rps))
  {
    hide Consistent, AddReference, SamePrefix;
    StoreKeeps(load, fs, id, hash);
    slot := 0;
    if load(id, hash).Some? {
      var user := load(id, hash).value.userId;
      slot := TargetSlot(load, fs.creds, hash, user);
      if slot == SLOTS {
        assert forall i :: 0 <= i < SLOTS ==> !IsFree<CredFile>()(fs.creds[i]);
      } else if fs.creds[slot].None? {
        assert IsFree<CredFile>()(fs.creds[slot]);
      }
    }
  }

  /** Which slot an accepted store writes: that of the first agreeing handle, or without one the first free slot. */
  lemma StoreSlot(load: Loader, fs: Files, id: Bytes, hash: Bytes) returns (slot: nat)
    requires Consistent(fs) && StoreResult(load, fs, id, hash).0 == Ok
    ensures slot < SLOTS && StoreResult(load, fs, id, hash).1.creds == fs.creds[slot := Some(CredFile(hash, id))]
    ensures var agrees := OfUser(load, hash, load(id, hash).value.userId);
            if fs.creds[slot].Some? then agrees(fs.creds[slot]) && forall i :: 0 <= i < slot ==> !agrees(fs.creds[i])
            else (forall i :: 0 <= i < SLOTS ==> !agrees(fs.creds[i])) && forall i :: 0 <= i < slot ==> fs.creds[i].Some?
  {
    hide Consistent, AddReference, SamePrefix;
    slot := TargetSlot(load, fs.creds, hash, load(id, hash).value.userId);
    forall i | 0 <= i < slot && fs.creds[slot].None?
      ensures fs.creds[i].Some?
    {
      assert !IsFree<CredFile>()(fs.creds[i]);
    }
  }

  /**
   * What a store that takes a free slot does to the EF_RP files: one file counts it, and a new file holds
   * the count 1, the RP id hash, and the RP id of the credential stored.
   */
  lemma StoreCounts(load: Loader, fs: Files, id: Bytes, hash: Bytes) returns (slot: nat, k: nat)
    requires Consistent(fs) && StoreResult(load, fs, id, hash).0 == Ok
    ensures var after := StoreResult(load, fs, id, hash).1;
            && slot < SLOTS && after.creds == fs.creds[slot := Some(CredFile(hash, id))]
            && (fs.creds[slot].Some? ==> after.rps == fs.rps)
            && (fs.creds[slot].None? ==>
                  && k < SLOTS && after.rps == fs.rps[k := after.rps[k]]
                  && (if CountOf(fs.creds, hash) == 0 then
                        fs.rps[k].None? && after.rps[k] == Some(RpFile(1, hash, load(id, hash).value.rpId))
                      else
                        && fs.rps[k].Some? && fs.rps[k].value.rpIdHash == hash
                        && after.rps[k] == Some(RpFile((CountOf(fs.creds, hash) + 1) % 256, hash, fs.rps[k].value.rpId))))
  {
    hide Consistent, AddReference, SamePrefix, CountOf;
    slot := TargetSlot(load, fs.creds, hash, load(id, hash).value.userId);
    k := AddedFile(fs.rps, hash, load(id, hash).value.rpId);
    if fs.creds[slot].None? {
      CountedByFile(fs, hash, k);
    }
  }

  /** The count byte of a file, by the credentials of its hash. */
  lemma CountedByFile(fs: Files, hash: Bytes, k: nat)
    requires Consistent(fs) && k < SLOTS
    requires fs.rps[k].Some? ==> fs.rps[k].value.rpIdHash == hash
    requires fs.rps[k].None? ==> forall i :: 0 <= i < SLOTS && fs.rps[i].Some? ==> fs.rps[i].value.rpIdHash != hash
    ensures fs.rps[k].Some? <==> CountOf(fs.creds, hash) > 0
    ensures fs.rps[k].Some? ==> fs.rps[k].value.count == CountOf(fs.creds, hash) % 256
  {
    hide CountOf;
    assert CountsRight(fs, k);
    assert HasRp(fs.rps, hash) <==> CountOf(fs.creds, hash) > 0;
    if fs.rps[k].Some? {
      assert CarriesHash(hash)(fs.rps[k]);
    }
  }

  // ---------------------------------------------------------------- RP ids

  /** The RP id in every credential is that of the RP id hash it loads under. */
  ghost predicate NamesRps(load: Loader, rpOf: Bytes -> Bytes)
  {
    forall id, hash :: load(id, hash).Some? ==> load(id, hash).value.rpId == rpOf(hash)
  }

  /** Every EF_RP file holds the RP id of its hash. */
  ghost predicate RpIdsRight(fs: Files, rpOf: Bytes -> Bytes)
  {
    forall j :: 0 <= j < SLOTS && fs.rps[j].Some? ==> fs.rps[j].value.rpId == rpOf(fs.rps[j].value.rpIdHash)
  }

  lemma StoreKeepsRpIds(load: Loader, fs: Files, id: Bytes, hash: Bytes, rpOf: Bytes -> Bytes)
    requires NamesRps(load, rpOf) && RpIdsRight(fs, rpOf)
    ensures RpIdsRight(StoreResult(load, fs, id, hash).1, rpOf)
  {
    hide AddReference, SamePrefix;
    if load(id, hash).Some? {
      var k := AddedFile(fs.rps, hash, load(id, hash).value.rpId);
    }
  }

  lemma CommandKeepsRpIds(load: Loader, fs: Files, c: Command, rpOf: Bytes -> Bytes)
    requires NamesRps(load, rpOf) && RpIdsRight(fs, rpOf)
    ensures RpIdsRight(Result(load, fs, c).1, rpOf)
  {
    hide AddReference, DropReference, StoreResult, NamesRps;
    match c
    case Store(id, hash) => StoreKeepsRpIds(load, fs, id, hash, rpOf);
    case Delete(id, deletable) =>
      var i := FirstWhere(fs.creds, WithId(id), 0);
      if i < SLOTS {
        var h := fs.creds[i].value.rpIdHash;
        forall j | 0 <= j < SLOTS && DropReference(fs.rps, h)[j].Some?
          ensures DropReference(fs.rps, h)[j].value.rpId == rpOf(DropReference(fs.rps, h)[j].value.rpIdHash)
        {
          DroppedFile(fs.rps, h, j);
        }
      }
    case Update(id, user, newId) =>
      var i := FirstWhere(fs.creds, WithId(id), 0);
      if i < SLOTS && newId.Some? {
        StoreKeepsRpIds(load, fs, newId.value, fs.creds[i].value.rpIdHash, rpOf);
      }
  }

  /** After any run every EF_RP file holds the RP id of its hash, which is what 0x02 and 0x03 report. */
  lemma {:induction false} RunKeepsRpIds(load: Loader, fs: Files, commands: seq<Command>, rpOf: Bytes -> Bytes)
    requires NamesRps(load, rpOf) && RpIdsRight(fs, rpOf)
    ensures RpIdsRight(Run(load, fs, commands), rpOf)
    decreases |commands|
  {
    hide NamesRps, RpIdsRight;
    if commands != [] {
      CommandKeepsRpIds(load, fs, commands[0], rpOf);
      RunKeepsRpIds(load, Result(load, fs, commands[0]).1, commands[1..], rpOf);
    }
  }

  /**
   * When an update is accepted: the first credential whose id agrees loads, its handle agrees with the one
   * given, the new credential can be made, loads, and finds a slot. All else is refused and changes nothing.
   */
  lemma UpdateOutcome(load: Loader, fs: Files, id: Bytes, user: Bytes, newId: Option<Bytes>) returns (i: nat)
    requires Consistent(fs)
    ensures var (status, after) := UpdateResult(load, fs, id, user, newId);
            && i <= SLOTS && (forall j :: 0 <= j < i ==> !WithId(id)(fs.creds[j]))
            && (i < SLOTS ==> WithId(id)(fs.creds[i]))
            && (status == NoCredentials <==> i == SLOTS)
            && (status != Ok ==> after == fs)
            && (i < SLOTS ==>
                  var f := fs.creds[i].value;
                  var cred := load(f.id, f.rpIdHash);
                  && (status == InvalidParameter <==> cred.Some? && !(user <= cred.value.userId || cred.value.userId <= user))
                  && (status == Ok <==>
                        && cred.Some? && (user <= cred.value.userId || cred.value.userId <= user)
                        && newId.Some? && load(newId.value, f.rpIdHash).Some?
                        && exists j :: 0 <= j < SLOTS
                             && (fs.creds[j].None? || OfUser(load, f.rpIdHash, load(newId.value, f.rpIdHash).value.userId)(fs.creds[j])))
                  && status in {Ok, InvalidParameter, NotAllowed})
  {
    hide SamePrefix, StoreResult, Consistent, OfUser;
    i := FirstWhere(fs.creds, WithId(id), 0);
    if i < SLOTS {
      var f := fs.creds[i].value;
      var cred := load(f.id, f.rpIdHash);
      if cred.Some? {
        SamePrefixIs(user, cred.value.userId);
      }
      if newId.Some? {
        var slot := StoreOutcome(load, fs, newId.value, f.rpIdHash);
      }
    }
  }

  /**
   * A delete finds nothing exactly when no id agrees; otherwise, unless the file cannot be deleted, the
   * first credential whose id agrees is gone, and nothing else.
   */
  lemma DeleteOutcome(fs: Files, id: Bytes, deletable: bool) returns (slot: nat)
    ensures var (status, after) := DeleteResult(fs, id, deletable);
            && (status == NoCredentials <==> forall i :: 0 <= i < SLOTS ==> !WithId(id)(fs.creds[i]))
            && (status != NoCredentials ==>
                  && slot < SLOTS && WithId(id)(fs.creds[slot])
                  && (forall i :: 0 <= i < slot ==> !WithId(id)(fs.creds[i]))
                  && status == (if deletable then Ok else NotAllowed))
            && (if status == Ok then after.creds == fs.creds[slot := None] else after == fs)
  {
    hide SamePrefix;
    slot := FirstWhere(fs.creds, WithId(id), 0);
  }

  /** The credential in slot j is the one that goes exactly when no earlier id agrees with the one given. */
  lemma DeleteSelected(fs: Files, id: Bytes, j: nat)
    requires j < SLOTS && WithId(id)(fs.creds[j])
    ensures DeleteResult(fs, id, true).1.creds == fs.creds[j := None]
            <==> forall i :: 0 <= i < j ==> !WithId(id)(fs.creds[i])
  {
    hide SamePrefix;
    var slot := DeleteOutcome(fs, id, true);
    var after := DeleteResult(fs, id, true).1.creds;
    assert after[slot].None? && fs.creds[slot].Some?;
    if slot != j {
      assert fs.creds[j := None][slot].Some?;
    }
  }

  // ---------------------------------------------------------------- one credential per user

  /** The user handle of the credential in a slot, when it loads. */
  function UserOf(load: Loader, f: Option<CredFile>): Option<Bytes>
  {
    if f.None? then None
    else
      match load(f.value.id, f.value.rpIdHash)
      case None => None
      case Some(c) => Some(c.userId)
  }

  /** The slot holds a loadable credential of exactly this user of the RP. */
  predicate Holds(load: Loader, f: Option<CredFile>, hash: Bytes, user: Bytes)
  {
    f.Some? && f.value.rpIdHash == hash && UserOf(load, f) == Some(user)
  }

  /** No user of any RP has two credentials. */
  ghost predicate OnePerUser(load: Loader, creds: CredSlots)
  {
    forall i, j, hash, user ::
      (0 <= i < SLOTS && 0 <= j < SLOTS && Holds(load, creds[i], hash, user) && Holds(load, creds[j], hash, user))
      ==> i == j
  }

  /** Some slot holds the user. */
  ghost predicate Known(load: Loader, creds: CredSlots, hash: Bytes, user: Bytes)
  {
    exists i :: 0 <= i < SLOTS && Holds(load, creds[i], hash, user)
  }

  /** Writing a user's credential to a slot keeps one per user exactly when no other slot holds the user. */
  lemma WriteOnePerUser(load: Loader, creds: CredSlots, slot: nat, f: CredFile, user: Bytes)
    requires OnePerUser(load, creds) && slot < SLOTS && Holds(load, Some(f), f.rpIdHash, user)
    ensures OnePerUser(load, creds[slot := Some(f)])
            <==> forall k :: 0 <= k < SLOTS && k != slot ==> !Holds(load, creds[k], f.rpIdHash, user)
  {
    var after := creds[slot := Some(f)];
    assert Holds(load, after[slot], f.rpIdHash, user);
    assert forall k :: 0 <= k < SLOTS && k != slot ==> after[k] == creds[k];
  }

  /**
   * A store keeps one credential per user exactly when the user is new to the RP or the first handle
   * that agrees with it over the shorter length is the same handle.
   */
  lemma StoreOnePerUser(load: Loader, fs: Files, id: Bytes, hash: Bytes)
    requires OnePerUser(load, fs.creds)
    requires StoreResult(load, fs, id, hash).0 == Ok
    ensures var user := load(id, hash).value.userId;
            OnePerUser(load, StoreResult(load, fs, id, hash).1.creds)
            <==> (Known(load, fs.creds, hash, user)
                  ==> Holds(load, fs.creds[FirstWhere(fs.creds, OfUser(load, hash, user), 0)], hash, user))
  {
    hide OnePerUser, AddReference;
    var user := load(id, hash).value.userId;
    var u := FirstWhere(fs.creds, OfUser(load, hash, user), 0);
    WriteOnePerUser(load, fs.creds, TargetSlot(load, fs.creds, hash, user), CredFile(hash, id), user);
    forall k | 0 <= k < SLOTS && Holds(load, fs.creds[k], hash, user)
      ensures u <= k
    {
      EqualLengthPrefix(user, user);
      assert OfUser(load, hash, user)(fs.creds[k]);
    }
    if Known(load, fs.creds, hash, user) && Holds(load, fs.creds[u], hash, user) {
      OnePerUserElsewhere(load, fs.creds, u, hash, user);
    }
  }

  lemma OnePerUserElsewhere(load: Loader, creds: CredSlots, u: nat, hash: Bytes, user: Bytes)
    requires OnePerUser(load, creds) && u < SLOTS && Holds(load, creds[u], hash, user)
    ensures forall k :: 0 <= k < SLOTS && k != u ==> !Holds(load, creds[k], hash, user)
  {
  }

  /** All loadable credentials of an RP have user handles of one length, which the RP determines. */
  ghost predicate EqualLengths(load: Loader, creds: CredSlots, lengths: Bytes -> nat)
  {
    forall i, hash, user :: 0 <= i < SLOTS && Holds(load, creds[i], hash, user) ==> |user| == lengths(hash)
  }

  /** With handles of equal length a store always keeps one credential per user. */
  lemma EqualLengthsOnePerUser(load: Loader, fs: Files, id: Bytes, hash: Bytes, lengths: Bytes -> nat)
    requires OnePerUser(load, fs.creds) && EqualLengths(load, fs.creds, lengths)
    requires load(id, hash).Some? ==> |load(id, hash).value.userId| == lengths(hash)
    ensures OnePerUser(load, StoreResult(load, fs, id, hash).1.creds)
    ensures EqualLengths(load, StoreResult(load, fs, id, hash).1.creds, lengths)
  {
    hide OnePerUser, AddReference;
    if load(id, hash).Some? {
      var user := load(id, hash).value.userId;
      var u := FirstWhere(fs.creds, OfUser(load, hash, user), 0);
      var slot := TargetSlot(load, fs.creds, hash, user);
      if slot < SLOTS {
        WriteOnePerUser(load, fs.creds, slot, CredFile(hash, id), user);
        assert Holds(load, Some(CredFile(hash, id)), hash, user);
        if u < SLOTS {
          var v := load(fs.creds[u].value.id, hash).value.userId;
          assert Holds(load, fs.creds[u], hash, v);
          EqualLengthPrefix(v, user);
          OnePerUserElsewhere(load, fs.creds, u, hash, user);
        } else {
          NotThere(load, fs.creds, hash, user);
        }
      }
    }
  }

  lemma NotThere(load: Loader, creds: CredSlots, hash: Bytes, user: Bytes)
    requires FirstWhere(creds, OfUser(load, hash, user), 0) == SLOTS
    ensures forall k :: 0 <= k < SLOTS ==> !Holds(load, creds[k], hash, user)
  {
    EqualLengthPrefix(user, user);
    assert forall k :: 0 <= k < SLOTS ==> !OfUser(load, hash, user)(creds[k]);
  }

  /** The commands of a run bring handles of the length of their RP, and an update keeps the handle. */
  ghost predicate BringsLengths(load: Loader, c: Command, lengths: Bytes -> nat)
  {
    match c
    case Store(id, hash) => load(id, hash).Some? ==> |load(id, hash).value.userId| == lengths(hash)
    case Delete(_, _) => true
    case Update(id, user, newId) => newId.Some? ==> NewIdLengths(load, newId.value, lengths)
  }

  /** Whichever RP it loads under, the id's user handle has the length of that RP. */
  ghost predicate NewIdLengths(load: Loader, id: Bytes, lengths: Bytes -> nat)
  {
    forall hash :: load(id, hash).Some? ==> |load(id, hash).value.userId| == lengths(hash)
  }

  /** With handles of equal length every run from empty storage keeps one credential per user. */
  lemma {:induction false} RunOnePerUser(load: Loader, fs: Files, commands: seq<Command>, lengths: Bytes -> nat)
    requires OnePerUser(load, fs.creds) && EqualLengths(load, fs.creds, lengths)
    requires forall c :: c in commands ==> BringsLengths(load, c, lengths)
    ensures OnePerUser(load, Run(load, fs, commands).creds)
    decreases |commands|
  {
    hide StoreResult, DropReference, NewIdLengths;
    if commands != [] {
      var after := Result(load, fs, commands[0]).1;
      assert commands[0] in commands;
      match commands[0] {
        case Store(id, hash) => EqualLengthsOnePerUser(load, fs, id, hash, lengths);
        case Delete(_, _) => SubsetOnePerUser(load, fs.creds, after.creds, lengths);
        case Update(id, user, newId) =>
          var i := FirstWhere(fs.creds, WithId(id), 0);
          if i < SLOTS && newId.Some? {
            var hash := fs.creds[i].value.rpIdHash;
            assert load(newId.value, hash).Some? ==> |load(newId.value, hash).value.userId| == lengths(hash) by {
              LengthOfNewId(load, newId.value, lengths, hash);
            }
            EqualLengthsOnePerUser(load, fs, newId.value, hash, lengths);
          }
      }
      RunOnePerUser(load, after, commands[1..], lengths);
    }
  }

  lemma LengthOfNewId(load: Loader, id: Bytes, lengths: Bytes -> nat, hash: Bytes)
    requires NewIdLengths(load, id, lengths)
    ensures load(id, hash).Some? ==> |load(id, hash).value.userId| == lengths(hash)
  {
  }

  lemma SubsetOnePerUser(load: Loader, creds: CredSlots, creds': CredSlots, lengths: Bytes -> nat)
    requires OnePerUser(load, creds) && EqualLengths(load, creds, lengths)
    requires forall i :: 0 <= i < SLOTS ==> creds'[i] == creds[i] || creds'[i].None?
    ensures OnePerUser(load, creds') && EqualLengths(load, creds', lengths)
  {
    forall i, hash, user | 0 <= i < SLOTS && Holds(load, creds'[i], hash, user)
      ensures Holds(load, creds[i], hash, user)
    {
    }
  }

  // ---------------------------------------------------------------- handles of different lengths

  /** The id loads under the hash to a credential of the user. */
  predicate LoadsUser(load: Loader, id: Bytes, hash: Bytes, user: Bytes)
  {
    load(id, hash).Some? && load(id, hash).value.userId == user
  }

  /** The credentials of one RP in the first two slots, and no others. */
  ghost predicate Two(creds: CredSlots, hash: Bytes, first: Option<Bytes>, second: Option<Bytes>)
  {
    && creds[0] == FileOf(hash, first) && creds[1] == FileOf(hash, second)
    && forall i :: 2 <= i < SLOTS ==> creds[i] == None
  }

  function FileOf(hash: Bytes, id: Option<Bytes>): Option<CredFile>
  {
    if id.Some? then Some(CredFile(hash, id.value)) else None
  }

  /** A store that finds no agreeing handle takes the second slot; one that agrees with the first takes that. */
  lemma StoreAmongTwo(load: Loader, fs: Files, hash: Bytes, first: Option<Bytes>, second: Option<Bytes>, id: Bytes)
    requires Two(fs.creds, hash, first, second) && load(id, hash).Some? && Consistent(fs)
    requires first.Some? ==> load(first.value, hash).Some?
    ensures var user := load(id, hash).value.userId;
            var after := StoreResult(load, fs, id, hash).1;
            && Consistent(after)
            && (first.None? && second.None? ==> Two(after.creds, hash, Some(id), None))
            && (first.Some? && SamePrefix(load(first.value, hash).value.userId, user) ==>
                  Two(after.creds, hash, Some(id), second))
            && (first.Some? && !SamePrefix(load(first.value, hash).value.userId, user) && second.None? ==>
                  Two(after.creds, hash, first, Some(id)))
  {
    hide AddReference, SamePrefix, Consistent;
    StoreKeeps(load, fs, id, hash);
    var user := load(id, hash).value.userId;
    if first.None? && second.None? {
      FirstWhereUnique(fs.creds, OfUser(load, hash, user), 0, SLOTS);
      FirstWhereUnique(fs.creds, IsFree(), 0, 0);
    } else if first.Some? && SamePrefix(load(first.value, hash).value.userId, user) {
      FirstWhereUnique(fs.creds, OfUser(load, hash, user), 0, 0);
    } else if first.Some? && second.None? {
      FirstWhereUnique(fs.creds, OfUser(load, hash, user), 0, SLOTS);
      FirstWhereUnique(fs.creds, IsFree(), 0, 1);
    }
  }

  /**
   * With handles of different lengths, on any device, four stores from empty storage leave two
   * credentials of the same user: a handle w that agrees with both u and v over the shorter length takes
   * the slot of u, and v then takes the slot of w although it has one already.
   */
  lemma TwoForOneUser(load: Loader, hash: Bytes, a: Bytes, b: Bytes, c: Bytes, d: Bytes, u: Bytes, v: Bytes, w: Bytes)
    requires LoadsUser(load, a, hash, u) && LoadsUser(load, b, hash, v) && LoadsUser(load, c, hash, w) && LoadsUser(load, d, hash, v)
    requires !SamePrefix(u, v) && SamePrefix(u, w) && SamePrefix(w, v)
    ensures !OnePerUser(load, Run(load, Empty, [Store(a, hash), Store(b, hash), Store(c, hash), Store(d, hash)]).creds)
  {
    hide AddReference, OnePerUser, StoreResult, SamePrefix, Consistent, Two;
    EmptyIsConsistent();
    var s1 := StoreResult(load, Empty, a, hash).1;
    var s2 := StoreResult(load, s1, b, hash).1;
    var s3 := StoreResult(load, s2, c, hash).1;
    var s4 := StoreResult(load, s3, d, hash).1;
    NoneOfTwo(hash);
    StoreAmongTwo(load, Empty, hash, None, None, a);
    StoreAmongTwo(load, s1, hash, Some(a), None, b);
    StoreAmongTwo(load, s2, hash, Some(a), Some(b), c);
    StoreAmongTwo(load, s3, hash, Some(c), Some(b), d);
    BothOfTwo(s4.creds, hash, d, b);
    SameHandleTwice(load, s4.creds, hash, v);
    assert Run(load, s4, []) == s4;
    assert Run(load, s3, [Store(d, hash)]) == s4;
    assert Run(load, s2, [Store(c, hash), Store(d, hash)]) == s4;
    assert Run(load, s1, [Store(b, hash), Store(c, hash), Store(d, hash)]) == s4;
  }

  lemma NoneOfTwo(hash: Bytes)
    ensures Two(Empty.creds, hash, None, None)
  {
  }

  lemma BothOfTwo(creds: CredSlots, hash: Bytes, first: Bytes, second: Bytes)
    requires Two(creds, hash, Some(first), Some(second))
    ensures creds[0] == Some(CredFile(hash, first)) && creds[1] == Some(CredFile(hash, second))
  {
  }

  /** Such handles: [1, 2], [1, 3] and [1]. */
  lemma HandlesThatAgree()
    ensures !SamePrefix([1, 2], [1, 3]) && SamePrefix([1, 2], [1]) && SamePrefix([1], [1, 3])
  {
    var u: Bytes, v: Bytes, w: Bytes := [1, 2], [1, 3], [1];
    assert u[..2][1] != v[..2][1];
    assert u[..1] == w[..1] == v[..1];
  }

  lemma SameHandleTwice(load: Loader, creds: CredSlots, hash: Bytes, user: Bytes)
    requires Holds(load, creds[0], hash, user) && Holds(load, creds[1], hash, user)
    ensures !OnePerUser(load, creds)
  {
  }

  // ---------------------------------------------------------------- updates

  /**
   * An update whose new id carries the old user handle writes over one credential of the RP and
   * leaves the EF_RP files alone; it is the selected one exactly when no earlier credential of the RP
   * has a handle that agrees with it over the shorter length.
   */
  lemma UpdateInPlace(load: Loader, fs: Files, id: Bytes, user: Bytes, newId: Bytes)
    requires FirstWhere(fs.creds, WithId(id), 0) < SLOTS
    requires var f := fs.creds[FirstWhere(fs.creds, WithId(id), 0)].value;
             && load(f.id, f.rpIdHash).Some? && load(newId, f.rpIdHash).Some?
             && load(newId, f.rpIdHash).value.userId == load(f.id, f.rpIdHash).value.userId
             && SamePrefix(user, load(f.id, f.rpIdHash).value.userId)
    ensures var i := FirstWhere(fs.creds, WithId(id), 0);
            var f := fs.creds[i].value;
            var old' := load(f.id, f.rpIdHash).value.userId;
            var u := FirstWhere(fs.creds, OfUser(load, f.rpIdHash, old'), 0);
            && u <= i
            && UpdateResult(load, fs, id, user, Some(newId))
               == (Ok, Files(fs.creds[u := Some(CredFile(f.rpIdHash, newId))], fs.rps))
            && (u == i <==> forall j :: 0 <= j < i ==> !OfUser(load, f.rpIdHash, old')(fs.creds[j]))
  {
    var i := FirstWhere(fs.creds, WithId(id), 0);
    var f := fs.creds[i].value;
    var handle := load(f.id, f.rpIdHash).value.userId;
    EqualLengthPrefix(handle, handle);
    assert OfUser(load, f.rpIdHash, handle)(fs.creds[i]);
  }

  // ---------------------------------------------------------------- the implementation

  /** The flash files of the device. */
  class Flash {
    var creds: CredSlots
    var rps: RpSlots

    function Contents(): Files
      reads this
    {
      Files(creds, rps)
    }

    constructor ()
      ensures Contents() == Empty
    {
      creds, rps := Empty.creds, Empty.rps;
    }

    /** credential_store */
    method Store(load: Loader, id: Bytes, hash: Bytes) returns (status: Status)
      modifies this
      ensures (status, Contents()) == StoreResult(load, old(Contents()), id, hash)
    {
      hide SamePrefix;
      var sloti, newRecord := -1, true;
      var loaded := load(id, hash);
      if loaded.None? {
        return InvalidCredential;
      }
      var cred := loaded.value;
      var i := 0;
      while i < SLOTS
        invariant i <= SLOTS && newRecord && creds == old(creds) && rps == old(rps)
        invariant forall j :: 0 <= j < i ==> !OfUser(load, hash, cred.userId)(creds[j])
        invariant sloti == -1 ==> forall j :: 0 <= j < i ==> !IsFree<CredFile>()(creds[j])
        invariant sloti != -1 ==>
                    && 0 <= sloti < i && IsFree<CredFile>()(creds[sloti])
                    && forall j :: 0 <= j < sloti ==> !IsFree<CredFile>()(creds[j])
      {
        var ef := creds[i];
        if ef.None? {
          if sloti == -1 {
            sloti := i;
          }
        } else if ef.value.rpIdHash == hash {
          var rcred := load(ef.value.id, hash);
          if rcred.Some? && SamePrefix(rcred.value.userId, cred.userId) {
            sloti := i;
            newRecord := false;
            break;
          }
        }
        i := i + 1;
      }
      FirstWhereUnique(creds, OfUser(load, hash, cred.userId), 0, i);
      if newRecord {
        FirstWhereUnique(creds, IsFree(), 0, if sloti == -1 then SLOTS else sloti);
      }
      if sloti == -1 {
        return NoCredentialSlot;
      }
      creds := creds[sloti := Some(CredFile(hash, id))];
      if newRecord {
        var counted := CountReference(hash, cred.rpId);
        return if counted then Ok else NoRpSlot;
      }
      return Ok;
    }

    /** The second half of credential_store: one more credential of the RP. */
    method CountReference(hash: Bytes, rpId: Bytes) returns (ok: bool)
      modifies this`rps
      ensures var r := AddReference(old(rps), hash, rpId);
              ok == r.Some? && rps == (if ok then r.value else old(rps))
    {
      var sloti := -1;
      var i := 0;
      while i < SLOTS
        invariant i <= SLOTS && rps == old(rps)
        invariant forall j :: 0 <= j < i ==> !CarriesHash(hash)(rps[j])
        invariant sloti == -1 ==> forall j :: 0 <= j < i ==> !IsFree<RpFile>()(rps[j])
        invariant sloti != -1 ==>
                    && 0 <= sloti < i && IsFree<RpFile>()(rps[sloti])
                    && forall j :: 0 <= j < sloti ==> !IsFree<RpFile>()(rps[j])
      {
        if rps[i].None? {
          if sloti == -1 {
            sloti := i;
          }
        } else if rps[i].value.rpIdHash == hash {
          sloti := i;
          break;
        }
        i := i + 1;
      }
      FirstWhereUnique(rps, CarriesHash(hash), 0, i);
      if i == SLOTS {
        FirstWhereUnique(rps, IsFree(), 0, if sloti == -1 then SLOTS else sloti);
      }
      if sloti == -1 {
        return false;
      }
      if rps[sloti].Some? {
        var f := rps[sloti].value;
        rps := rps[sloti := Some(f.(count := (f.count + 1) % 256))];
      } else {
        rps := rps[sloti := Some(RpFile(1, hash, rpId))];
      }
      return true;
    }

    /** Subcommand 0x06: the RP id hash is taken before the file is deleted. */
    method Delete(id: Bytes, deletable: bool) returns (status: Status)
      modifies this
      ensures (status, Contents()) == DeleteResult(old(Contents()), id, deletable)
    {
      hide SamePrefix;
      var i := FindId(id);
      if i == SLOTS {
        return NoCredentials;
      }
      var hash := creds[i].value.rpIdHash;
      if !deletable {
        return NotAllowed;
      }
      creds := creds[i := None];
      var j := 0;
      while j < SLOTS
        invariant j <= SLOTS && rps == old(rps) && creds == old(creds)[i := None]
        invariant forall k :: 0 <= k < j ==> !CarriesHash(hash)(rps[k])
      {
        if rps[j].Some? && rps[j].value.rpIdHash == hash {
          break;
        }
        j := j + 1;
      }
      FirstWhereUnique(rps, CarriesHash(hash), 0, j);
      if j < SLOTS {
        var f := rps[j].value;
        var count := (f.count - 1) % 256;
        rps := rps[j := if count == 0 then None else Some(f.(count := count))];
      }
      return Ok;
    }

    /** The loop over the EF_CRED files in subcommands 0x06 and 0x07. */
    method FindId(id: Bytes) returns (i: nat)
      ensures i == FirstWhere(creds, WithId(id), 0)
    {
      hide SamePrefix;
      i := 0;
      while i < SLOTS
        invariant i <= SLOTS
        invariant forall j :: 0 <= j < i ==> !WithId(id)(creds[j])
      {
        if creds[i].Some? && SamePrefix(creds[i].value.id, id) {
          break;
        }
        i := i + 1;
      }
      FirstWhereUnique(creds, WithId(id), 0, i);
    }

    /** Subcommand 0x07 */
    method Update(load: Loader, id: Bytes, user: Bytes, newId: Option<Bytes>) returns (status: Status)
      modifies this
      ensures (status, Contents()) == UpdateResult(load, old(Contents()), id, user, newId)
    {
      hide StoreResult, SamePrefix;
      var i := FindId(id);
      if i == SLOTS {
        return NoCredentials;
      }
      var ef := creds[i].value;
      var cred := load(ef.id, ef.rpIdHash);
      if cred.None? {
        return NotAllowed;
      }
      if !SamePrefix(user, cred.value.userId) {
        return InvalidParameter;
      }
      if newId.None? {
        return NotAllowed;
      }
      status := Store(load, newId.value, ef.rpIdHash);
      return if status == Ok then Ok else NotAllowed;
    }
  }
}
