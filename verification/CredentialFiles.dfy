/**
 * The stored credentials: 256 EF_CRED slots and 256 EF_RP slots, and what every command keeps true
 * of them. An EF_RP file counts, in one byte, the credentials that carry its RP id hash.
 */
module CredentialFiles {
  import opened Bytes

  /** MAX_RESIDENT_CREDENTIALS */
  const SLOTS: nat := 256

  /** An EF_CRED file: 32 bytes of RP id hash, then the credential id. */
  datatype CredFile = CredFile(rpIdHash: Bytes, id: Bytes)

  /** An EF_RP file: a count byte, the RP id hash, the RP id. */
  datatype RpFile = RpFile(count: Byte, rpIdHash: Bytes, rpId: Bytes)

  /** What credential_load finds inside a credential id; protection is credProtect, if there are extensions. */
  datatype Credential = Credential(rpId: Bytes, userId: Bytes, creation: nat, protection: Option<nat>)

  /** credential_load under the device key: authenticated decryption with the RP id hash. */
  type Loader = (Bytes, Bytes) -> Option<Credential>

  type CredSlots = s: seq<Option<CredFile>> | |s| == SLOTS witness seq(SLOTS, _ => None)
  type RpSlots = s: seq<Option<RpFile>> | |s| == SLOTS witness seq(SLOTS, _ => None)

  datatype Files = Files(creds: CredSlots, rps: RpSlots)

  const Empty: Files := Files(seq(SLOTS, _ => None), seq(SLOTS, _ => None))

  // ---------------------------------------------------------------- searching slots

  /** The first slot from i on that p accepts; the number of slots when there is none. */
  function FirstWhere<T>(s: seq<Option<T>>, p: Option<T> -> bool, i: nat): (r: nat)
    requires i <= |s|
    ensures i <= r <= |s|
    ensures forall j :: i <= j < r ==> !p(s[j])
    ensures r < |s| ==> p(s[r])
    decreases |s| - i
  {
    if i == |s| || p(s[i]) then i else FirstWhere(s, p, i + 1)
  }

  /** The conditions above determine the slot. */
  lemma FirstWhereUnique<T>(s: seq<Option<T>>, p: Option<T> -> bool, i: nat, r: nat)
    requires i <= r <= |s|
    requires forall j :: i <= j < r ==> !p(s[j])
    requires r < |s| ==> p(s[r])
    ensures FirstWhere(s, p, i) == r
  {
  }

  function IsFree<T(!new)>(): Option<T> -> bool
  {
    (f: Option<T>) => f.None?
  }

  function CarriesHash(hash: Bytes): Option<RpFile> -> bool
  {
    (f: Option<RpFile>) => f.Some? && f.value.rpIdHash == hash
  }

  /** A stored credential of the RP whose user handle agrees with user over the shorter length. */
  function OfUser(load: Loader, hash: Bytes, user: Bytes): Option<CredFile> -> bool
  {
    (f: Option<CredFile>) =>
      && f.Some? && f.value.rpIdHash == hash
      && var c := load(f.value.id, hash); c.Some? && SamePrefix(c.value.userId, user)
  }

  /** A stored credential whose id agrees with id over the shorter length. */
  function WithId(id: Bytes): Option<CredFile> -> bool
  {
    (f: Option<CredFile>) => f.Some? && SamePrefix(f.value.id, id)
  }

  /** What the two searches among the credentials agree on. */
  lemma Agreement(load: Loader, hash: Bytes, user: Bytes, id: Bytes, f: CredFile)
    ensures WithId(id)(Some(f)) <==> f.id <= id || id <= f.id
    ensures OfUser(load, hash, user)(Some(f)) <==>
              f.rpIdHash == hash && load(f.id, hash).Some?
              && (load(f.id, hash).value.userId <= user || user <= load(f.id, hash).value.userId)
    ensures !WithId(id)(None) && !OfUser(load, hash, user)(None)
  {
    hide SamePrefix;
    SamePrefixIs(f.id, id);
    if load(f.id, hash).Some? {
      SamePrefixIs(load(f.id, hash).value.userId, user);
    }
  }

  // ---------------------------------------------------------------- counting

  /** The number of stored credentials that carry an RP id hash. */
  function CountOf(creds: seq<Option<CredFile>>, hash: Bytes): (n: nat)
    ensures n <= |creds|
  {
    if creds == [] then 0
    else (if creds[0].Some? && creds[0].value.rpIdHash == hash then 1 else 0) + CountOf(creds[1..], hash)
  }

  /** The number of slots in use. */
  function Used<T>(s: seq<Option<T>>): (n: nat)
    ensures n <= |s|
  {
    if s == [] then 0 else (if s[0].Some? then 1 else 0) + Used(s[1..])
  }

  function Carries(f: Option<CredFile>, hash: Bytes): (n: nat)
  {
    if f.Some? && f.value.rpIdHash == hash then 1 else 0
  }

  /** Replacing one slot changes the count by that slot alone. */
  lemma {:induction false} CountUpdate(creds: seq<Option<CredFile>>, i: nat, f: Option<CredFile>, hash: Bytes)
    requires i < |creds|
    ensures CountOf(creds[i := f], hash) + Carries(creds[i], hash) == CountOf(creds, hash) + Carries(f, hash)
  {
    if i == 0 {
      assert creds[0 := f][1..] == creds[1..];
    } else {
      assert creds[i := f][1..] == creds[1..][i - 1 := f];
      CountUpdate(creds[1..], i - 1, f, hash);
    }
  }

  lemma {:induction false} CountPositive(creds: seq<Option<CredFile>>, hash: Bytes)
    ensures CountOf(creds, hash) > 0 <==> exists i :: 0 <= i < |creds| && Carries(creds[i], hash) == 1
  {
    if creds != [] {
      CountPositive(creds[1..], hash);
      if CountOf(creds[1..], hash) > 0 {
        var i :| 0 <= i < |creds[1..]| && Carries(creds[1..][i], hash) == 1;
        assert Carries(creds[i + 1], hash) == 1;
      }
      if i :| 0 <= i < |creds| && Carries(creds[i], hash) == 1 {
        assert i > 0 ==> Carries(creds[1..][i - 1], hash) == 1;
      }
    }
  }

  lemma {:induction false} FreeSlotUsed<T>(s: seq<Option<T>>, i: nat)
    requires i < |s| && s[i].None?
    ensures Used(s) < |s|
  {
    if i > 0 {
      FreeSlotUsed(s[1..], i - 1);
    }
  }

  lemma {:induction false} AllUsed<T>(s: seq<Option<T>>)
    requires forall i :: 0 <= i < |s| ==> s[i].Some?
    ensures Used(s) == |s|
  {
    if s != [] {
      AllUsed(s[1..]);
    }
  }

  // ---------------------------------------------------------------- the invariant

  /** No two EF_RP files carry the same hash. */
  ghost predicate HashesDistinct(rps: seq<Option<RpFile>>)
  {
    forall i, j :: 0 <= i < j < |rps| && rps[i].Some? && rps[j].Some? ==> rps[i].value.rpIdHash != rps[j].value.rpIdHash
  }

  /** Some EF_RP file carries the hash. */
  ghost predicate HasRp(rps: seq<Option<RpFile>>, hash: Bytes)
  {
    exists j :: 0 <= j < |rps| && CarriesHash(hash)(rps[j])
  }

  /** The count byte is the number of credentials modulo 256, and that number is not zero. */
  ghost predicate CountsRight(fs: Files, j: nat)
    requires j < SLOTS
  {
    fs.rps[j].Some? ==>
      var n := CountOf(fs.creds, fs.rps[j].value.rpIdHash); n > 0 && fs.rps[j].value.count == n % 256
  }

  /**
   * An RP id hash has an EF_RP file exactly when some credential carries it, it has at most one, and
   * the count byte of that file is the number of those credentials modulo 256.
   */
  ghost predicate Consistent(fs: Files)
  {
    && HashesDistinct(fs.rps)
    && (forall hash :: HasRp(fs.rps, hash) <==> CountOf(fs.creds, hash) > 0)
    && (forall j {:trigger CountsRight(fs, j)} :: 0 <= j < SLOTS ==> CountsRight(fs, j))
  }

  function HashesOf(creds: seq<Option<CredFile>>): (s: set<Bytes>)
    ensures |s| <= Used(creds)
    ensures forall i :: 0 <= i < |creds| && creds[i].Some? ==> creds[i].value.rpIdHash in s
  {
    if creds == [] then {}
    else
      var rest := HashesOf(creds[1..]);
      assert forall i :: 1 <= i < |creds| ==> creds[i] == creds[1..][i - 1];
      if creds[0].Some? then {creds[0].value.rpIdHash} + rest else rest
  }

  /** Distinct RP hashes drawn from a set need as many elements as there are files. */
  lemma {:induction false} DistinctNeedRoom(rps: seq<Option<RpFile>>, hashes: set<Bytes>)
    requires HashesDistinct(rps)
    requires forall i :: 0 <= i < |rps| && rps[i].Some? ==> rps[i].value.rpIdHash in hashes
    ensures Used(rps) <= |hashes|
  {
    if rps != [] {
      var rest := rps[1..];
      if rps[0].Some? {
        var h := rps[0].value.rpIdHash;
        assert forall i :: 0 <= i < |rest| ==> rest[i] == rps[i + 1];
        DistinctNeedRoom(rest, hashes - {h});
      } else {
        DistinctNeedRoom(rest, hashes);
      }
    }
  }

  /** While a credential slot is free, so is an RP slot: there are no more RPs than credentials. */
  lemma RpSlotFree(fs: Files, slot: nat)
    requires Consistent(fs) && slot < SLOTS && fs.creds[slot].None?
    ensures FirstWhere(fs.rps, IsFree(), 0) < SLOTS
  {
    if FirstWhere(fs.rps, IsFree(), 0) == SLOTS {
      assert forall i :: 0 <= i < SLOTS ==> !IsFree<RpFile>()(fs.rps[i]);
      AllUsed(fs.rps);
      FreeSlotUsed(fs.creds, slot);
      forall i | 0 <= i < SLOTS
        ensures fs.rps[i].value.rpIdHash in HashesOf(fs.creds)
      {
        var h := fs.rps[i].value.rpIdHash;
        assert CountsRight(fs, i);
        CountPositive(fs.creds, h);
      }
      DistinctNeedRoom(fs.rps, HashesOf(fs.creds));
    }
  }

  // ---------------------------------------------------------------- reference counting

  /** A new credential of an RP is counted: the count byte wraps, a first one creates the file. */
  function AddReference(rps: RpSlots, hash: Bytes, rpId: Bytes): Option<RpSlots>
  {
    var j := FirstWhere(rps, CarriesHash(hash), 0);
    if j < SLOTS then
      var f := rps[j].value;
      Some(rps[j := Some(RpFile((f.count + 1) % 256, f.rpIdHash, f.rpId))])
    else
      var k := FirstWhere(rps, IsFree(), 0);
      if k < SLOTS then Some(rps[k := Some(RpFile(1, hash, rpId))]) else None
  }

  /** A deleted credential is no longer counted: a count byte that reaches zero deletes the file. */
  function DropReference(rps: RpSlots, hash: Bytes): RpSlots
  {
    var j := FirstWhere(rps, CarriesHash(hash), 0);
    if j < SLOTS then
      var f := rps[j].value;
      var count := (f.count - 1) % 256;
      rps[j := if count == 0 then None else Some(RpFile(count, f.rpIdHash, f.rpId))]
    else rps
  }

  /**
   * Which EF_RP file counting a credential changes, and what is in it: the file of the hash counts one
   * more and keeps its RP id; without one a free slot gets the count 1, the hash and the RP id.
   */
  lemma AddedFile(rps: RpSlots, hash: Bytes, rpId: Bytes) returns (k: nat)
    ensures AddReference(rps, hash, rpId).None? <==>
              forall i :: 0 <= i < SLOTS ==> rps[i].Some? && rps[i].value.rpIdHash != hash
    ensures AddReference(rps, hash, rpId).Some? ==>
              && k < SLOTS
              && var f := AddReference(rps, hash, rpId).value[k];
                 && AddReference(rps, hash, rpId).value == rps[k := f]
                 && f.Some? && f.value.rpIdHash == hash
                 && (if rps[k].Some? then
                       rps[k].value.rpIdHash == hash && f.value.rpId == rps[k].value.rpId
                       && f.value.count as int == (if rps[k].value.count == 255 then 0 else rps[k].value.count + 1)
                     else
                       && f.value.rpId == rpId && f.value.count == 1
                       && forall i :: 0 <= i < SLOTS && rps[i].Some? ==> rps[i].value.rpIdHash != hash)
  {
    k := FirstWhere(rps, CarriesHash(hash), 0);
    if k == SLOTS {
      k := FirstWhere(rps, IsFree(), 0);
      forall i | 0 <= i < SLOTS && rps[i].Some?
        ensures rps[i].value.rpIdHash != hash
      {
        assert !CarriesHash(hash)(rps[i]);
      }
      if k == SLOTS {
        assert forall i :: 0 <= i < SLOTS ==> !IsFree<RpFile>()(rps[i]);
      } else {
        assert IsFree<RpFile>()(rps[k]);
      }
    }
  }

  /** A file that uncounting a credential leaves keeps its hash and its RP id. */
  lemma DroppedFile(rps: RpSlots, hash: Bytes, i: nat)
    requires i < SLOTS && DropReference(rps, hash)[i].Some?
    ensures rps[i].Some? && var f, g := rps[i].value, DropReference(rps, hash)[i].value;
            && f.rpIdHash == g.rpIdHash && f.rpId == g.rpId && (f.count != g.count ==> f.rpIdHash == hash)
  {
  }

  /** Only slot k and the count of the hash it carries have changed. */
  lemma OneHashChanged(fs: Files, after: Files, k: nat, h: Bytes)
    requires Consistent(fs) && k < SLOTS && after.rps == fs.rps[k := after.rps[k]]
    requires fs.rps[k].Some? ==> fs.rps[k].value.rpIdHash == h
    requires after.rps[k].Some? ==> after.rps[k].value.rpIdHash == h
    requires forall i :: 0 <= i < SLOTS && i != k ==> !CarriesHash(h)(fs.rps[i])
    requires forall hash :: hash != h ==> CountOf(after.creds, hash) == CountOf(fs.creds, hash)
    requires after.rps[k].Some? <==> CountOf(after.creds, h) > 0
    requires CountsRight(after, k)
    ensures Consistent(after)
  {
    hide CountOf, Used, HashesOf;
    forall hash
      ensures HasRp(after.rps, hash) <==> CountOf(after.creds, hash) > 0
    {
      if hash != h {
        SameRps(fs.rps, after.rps, k, hash);
      } else if after.rps[k].Some? {
        assert CarriesHash(h)(after.rps[k]);
      } else {
        assert forall i :: 0 <= i < SLOTS ==> !CarriesHash(h)(after.rps[i]);
      }
    }
    forall i | 0 <= i < SLOTS
      ensures CountsRight(after, i)
    {
      assert CountsRight(fs, i);
      if i != k && after.rps[i].Some? {
        assert !CarriesHash(h)(fs.rps[i]);
      }
    }
  }

  lemma AddKeeps(fs: Files, slot: nat, f: CredFile, rpId: Bytes)
    requires Consistent(fs) && slot < SLOTS && fs.creds[slot].None?
    ensures AddReference(fs.rps, f.rpIdHash, rpId).Some?
    ensures Consistent(Files(fs.creds[slot := Some(f)], AddReference(fs.rps, f.rpIdHash, rpId).value))
  {
    hide CountOf, Used, HashesOf;
    RpSlotFree(fs, slot);
    var h := f.rpIdHash;
    var after := Files(fs.creds[slot := Some(f)], AddReference(fs.rps, h, rpId).value);
    var j := FirstWhere(fs.rps, CarriesHash(h), 0);
    var k := if j < SLOTS then j else FirstWhere(fs.rps, IsFree(), 0);
    forall hash
      ensures CountOf(after.creds, hash) == CountOf(fs.creds, hash) + (if hash == h then 1 else 0)
    {
      CountUpdate(fs.creds, slot, Some(f), hash);
    }
    FirstCarrier(fs, h);
    assert CountsRight(fs, k);
    OneHashChanged(fs, after, k, h);
  }

  /** The EF_RP file of a hash is the only one, and there is one exactly when the hash is counted. */
  lemma FirstCarrier(fs: Files, h: Bytes)
    requires Consistent(fs)
    ensures var j := FirstWhere(fs.rps, CarriesHash(h), 0);
            && (j < SLOTS <==> CountOf(fs.creds, h) > 0)
            && forall i :: 0 <= i < SLOTS && i != j ==> !CarriesHash(h)(fs.rps[i])
  {
    hide CountOf;
    var j := FirstWhere(fs.rps, CarriesHash(h), 0);
    assert HasRp(fs.rps, h) <==> CountOf(fs.creds, h) > 0;
    if HasRp(fs.rps, h) {
      var i :| 0 <= i < SLOTS && CarriesHash(h)(fs.rps[i]);
      assert i >= j;
    }
  }

  /** Changing an EF_RP slot that has nothing to do with a hash does not matter for it. */
  lemma SameRps(rps: RpSlots, rps': RpSlots, k: nat, hash: Bytes)
    requires k < SLOTS && rps' == rps[k := rps'[k]]
    requires !CarriesHash(hash)(rps[k]) && !CarriesHash(hash)(rps'[k])
    ensures HasRp(rps', hash) <==> HasRp(rps, hash)
  {
    if HasRp(rps, hash) {
      var i :| 0 <= i < SLOTS && CarriesHash(hash)(rps[i]);
      assert CarriesHash(hash)(rps'[i]);
    }
    if HasRp(rps', hash) {
      var i :| 0 <= i < SLOTS && CarriesHash(hash)(rps'[i]);
      assert CarriesHash(hash)(rps[i]);
    }
  }

  lemma DropKeeps(fs: Files, slot: nat)
    requires Consistent(fs) && slot < SLOTS && fs.creds[slot].Some?
    ensures Consistent(Files(fs.creds[slot := None], DropReference(fs.rps, fs.creds[slot].value.rpIdHash)))
  {
    hide CountOf, Used, HashesOf;
    var h := fs.creds[slot].value.rpIdHash;
    var after := Files(fs.creds[slot := None], DropReference(fs.rps, h));
    var j := FirstWhere(fs.rps, CarriesHash(h), 0);
    forall hash
      ensures CountOf(after.creds, hash) == CountOf(fs.creds, hash) - (if hash == h then 1 else 0)
    {
      CountUpdate(fs.creds, slot, None, hash);
    }
    CountPositive(fs.creds, h);
    assert Carries(fs.creds[slot], h) == 1;
    FirstCarrier(fs, h);
    assert CountsRight(fs, j);
    assert CountOf(fs.creds, h) <= SLOTS;
    OneHashChanged(fs, after, j, h);
  }

  lemma ReplaceKeeps(fs: Files, slot: nat, f: CredFile)
    requires Consistent(fs) && slot < SLOTS && fs.creds[slot].Some? && fs.creds[slot].value.rpIdHash == f.rpIdHash
    ensures Consistent(Files(fs.creds[slot := Some(f)], fs.rps))
  {
    hide CountOf, Used, HashesOf;
    var after := Files(fs.creds[slot := Some(f)], fs.rps);
    forall hash
      ensures CountOf(after.creds, hash) == CountOf(fs.creds, hash)
    {
      CountUpdate(fs.creds, slot, Some(f), hash);
    }
    forall i | 0 <= i < SLOTS
      ensures CountsRight(after, i)
    {
      assert CountsRight(fs, i);
    }
  }
}
