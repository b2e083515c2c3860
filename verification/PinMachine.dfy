/**
 * The PIN of the authenticator: setPIN, changePIN and token requests of cbor_client_pin.c, and
 * setMinPINLength of cbor_config.c, on the PIN file and the minimum-length file they share. A request
 * arrives parsed and decrypted; cryptography that fails is part of the request.
 */
module PinMachine {
  import opened Bytes

  const MAX_PIN_RETRIES: Byte := 8
  const PERMISSION_BE: nat := 0x08
  const PERMISSION_ACFG: nat := 0x20

  /** EF_PIN: retries left, length of the PIN, first half of its SHA-256. */
  datatype PinFile = PinFile(retries: Byte, length: Byte, hash: Bytes)

  /** EF_MINPINLEN: minimum length, force-change flag, hashes of the RP ids that may read it. */
  datatype MinPinFile = MinPinFile(minimum: Byte, force: bool, rpIdHashes: seq<Bytes>)

  /** The pinUvAuthToken state paut, apart from its timers. */
  datatype Token = Token(inUse: bool, data: Bytes, permissions: Byte, rpIdHash: Option<Bytes>,
                         userPresent: bool, userVerified: bool)

  datatype State = State(pin: Option<PinFile>, minPin: Option<MinPinFile>, mismatches: Byte, powerCycle: bool,
                         token: Token)

  datatype Code =
    | Ok | MissingParameter | InvalidParameter | NotAllowed | PinAuthInvalid | PolicyViolation | PinNotSet
    | PinBlocked | PinAuthBlocked | PinInvalid | UnauthorizedPermission | PuatRequired

  /** SHA-256 */
  type Hash = Bytes -> Bytes

  /** The first 16 bytes, which the PIN file keeps; no more are compared. */
  function Left(b: Bytes): Bytes
  {
    if |b| <= 16 then b else b[..16]
  }

  /**
   * What a request carries: whether its required fields are present, its protocol number, whether the
   * lengths are those of the protocol, whether key agreement and the authentication of the parameters
   * succeed, and what decryption yields.
   */
  datatype SetPin = SetPin(complete: bool, protocol: nat, lengths: bool, agreed: bool, authentic: bool,
                           newPin: Option<Bytes>)
  datatype ChangePin = ChangePin(complete: bool, protocol: nat, lengths: bool, agreed: bool, authentic: bool,
                                 pinHash: Option<Bytes>, newPin: Option<Bytes>, freshToken: Bytes)
  datatype GetToken = GetToken(withPermissions: bool, complete: bool, protocol: nat, permissions: nat,
                               rpId: Option<Bytes>, agreed: bool, pinHash: Option<Bytes>, freshToken: Bytes)
  datatype SetMinLength = SetMinLength(authPresent: bool, protocol: nat, authentic: bool,
                                       newMinimum: nat, force: bool, rpIds: seq<Bytes>)

  // ---------------------------------------------------------------- reading the files

  /** The minimum length in force: 4 without a file. */
  function MinLength(s: State): (m: Byte)
  {
    if s.minPin.Some? then s.minPin.value.minimum else 4
  }

  function Forced(s: State): bool
  {
    s.minPin.Some? && s.minPin.value.force
  }

  /** The length of a zero-padded PIN. */
  function PinLength(padded: Bytes): (n: nat)
    ensures n <= |padded|
    ensures forall i :: 0 <= i < n ==> padded[i] != 0
    ensures n < |padded| ==> padded[n] == 0
  {
    FirstZero(padded, 0)
  }

  function FirstZero(padded: Bytes, i: nat): (n: nat)
    requires i <= |padded|
    ensures i <= n <= |padded|
    ensures forall j :: i <= j < n ==> padded[j] != 0
    ensures n < |padded| ==> padded[n] == 0
    decreases |padded| - i
  {
    if i == |padded| || padded[i] == 0 then i else FirstZero(padded, i + 1)
  }

  /** A decrypted PIN fills 64 bytes. */
  predicate Padded(newPin: Option<Bytes>)
  {
    newPin.Some? ==> |newPin.value| == 64
  }

  // ---------------------------------------------------------------- checking the PIN

  /** The retry counter is charged before the PIN is looked at. */
  function ChargedState(s: State): State
    requires s.pin.Some? && s.pin.value.retries > 0
  {
    s.(pin := Some(s.pin.value.(retries := s.pin.value.retries - 1)))
  }

  predicate Matches(s: State, pinHash: Option<Bytes>)
    requires s.pin.Some?
  {
    pinHash.Some? && Left(pinHash.value) == s.pin.value.hash
  }

  /** The check of changePIN and of the token requests. */
  function CheckPin(s: State, pinHash: Option<Bytes>): (Code, State)
    requires s.pin.Some? && s.pin.value.retries > 0
  {
    var c := ChargedState(s);
    if pinHash.None? then (PinAuthInvalid, c)
    else if Matches(s, pinHash) then (Ok, s.(pin := Some(s.pin.value.(retries := MAX_PIN_RETRIES)), mismatches := 0))
    else if c.pin.value.retries == 0 then (PinBlocked, c)
    else
      var m := (s.mismatches + 1) % 256;
      if m >= 3 then (PinAuthBlocked, c.(mismatches := m, powerCycle := true)) else (PinInvalid, c.(mismatches := m))
  }

  // ---------------------------------------------------------------- the commands

  function SetPinResult(h: Hash, s: State, r: SetPin): (Code, State)
    requires Padded(r.newPin)
  {
    if !r.complete || r.protocol == 0 then (MissingParameter, s)
    else if r.protocol != 1 && r.protocol != 2 then (InvalidParameter, s)
    else if s.pin.Some? then (NotAllowed, s)
    else if !r.lengths || !r.agreed then (InvalidParameter, s)
    else if !r.authentic || r.newPin.None? then (PinAuthInvalid, s)
    else
      var padded := r.newPin.value;
      if padded[63] != 0 || PinLength(padded) < MinLength(s) then (PolicyViolation, s)
      else (Ok, s.(pin := Some(PinFile(MAX_PIN_RETRIES, PinLength(padded), Left(h(padded[..PinLength(padded)]))))))
  }

  /** What changePIN does once the old PIN is right. */
  function NewPinResult(h: Hash, s: State, newPin: Option<Bytes>, freshToken: Bytes): (Code, State)
    requires Padded(newPin) && s.pin.Some?
  {
    if newPin.None? then (PinAuthInvalid, s)
    else
      var padded := newPin.value;
      if padded[63] != 0 then (InvalidParameter, s)
      else if PinLength(padded) < MinLength(s) then (PolicyViolation, s)
      else
        var f := PinFile(MAX_PIN_RETRIES, PinLength(padded), Left(h(padded[..PinLength(padded)])));
        if Forced(s) && f.hash == s.pin.value.hash then (PolicyViolation, s)
        else
          (Ok, s.(pin := Some(f),
                  minPin := if Forced(s) then Some(s.minPin.value.(force := false)) else s.minPin,
                  token := s.token.(data := freshToken, permissions := 0)))
  }

  function ChangePinResult(h: Hash, s: State, r: ChangePin): (Code, State)
    requires Padded(r.newPin)
  {
    if !r.complete || r.protocol == 0 then (MissingParameter, s)
    else if r.protocol != 1 && r.protocol != 2 then (InvalidParameter, s)
    else if s.pin.None? then (PinNotSet, s)
    else if s.pin.value.retries == 0 then (PinBlocked, s)
    else if !r.lengths || !r.agreed then (InvalidParameter, s)
    else if !r.authentic then (PinAuthInvalid, s)
    else
      var (code, checked) := CheckPin(s, r.pinHash);
      if code != Ok then (code, checked) else NewPinResult(h, checked, r.newPin, r.freshToken)
  }

  function GetTokenResult(h: Hash, s: State, r: GetToken): (Code, State)
  {
    if !r.complete || r.protocol == 0 then (MissingParameter, s)
    else if r.protocol != 1 && r.protocol != 2 then (InvalidParameter, s)
    else if !r.withPermissions && (r.permissions != 0 || r.rpId.Some?) then (InvalidParameter, s)
    else if r.withPermissions && r.permissions == 0 then (InvalidParameter, s)
    else if r.withPermissions && r.permissions / PERMISSION_BE % 2 == 1 then (UnauthorizedPermission, s)
    else if s.pin.None? then (PinNotSet, s)
    else if s.pin.value.retries == 0 then (PinBlocked, s)
    else if !r.agreed then (InvalidParameter, s)
    else
      var (code, checked) := CheckPin(s, r.pinHash);
      if code != Ok then (code, checked)
      else if Forced(s) then (PinInvalid, checked)
      else
        (Ok, checked.(token := Token(true, r.freshToken, (if r.withPermissions then r.permissions else 3) % 256,
                                     if r.rpId.Some? then Some(h(r.rpId.value)) else None, false, true)))
  }

  /** What a permission byte allows. */
  predicate Permits(s: State, permission: nat)
    requires permission > 0
  {
    s.token.permissions / permission % 2 == 1
  }

  function NewMinimum(s: State, r: SetMinLength): nat
  {
    if r.newMinimum == 0 then MinLength(s) else r.newMinimum
  }

  /** The new minimum is a 64-bit number; the file keeps its low byte. */
  function SetMinLengthResult(h: Hash, s: State, r: SetMinLength): (Code, State)
  {
    if !r.authPresent then (PuatRequired, s)
    else if r.protocol == 0 then (MissingParameter, s)
    else if !r.authentic || !Permits(s, PERMISSION_ACFG) then (PinAuthInvalid, s)
    else if NewMinimum(s, r) < MinLength(s) then (PolicyViolation, s)
    else if r.force && s.pin.None? then (PinNotSet, s)
    else
      var force := r.force || (s.pin.Some? && s.pin.value.length < NewMinimum(s, r));
      var hashes := seq(|r.rpIds|, i requires 0 <= i < |r.rpIds| => h(r.rpIds[i]));
      (Ok, s.(minPin := Some(MinPinFile(NewMinimum(s, r) % 256, force, hashes))))
  }

  // ---------------------------------------------------------------- every run

  datatype Command =
    | Set(setPin: SetPin)
    | Change(changePin: ChangePin)
    | Get(getToken: GetToken)
    | Minimum(setMinimum: SetMinLength)
    | PowerCycle

  predicate WellFormed(c: Command)
  {
    (c.Set? ==> Padded(c.setPin.newPin)) && (c.Change? ==> Padded(c.changePin.newPin))
  }

  function Result(h: Hash, s: State, c: Command): (Code, State)
    requires WellFormed(c)
  {
    match c
    case Set(r) => SetPinResult(h, s, r)
    case Change(r) => ChangePinResult(h, s, r)
    case Get(r) => GetTokenResult(h, s, r)
    case Minimum(r) => SetMinLengthResult(h, s, r)
    case PowerCycle => (Ok, s.(mismatches := 0, powerCycle := false, token := Off.(data := s.token.data)))
  }

  const Off := Token(false, [], 0, None, false, false)
  const Initial := State(None, None, 0, false, Off)

  /** What a command means for the retry counter. */
  datatype Check = Unchecked | Correct | Wrong

  /** A command is charged when it gets as far as comparing the PIN; setting a PIN counts as correct. */
  function CheckOf(h: Hash, s: State, c: Command): Check
    requires WellFormed(c)
  {
    match c
    case Set(r) => if SetPinResult(h, s, r).0 == Ok then Correct else Unchecked
    case Change(r) =>
      if r.complete && r.protocol in {1, 2} && s.pin.Some? && s.pin.value.retries > 0 && r.lengths && r.agreed && r.authentic
      then (if Matches(s, r.pinHash) then Correct else Wrong) else Unchecked
    case Get(r) =>
      if r.complete && r.protocol in {1, 2} && PermissionsFit(r) && s.pin.Some? && s.pin.value.retries > 0 && r.agreed
      then (if Matches(s, r.pinHash) then Correct else Wrong) else Unchecked
    case Minimum(_) => Unchecked
    case PowerCycle => Unchecked
  }

  predicate PermissionsFit(r: GetToken)
  {
    if r.withPermissions then r.permissions != 0 && r.permissions / PERMISSION_BE % 2 == 0
    else r.permissions == 0 && r.rpId.None?
  }

  /** The compare failed and left retries: what new_pin_mismatches is to count. */
  predicate Mismatch(h: Hash, s: State, c: Command)
    requires WellFormed(c)
  {
    CheckOf(h, s, c) == Wrong && s.pin.value.retries > 1 && (if c.Change? then c.changePin.pinHash else c.getToken.pinHash).Some?
  }

  /**
   * What a run has seen: wrong checks since the last correct one, compares that failed and left retries
   * since then or since the last power cycle, and whether PinAuthBlocked was answered since that.
   */
  datatype History = History(wrong: nat, failed: nat, blocked: bool)

  const Nothing := History(0, 0, false)

  function NextHistory(h: Hash, q: History, s: State, c: Command): History
    requires WellFormed(c)
  {
    var check := CheckOf(h, s, c);
    History(if check == Correct then 0 else if check == Wrong then q.wrong + 1 else q.wrong,
            if c.PowerCycle? || check == Correct then 0 else if Mismatch(h, s, c) then q.failed + 1 else q.failed,
            !c.PowerCycle? && (q.blocked || Result(h, s, c).0 == PinAuthBlocked))
  }

  /** The state and the history after a run. */
  function Run(h: Hash, s: State, q: History, commands: seq<Command>): (State, History)
    requires forall c :: c in commands ==> WellFormed(c)
  {
    if commands == [] then (s, q)
    else
      var last := commands[|commands| - 1];
      assert last in commands;
      var (t, q') := Run(h, s, q, commands[..|commands| - 1]);
      (Result(h, t, last).1, NextHistory(h, q', t, last))
  }

  /**
   * What holds in every state: a stored PIN is long enough or has to be changed, eight less the
   * retries is the number of wrong checks since the last correct one, the mismatch counter is the
   * number of failed compares, the flag tells of a PinAuthBlocked, and permissions mean a stored PIN.
   */
  ghost predicate Safe(s: State, q: History)
  {
    && (s.pin.Some? ==> s.pin.value.length >= MinLength(s) || Forced(s))
    && (s.pin.Some? ==> s.pin.value.retries + q.wrong == MAX_PIN_RETRIES)
    && (s.pin.None? ==> q.wrong == 0)
    && s.mismatches == q.failed <= q.wrong
    && s.powerCycle == q.blocked
    && (s.token.permissions > 0 ==> s.pin.Some?)
  }

  lemma CommandKeepsSafe(h: Hash, s: State, q: History, c: Command)
    requires Safe(s, q) && WellFormed(c)
    ensures Safe(Result(h, s, c).1, NextHistory(h, q, s, c))
  {
    match c
    case Set(r) => SetKeepsSafe(h, s, q, r);
    case Change(r) => ChangeKeepsSafe(h, s, q, r);
    case Get(r) => GetKeepsSafe(h, s, q, r);
    case Minimum(_) =>
    case PowerCycle =>
  }

  lemma SetKeepsSafe(h: Hash, s: State, q: History, r: SetPin)
    requires Safe(s, q) && WellFormed(Set(r))
    ensures Safe(SetPinResult(h, s, r).1, NextHistory(h, q, s, Set(r)))
  {
  }

  lemma ChangeKeepsSafe(h: Hash, s: State, q: History, r: ChangePin)
    requires Safe(s, q) && WellFormed(Change(r))
    ensures Safe(ChangePinResult(h, s, r).1, NextHistory(h, q, s, Change(r)))
  {
  }

  lemma GetKeepsSafe(h: Hash, s: State, q: History, r: GetToken)
    requires Safe(s, q)
    ensures Safe(GetTokenResult(h, s, r).1, NextHistory(h, q, s, Get(r)))
  {
  }

  /** Every run keeps it. */
  lemma {:induction false} RunKeepsSafe(h: Hash, commands: seq<Command>)
    requires forall c :: c in commands ==> WellFormed(c)
    ensures var (s, q) := Run(h, Initial, Nothing, commands); Safe(s, q)
  {
    if commands != [] {
      RunKeepsSafe(h, commands[..|commands| - 1]);
      var (t, q) := Run(h, Initial, Nothing, commands[..|commands| - 1]);
      assert commands[|commands| - 1] in commands;
      CommandKeepsSafe(h, t, q, commands[|commands| - 1]);
    }
  }

  // ---------------------------------------------------------------- three mismatches

  /** PinAuthBlocked is answered exactly from the third failed compare on, while retries are left. */
  lemma BlockedFromTheThird(h: Hash, s: State, q: History, c: Command)
    requires Safe(s, q) && WellFormed(c)
    ensures Result(h, s, c).0 == PinAuthBlocked <==> Mismatch(h, s, c) && q.failed >= 2
    ensures Mismatch(h, s, c) ==> Result(h, s, c).0 == (if q.failed >= 2 then PinAuthBlocked else PinInvalid)
  {
  }

  /** The state with the power-cycle flag set or clear. */
  function Flagged(s: State, flag: bool): State
  {
    s.(powerCycle := flag)
  }

  lemma FlagIgnoredByChange(h: Hash, s: State, r: ChangePin, flag: bool)
    requires Padded(r.newPin)
    ensures var (code, t) := ChangePinResult(h, Flagged(s, flag), r);
            var (code', t') := ChangePinResult(h, s, r);
            code == code' && Flagged(t, false) == Flagged(t', false)
  {
    if s.pin.Some? && s.pin.value.retries > 0 {
      FlagIgnoredByCheck(s, r.pinHash, flag);
    }
  }

  lemma FlagIgnoredByToken(h: Hash, s: State, r: GetToken, flag: bool)
    ensures var (code, t) := GetTokenResult(h, Flagged(s, flag), r);
            var (code', t') := GetTokenResult(h, s, r);
            code == code' && Flagged(t, false) == Flagged(t', false)
  {
    hide CheckPin;
    if s.pin.Some? && s.pin.value.retries > 0 {
      FlagIgnoredByCheck(s, r.pinHash, flag);
    }
  }

  lemma FlagIgnoredByCheck(s: State, pinHash: Option<Bytes>, flag: bool)
    requires s.pin.Some? && s.pin.value.retries > 0
    ensures var (code, t) := CheckPin(Flagged(s, flag), pinHash);
            var (code', t') := CheckPin(s, pinHash);
            code == code' && Flagged(t, false) == Flagged(t', false) && t.pin.Some?
  {
  }

  /** No command looks at the power-cycle flag: status, check and all other state are those without it. */
  lemma FlagIgnored(h: Hash, s: State, c: Command, flag: bool)
    requires WellFormed(c)
    ensures Result(h, Flagged(s, flag), c).0 == Result(h, s, c).0
    ensures CheckOf(h, Flagged(s, flag), c) == CheckOf(h, s, c) && (Mismatch(h, Flagged(s, flag), c) <==> Mismatch(h, s, c))
    ensures Flagged(Result(h, Flagged(s, flag), c).1, false) == Flagged(Result(h, s, c).1, false)
  {
    hide ChangePinResult, GetTokenResult;
    match c
    case Change(r) => FlagIgnoredByChange(h, s, r, flag);
    case Get(r) => FlagIgnoredByToken(h, s, r, flag);
    case Set(_) =>
    case Minimum(_) =>
    case PowerCycle =>
  }

  /** So whole runs are the same with and without the flag. */
  lemma {:induction false} FlagIgnoredInRuns(h: Hash, s: State, q: History, commands: seq<Command>, flag: bool)
    requires forall c :: c in commands ==> WellFormed(c)
    ensures var (t, q1) := Run(h, Flagged(s, flag), q, commands);
            var (u, q2) := Run(h, s, q, commands);
            Flagged(t, false) == Flagged(u, false) && q1 == q2
  {
    hide Result, CheckOf, Mismatch;
    if commands != [] {
      var before, last := commands[..|commands| - 1], commands[|commands| - 1];
      assert last in commands;
      FlagIgnoredInRuns(h, s, q, before, flag);
      var t, u := Run(h, Flagged(s, flag), q, before).0, Run(h, s, q, before).0;
      assert t == Flagged(u, t.powerCycle);
      FlagIgnored(h, u, last, t.powerCycle);
    }
  }

  /** A padded PIN that setPIN accepts when the minimum is 4. */
  predicate Acceptable(padded: Bytes)
  {
    |padded| == 64 && padded[63] == 0 && PinLength(padded) >= 4
  }

  function PinHash(h: Hash, padded: Bytes): Bytes
  {
    h(padded[..PinLength(padded)])
  }

  function Setting(padded: Bytes): Command
  {
    Set(SetPin(true, 1, true, true, true, Some(padded)))
  }

  function Asking(permissions: nat, pinHash: Bytes, freshToken: Bytes): Command
  {
    Get(GetToken(true, true, 1, permissions, None, true, Some(pinHash), freshToken))
  }

  lemma RunSnoc(h: Hash, s: State, q: History, commands: seq<Command>, c: Command)
    requires (forall d :: d in commands ==> WellFormed(d)) && WellFormed(c)
    ensures var (t, q') := Run(h, s, q, commands);
            Run(h, s, q, commands + [c]) == (Result(h, t, c).1, NextHistory(h, q', t, c))
  {
    assert (commands + [c])[..|commands|] == commands;
  }

  /**
   * After setPIN and three token requests with a wrong PIN the answer is PinAuthBlocked and the flag is
   * set, and yet the right PIN gets a token at once: every PIN, every wrong hash.
   */
  lemma TokenWhileBlocked(h: Hash, padded: Bytes, wrongHash: Bytes, permissions: nat, t: Bytes)
    requires Acceptable(padded) && Left(wrongHash) != Left(PinHash(h, padded))
    requires permissions > 0 && permissions / PERMISSION_BE % 2 == 0
    ensures var wrong := Asking(permissions, wrongHash, t);
            var s := Run(h, Initial, Nothing, [Setting(padded), wrong, wrong]).0;
            var blocked := Run(h, Initial, Nothing, [Setting(padded), wrong, wrong, wrong]).0;
            && Result(h, s, wrong).0 == PinAuthBlocked
            && blocked == Result(h, s, wrong).1 && blocked.powerCycle
            && Result(h, blocked, Asking(permissions, PinHash(h, padded), t)).0 == Ok
  {
    hide Run, Result;
    var wrong := Asking(permissions, wrongHash, t);
    var file := PinFile(8, PinLength(padded), Left(PinHash(h, padded)));
    RunEmpty(h, Initial, Nothing);
    RunSnoc(h, Initial, Nothing, [], Setting(padded));
    RunSnoc(h, Initial, Nothing, [Setting(padded)], wrong);
    RunSnoc(h, Initial, Nothing, [Setting(padded), wrong], wrong);
    RunSnoc(h, Initial, Nothing, [Setting(padded), wrong, wrong], wrong);
    assert [] + [Setting(padded)] == [Setting(padded)];
    assert [Setting(padded)] + [wrong] == [Setting(padded), wrong];
    assert [Setting(padded), wrong] + [wrong] == [Setting(padded), wrong, wrong];
    assert [Setting(padded), wrong, wrong] + [wrong] == [Setting(padded), wrong, wrong, wrong];
    FirstPin(h, padded);
    WrongAnswer(h, Initial.(pin := Some(file)), permissions, wrongHash, t);
    WrongAnswer(h, Initial.(pin := Some(file.(retries := 7)), mismatches := 1), permissions, wrongHash, t);
    WrongAnswer(h, Initial.(pin := Some(file.(retries := 6)), mismatches := 2), permissions, wrongHash, t);
    RightAnswer(h, Initial.(pin := Some(file.(retries := 5)), mismatches := 3, powerCycle := true), permissions,
                PinHash(h, padded), t);
  }

  lemma RunEmpty(h: Hash, s: State, q: History)
    ensures Run(h, s, q, []) == (s, q)
  {
  }

  lemma FirstPin(h: Hash, padded: Bytes)
    requires Acceptable(padded)
    ensures Result(h, Initial, Setting(padded))
         == (Ok, Initial.(pin := Some(PinFile(8, PinLength(padded), Left(PinHash(h, padded))))))
  {
  }

  lemma WrongAnswer(h: Hash, s: State, permissions: nat, wrongHash: Bytes, t: Bytes)
    requires permissions > 0 && permissions / PERMISSION_BE % 2 == 0
    requires s.pin.Some? && s.pin.value.retries > 1 && Left(wrongHash) != s.pin.value.hash && s.mismatches < 8
    ensures Result(h, s, Asking(permissions, wrongHash, t))
         == (if s.mismatches >= 2 then PinAuthBlocked else PinInvalid,
             ChargedState(s).(mismatches := s.mismatches + 1, powerCycle := s.mismatches >= 2 || s.powerCycle))
  {
  }

  lemma RightAnswer(h: Hash, s: State, permissions: nat, pinHash: Bytes, t: Bytes)
    requires permissions > 0 && permissions / PERMISSION_BE % 2 == 0
    requires s.pin.Some? && s.pin.value.retries > 0 && Left(pinHash) == s.pin.value.hash && !Forced(s)
    ensures Result(h, s, Asking(permissions, pinHash, t))
         == (Ok, s.(pin := Some(s.pin.value.(retries := 8)), mismatches := 0,
                    token := Token(true, t, permissions % 256, None, false, true)))
  {
  }

  // ---------------------------------------------------------------- tokens, retries and PIN changes

  /** A token is issued exactly to a well-formed request with the right PIN when no change is forced. */
  lemma TokenIssued(h: Hash, s: State, q: History, r: GetToken)
    requires Safe(s, q)
    ensures GetTokenResult(h, s, r).0 == Ok <==>
            && CheckOf(h, s, Get(r)) == Correct && !Forced(s)
    ensures GetTokenResult(h, s, r).0 == Ok ==> s.pin.Some? && s.pin.value.length >= MinLength(s)
    ensures GetTokenResult(h, s, r).0 != Ok ==> GetTokenResult(h, s, r).1.token == s.token
  {
  }

  /** Without retries no command changes the PIN file. */
  lemma LockedStep(h: Hash, s: State, c: Command)
    requires WellFormed(c) && s.pin.Some? && s.pin.value.retries == 0
    ensures Result(h, s, c).1.pin == s.pin && CheckOf(h, s, c) == Unchecked
    ensures c.Change? || c.Get? ==> Result(h, s, c).0 != Ok
  {
  }

  /** Without retries no run of commands changes the PIN file, power cycles included. */
  lemma {:induction false} LockedForEver(h: Hash, s: State, q: History, commands: seq<Command>)
    requires forall c :: c in commands ==> WellFormed(c)
    requires s.pin.Some? && s.pin.value.retries == 0
    ensures Run(h, s, q, commands).0.pin == s.pin
  {
    if commands != [] {
      LockedForEver(h, s, q, commands[..|commands| - 1]);
      assert commands[|commands| - 1] in commands;
      LockedStep(h, Run(h, s, q, commands[..|commands| - 1]).0, commands[|commands| - 1]);
    }
  }

  /** The retry counter runs out exactly at the eighth wrong check after a correct one. */
  lemma EightChecks(h: Hash, commands: seq<Command>)
    requires forall c :: c in commands ==> WellFormed(c)
    ensures var (s, q) := Run(h, Initial, Nothing, commands);
            q.wrong <= 8 && (s.pin.Some? ==> (s.pin.value.retries == 0 <==> q.wrong == 8))
  {
    hide Run;
    RunKeepsSafe(h, commands);
    var s: State := Run(h, Initial, Nothing, commands).0;
    if s.pin.Some? {
      var f: PinFile := s.pin.value;
      assert f.retries >= 0;
    }
  }

  /** The stored PIN itself changes only by setPIN without one, or by changePIN with the right old one. */
  lemma PinChanges(h: Hash, s: State, c: Command)
    requires WellFormed(c) && Result(h, s, c).1.pin.Some?
    requires s.pin.Some? ==> Result(h, s, c).1.pin.value.hash != s.pin.value.hash
                             || Result(h, s, c).1.pin.value.length != s.pin.value.length
    ensures Result(h, s, c).0 == Ok && MinLength(s) <= Result(h, s, c).1.pin.value.length < 64
    ensures if s.pin.None? then c.Set? else c.Change? && Matches(s, c.changePin.pinHash)
  {
  }

  /** The request is authorised: its parameter verifies and the token carries the configuration permission. */
  predicate Authorised(s: State, r: SetMinLength)
  {
    r.authPresent && r.protocol != 0 && r.authentic && Permits(s, PERMISSION_ACFG)
  }

  /**
   * The file keeps the low byte of the new minimum, so the minimum drops exactly when an authorised
   * request asks for one that does not fit a byte, whose low byte is smaller, and which does not force
   * a change without a PIN.
   */
  lemma MinimumDrops(h: Hash, s: State, r: SetMinLength)
    ensures MinLength(SetMinLengthResult(h, s, r).1) < MinLength(s)
            <==> Authorised(s, r) && r.newMinimum >= 256 && r.newMinimum % 256 < MinLength(s)
                 && !(r.force && s.pin.None?)
    ensures r.newMinimum < 256 && SetMinLengthResult(h, s, r).0 == Ok ==>
              MinLength(SetMinLengthResult(h, s, r).1) == NewMinimum(s, r)
  {
  }

  /** In every run an accepted setMinPINLength finds a stored PIN: there is no token without one. */
  lemma MinimumNeedsPin(h: Hash, s: State, q: History, r: SetMinLength)
    requires Safe(s, q) && SetMinLengthResult(h, s, r).0 == Ok
    ensures s.pin.Some?
  {
  }

  const EmptyPin: Bytes := seq(64, _ => 0)

  lemma EmptyPinLength()
    ensures PinLength(EmptyPin) == 0 && EmptyPin[..0] == []
  {
  }

  /** setPIN accepts an otherwise good request for the empty PIN exactly when the minimum is 0. */
  lemma EmptyPinSet(h: Hash, s: State)
    requires s.pin.None?
    ensures Result(h, s, Setting(EmptyPin)).0 == Ok <==> MinLength(s) == 0
  {
    EmptyPinLength();
  }

  function Changing(pinHash: Bytes, padded: Bytes, freshToken: Bytes): Command
  {
    Change(ChangePin(true, 1, true, true, true, Some(pinHash), Some(padded), freshToken))
  }

  /**
   * changePIN accepts the empty PIN with the right old one exactly when the minimum is 0 and no change
   * to the same hash is being forced.
   */
  lemma EmptyPinChange(h: Hash, s: State, pinHash: Bytes, t: Bytes)
    requires s.pin.Some? && s.pin.value.retries > 0 && Left(pinHash) == s.pin.value.hash
    ensures var (code, after) := Result(h, s, Changing(pinHash, EmptyPin, t));
            && (code == Ok <==> MinLength(s) == 0 && !(Forced(s) && Left(h([])) == s.pin.value.hash))
            && (code == Ok ==> after.pin == Some(PinFile(8, 0, Left(h([])))))
  {
    EmptyPinLength();
  }

  /**
   * Such a run exists for every first PIN: with a token for configuration, setMinPINLength to 256
   * leaves a minimum of 0 and forces a change, and changePIN then stores the empty PIN.
   */
  lemma MinimumCanDrop(h: Hash, padded: Bytes, t: Bytes)
    requires Acceptable(padded) && Left(h([])) != Left(PinHash(h, padded))
    ensures var pinHash := PinHash(h, padded);
            var commands := [Setting(padded), Asking(PERMISSION_ACFG, pinHash, t),
                             Minimum(SetMinLength(true, 1, true, 256, false, []))];
            var s := Run(h, Initial, Nothing, commands).0;
            && s.minPin == Some(MinPinFile(0, true, []))
            && Result(h, s, Changing(pinHash, EmptyPin, t)).0 == Ok
            && Result(h, s, Changing(pinHash, EmptyPin, t)).1.pin.value.length == 0
  {
    hide Run, Result;
    var pinHash := PinHash(h, padded);
    var ask, set256 := Asking(PERMISSION_ACFG, pinHash, t), Minimum(SetMinLength(true, 1, true, 256, false, []));
    var s1 := Initial.(pin := Some(PinFile(8, PinLength(padded), Left(pinHash))));
    var s2 := s1.(token := Token(true, t, 0x20, None, false, true));
    RunEmpty(h, Initial, Nothing);
    RunSnoc(h, Initial, Nothing, [], Setting(padded));
    RunSnoc(h, Initial, Nothing, [Setting(padded)], ask);
    RunSnoc(h, Initial, Nothing, [Setting(padded), ask], set256);
    assert [] + [Setting(padded)] == [Setting(padded)];
    assert [Setting(padded)] + [ask] == [Setting(padded), ask];
    assert [Setting(padded), ask] + [set256] == [Setting(padded), ask, set256];
    FirstPin(h, padded);
    RightAnswer(h, s1, PERMISSION_ACFG, pinHash, t);
    SetTo256(h, s2);
    EmptyPinChange(h, s2.(minPin := Some(MinPinFile(0, true, []))), pinHash, t);
  }

  lemma SetTo256(h: Hash, s: State)
    requires s.token.permissions == 0x20 && s.pin.Some? && s.pin.value.length < 64
    ensures Result(h, s, Minimum(SetMinLength(true, 1, true, 256, false, [])))
         == (Ok, s.(minPin := Some(MinPinFile(0, true, []))))
  {
    var r := SetMinLength(true, 1, true, 256, false, []);
    assert Permits(s, PERMISSION_ACFG) && NewMinimum(s, r) == 256;
    assert seq(|r.rpIds|, i requires 0 <= i < |r.rpIds| => h(r.rpIds[i])) == [];
  }

  /**
   * A forced change is lifted only by changePIN to a PIN with another hash, or by a setMinPINLength
   * that does not force and leaves the stored PIN long enough.
   */
  lemma ForceLifted(h: Hash, s: State, c: Command)
    requires WellFormed(c) && Forced(s)
    ensures !Forced(Result(h, s, c).1) <==>
            Result(h, s, c).0 == Ok
            && (c.Change?
                || (c.Minimum? && !c.setMinimum.force
                    && (s.pin.Some? ==> s.pin.value.length >= NewMinimum(s, c.setMinimum))))
    ensures c.Change? && Result(h, s, c).0 == Ok ==> Result(h, s, c).1.pin.value.hash != s.pin.value.hash
  {
  }

  // ---------------------------------------------------------------- what each command accepts

  lemma LeftIs(b: Bytes)
    ensures |b| >= 16 ==> Left(b) == b[..16]
    ensures |b| < 16 ==> Left(b) == b
  {
    assert |b| == 16 ==> b[..16] == b;
  }

  /** The minimum length in force is 4 until setMinPINLength has written another. */
  lemma MinimumInForceIs(s: State)
    ensures MinLength(s) == match s.minPin case Some(f) => f.minimum case None => 4
    ensures Forced(s) <==> s.minPin.Some? && s.minPin.value.force
  {
  }

  /** When setPIN is refused and why; accepted, it stores the PIN with eight retries and changes nothing else. */
  lemma SetPinOutcome(h: Hash, s: State, r: SetPin)
    requires Padded(r.newPin)
    ensures var (code, t) := SetPinResult(h, s, r);
            var known := r.complete && (r.protocol == 1 || r.protocol == 2);
            var first := known && s.pin.None?;
            var trusted := first && r.lengths && r.agreed && r.authentic && r.newPin.Some?;
            && (code == MissingParameter <==> !r.complete || r.protocol == 0)
            && (code == NotAllowed <==> known && s.pin.Some?)
            && (code == PinAuthInvalid <==> first && r.lengths && r.agreed && !(r.authentic && r.newPin.Some?))
            && (code == PolicyViolation <==>
                  trusted && !(r.newPin.value[63] == 0 && PinLength(r.newPin.value) >= MinLength(s)))
            && (code == Ok <==> trusted && r.newPin.value[63] == 0 && PinLength(r.newPin.value) >= MinLength(s))
            && t == (if code == Ok then
                       var n := PinLength(r.newPin.value); s.(pin := Some(PinFile(8, n, Left(h(r.newPin.value[..n])))))
                     else s)
  {
  }

  /** The right PIN was given in a request that is complete and authentic, while retries are left. */
  predicate RightPin(s: State, complete: bool, protocol: nat, sound: bool, pinHash: Option<Bytes>)
  {
    && complete && (protocol == 1 || protocol == 2) && s.pin.Some? && s.pin.value.retries > 0 && sound
    && pinHash.Some? && (if |pinHash.value| >= 16 then pinHash.value[..16] else pinHash.value) == s.pin.value.hash
  }

  /**
   * When changePIN is accepted; it stores the new PIN with eight retries, lifts a forced change, clears the
   * mismatches, and gives a fresh token without permissions.
   */
  lemma ChangePinOutcome(h: Hash, s: State, r: ChangePin)
    requires Padded(r.newPin)
    ensures var (code, t) := ChangePinResult(h, s, r);
            && (code == Ok <==>
                  && RightPin(s, r.complete, r.protocol, r.lengths && r.agreed && r.authentic, r.pinHash)
                  && r.newPin.Some? && r.newPin.value[63] == 0 && PinLength(r.newPin.value) >= MinLength(s)
                  && !(Forced(s) && Left(h(r.newPin.value[..PinLength(r.newPin.value)])) == s.pin.value.hash))
            && (code == Ok ==>
                  var n := PinLength(r.newPin.value);
                  && t.pin == Some(PinFile(8, n, Left(h(r.newPin.value[..n]))))
                  && t.minPin == (if Forced(s) then Some(s.minPin.value.(force := false)) else s.minPin)
                  && t.mismatches == 0 && t.powerCycle == s.powerCycle
                  && t.token == s.token.(data := r.freshToken, permissions := 0))
            && (code != Ok ==> t.minPin == s.minPin && t.token == s.token)
  {
    if r.pinHash.Some? {
      LeftIs(r.pinHash.value);
    }
  }

  /** When a token is issued, and with what: subcommand 0x05 gives permissions 3 and no RP id. */
  lemma TokenOutcome(h: Hash, s: State, r: GetToken)
    ensures var (code, t) := GetTokenResult(h, s, r);
            && (code == Ok <==>
                  && RightPin(s, r.complete, r.protocol, r.agreed, r.pinHash) && !Forced(s)
                  && (if r.withPermissions then r.permissions > 0 && r.permissions / 8 % 2 == 0
                      else r.permissions == 0 && r.rpId.None?))
            && (code == Ok ==>
                  && t.token.data == r.freshToken && t.token.inUse && t.token.userVerified && !t.token.userPresent
                  && t.token.permissions == (if r.withPermissions then r.permissions % 256 else 0x01 + 0x02)
                  && t.token.rpIdHash == (if r.rpId.Some? then Some(h(r.rpId.value)) else None)
                  && t == s.(pin := Some(s.pin.value.(retries := 8)), mismatches := 0, token := t.token))
            && (code != Ok ==> t.minPin == s.minPin && t.token == s.token)
  {
    if r.pinHash.Some? {
      LeftIs(r.pinHash.value);
    }
  }

  /** A changePIN or token request gets as far as the stored PIN, which is charged before it is compared. */
  predicate Reaches(s: State, c: Command)
  {
    && s.pin.Some? && s.pin.value.retries > 0
    && match c
       case Change(r) => r.complete && (r.protocol == 1 || r.protocol == 2) && r.lengths && r.agreed && r.authentic
       case Get(r) =>
         && r.complete && (r.protocol == 1 || r.protocol == 2) && r.agreed
         && (if r.withPermissions then r.permissions > 0 && r.permissions / 8 % 2 == 0
             else r.permissions == 0 && r.rpId.None?)
       case _ => false
  }

  /** What every command does to the retries, and the status of a failed compare. */
  lemma RetryOutcome(h: Hash, s: State, c: Command)
    requires WellFormed(c) && s.pin.Some?
    ensures var (code, t) := Result(h, s, c);
            var given := if c.Change? then c.changePin.pinHash else if c.Get? then c.getToken.pinHash else None;
            var right := given.Some? && (if |given.value| >= 16 then given.value[..16] else given.value) == s.pin.value.hash;
            && t.pin.Some?
            && t.pin.value.retries as int == (if !Reaches(s, c) then s.pin.value.retries
                                              else if right then 8 else s.pin.value.retries - 1)
            && (Reaches(s, c) && given.None? ==> code == PinAuthInvalid)
            && (Reaches(s, c) && given.Some? && !right ==>
                  code == if s.pin.value.retries == 1 then PinBlocked
                          else if (s.mismatches + 1) % 256 >= 3 then PinAuthBlocked else PinInvalid)
  {
    hide ChangePinResult, GetTokenResult;
    match c
    case Change(r) => ChangeRetries(h, s, r);
    case Get(r) => TokenRetries(h, s, r);
    case Set(_) =>
    case Minimum(_) =>
    case PowerCycle =>
  }

  /** A check charges one retry, and a right PIN restores all eight. */
  lemma CheckOutcome(s: State, pinHash: Option<Bytes>)
    requires s.pin.Some? && s.pin.value.retries > 0
    ensures var (code, t) := CheckPin(s, pinHash);
            var right := pinHash.Some? && (if |pinHash.value| >= 16 then pinHash.value[..16] else pinHash.value) == s.pin.value.hash;
            && (code == Ok <==> right)
            && t.pin == Some(s.pin.value.(retries := if right then 8 else s.pin.value.retries - 1))
            && (pinHash.None? ==> code == PinAuthInvalid)
            && (pinHash.Some? && !right ==>
                  code == if s.pin.value.retries == 1 then PinBlocked
                          else if (s.mismatches + 1) % 256 >= 3 then PinAuthBlocked else PinInvalid)
  {
    if pinHash.Some? {
      LeftIs(pinHash.value);
    }
  }

  lemma ChangeRetries(h: Hash, s: State, r: ChangePin)
    requires Padded(r.newPin) && s.pin.Some?
    ensures var (code, t) := ChangePinResult(h, s, r);
            if Reaches(s, Change(r)) then
              var (checked, u) := CheckPin(s, r.pinHash);
              t.pin.Some? && t.pin.value.retries == u.pin.value.retries && (checked != Ok ==> code == checked)
            else t == s
  {
    hide CheckPin;
    if s.pin.value.retries > 0 {
      CheckOutcome(s, r.pinHash);
    }
  }

  lemma TokenRetries(h: Hash, s: State, r: GetToken)
    requires s.pin.Some?
    ensures var (code, t) := GetTokenResult(h, s, r);
            if Reaches(s, Get(r)) then
              var (checked, u) := CheckPin(s, r.pinHash);
              t.pin.Some? && t.pin.value.retries == u.pin.value.retries && (checked != Ok ==> code == checked)
            else t == s
  {
    hide CheckPin;
    if s.pin.value.retries > 0 {
      CheckOutcome(s, r.pinHash);
    }
  }

  /** When setMinPINLength is accepted, and what it writes; refused, it changes nothing. */
  lemma SetMinLengthOutcome(h: Hash, s: State, r: SetMinLength)
    ensures var (code, t) := SetMinLengthResult(h, s, r);
            var asked := if r.newMinimum == 0 then MinLength(s) else r.newMinimum;
            && (code == Ok <==>
                  && r.authPresent && r.protocol != 0 && r.authentic && s.token.permissions / 0x20 % 2 == 1
                  && asked >= MinLength(s) && (r.force ==> s.pin.Some?))
            && (code == Ok ==>
                  && t.minPin.Some? && t == s.(minPin := t.minPin)
                  && t.minPin.value.minimum == asked % 256
                  && (t.minPin.value.force <==> r.force || (s.pin.Some? && s.pin.value.length < asked))
                  && |t.minPin.value.rpIdHashes| == |r.rpIds|
                  && forall i :: 0 <= i < |r.rpIds| ==> t.minPin.value.rpIdHashes[i] == h(r.rpIds[i]))
            && (code != Ok ==> t == s)
  {
  }

  // ---------------------------------------------------------------- the token

  /** Which commands change the token: an accepted changePIN or token request, and a power cycle. */
  lemma TokenFrame(h: Hash, s: State, c: Command)
    requires WellFormed(c)
    ensures var (code, t) := Result(h, s, c);
            match c
            case Set(_) => t.token == s.token
            case Minimum(_) => t.token == s.token
            case Change(r) =>
              t.token == if code == Ok then s.token.(data := r.freshToken, permissions := 0) else s.token
            case Get(r) =>
              t.token == if code == Ok
                         then Token(true, r.freshToken, if r.withPermissions then r.permissions % 256 else 3,
                                    if r.rpId.Some? then Some(h(r.rpId.value)) else None, false, true)
                         else s.token
            case PowerCycle => t.token == Token(false, s.token.data, 0, None, false, false)
  {
    match c
    case Change(r) => ChangePinOutcome(h, s, r);
    case Get(r) => TokenOutcome(h, s, r);
    case Set(_) =>
    case Minimum(_) =>
    case PowerCycle =>
  }

  /** No token request among the first k commands succeeds. */
  ghost predicate NoneIssued(h: Hash, s: State, q: History, commands: seq<Command>, k: nat)
    requires k <= |commands| && forall c :: c in commands ==> WellFormed(c)
  {
    forall j :: 0 <= j < k ==> !Issues(h, Run(h, s, q, commands[..j]).0, commands[j])
  }

  predicate Issues(h: Hash, s: State, c: Command)
    requires WellFormed(c)
  {
    c.Get? && Result(h, s, c).0 == Ok
  }

  lemma {:induction false} PermissionsStayOff(h: Hash, s: State, q: History, commands: seq<Command>, k: nat)
    requires k <= |commands| && forall c :: c in commands ==> WellFormed(c)
    requires s.token.permissions == 0 && NoneIssued(h, s, q, commands, k)
    ensures Run(h, s, q, commands[..k]).0.token.permissions == 0
  {
    hide Result;
    if k > 0 {
      PermissionsStayOff(h, s, q, commands, k - 1);
      assert commands[..k][..k - 1] == commands[..k - 1];
      assert commands[k - 1] in commands && !Issues(h, Run(h, s, q, commands[..k - 1]).0, commands[k - 1]);
      TokenFrame(h, Run(h, s, q, commands[..k - 1]).0, commands[k - 1]);
    }
  }

  /**
   * Once a changePIN is accepted, no setMinPINLength is, whatever other commands come in between, until a
   * token request has succeeded.
   */
  lemma ChangeRevokes(h: Hash, s: State, q: History, r: ChangePin, commands: seq<Command>, k: nat)
    requires Padded(r.newPin) && Result(h, s, Change(r)).0 == Ok
    requires k < |commands| && commands[k].Minimum? && forall c :: c in commands ==> WellFormed(c)
    requires NoneIssued(h, Result(h, s, Change(r)).1, q, commands, k)
    ensures Result(h, Run(h, Result(h, s, Change(r)).1, q, commands[..k]).0, commands[k]).0
            in {PuatRequired, MissingParameter, PinAuthInvalid}
  {
    hide Run, NoneIssued;
    TokenFrame(h, s, Change(r));
    PermissionsStayOff(h, Result(h, s, Change(r)).1, q, commands, k);
  }

  // ---------------------------------------------------------------- the implementation

  class Authenticator {
    var pin: Option<PinFile>
    var minPin: Option<MinPinFile>
    var newPinMismatches: Byte
    var needsPowerCycle: bool
    var paut: Token

    function Contents(): State
      reads this
    {
      State(pin, minPin, newPinMismatches, needsPowerCycle, paut)
    }

    constructor ()
      ensures Contents() == Initial
    {
      pin, minPin, newPinMismatches, needsPowerCycle, paut := None, None, 0, false, Off;
    }

    /** The loop that measures a padded PIN. */
    static method MeasurePin(padded: Bytes) returns (pinLen: Byte)
      requires |padded| == 64
      ensures pinLen == PinLength(padded)
    {
      var n := 0;
      while n < 64 && padded[n] != 0
        invariant 0 <= n <= 64
        invariant FirstZero(padded, n) == FirstZero(padded, 0)
      {
        n := n + 1;
      }
      pinLen := n;
    }

    method MinimumInForce() returns (minimum: Byte)
      ensures minimum == MinLength(Contents())
    {
      minimum := 4;
      if minPin.Some? {
        minimum := minPin.value.minimum;
      }
    }

    /** Subcommand 0x03 */
    method SetPin(h: Hash, r: SetPin) returns (code: Code)
      requires Padded(r.newPin)
      modifies this
      ensures (code, Contents()) == SetPinResult(h, old(Contents()), r)
    {
      if !r.complete || r.protocol == 0 {
        return MissingParameter;
      }
      if r.protocol != 1 && r.protocol != 2 {
        return InvalidParameter;
      }
      if pin.Some? {
        return NotAllowed;
      }
      if !r.lengths {
        return InvalidParameter;
      }
      if !r.agreed {
        return InvalidParameter;
      }
      if !r.authentic {
        return PinAuthInvalid;
      }
      if r.newPin.None? {
        return PinAuthInvalid;
      }
      var padded := r.newPin.value;
      if padded[63] != 0 {
        return PolicyViolation;
      }
      var pinLen := MeasurePin(padded);
      var minimum := MinimumInForce();
      if pinLen < minimum {
        return PolicyViolation;
      }
      pin := Some(PinFile(MAX_PIN_RETRIES, pinLen, Left(h(padded[..pinLen]))));
      return Ok;
    }

    /** The part changePIN and the token requests share: charge, compare, restore. */
    method Check(pinHash: Option<Bytes>) returns (code: Code)
      requires pin.Some? && pin.value.retries > 0
      modifies this`pin, this`newPinMismatches, this`needsPowerCycle
      ensures (code, Contents()) == CheckPin(old(Contents()), pinHash)
    {
      var pinData := pin.value;
      pinData := pinData.(retries := pinData.retries - 1);
      pin := Some(pinData);
      var retries := pinData.retries;
      if pinHash.None? {
        return PinAuthInvalid;
      }
      if Left(pinHash.value) != pin.value.hash {
        if retries == 0 {
          return PinBlocked;
        }
        newPinMismatches := (newPinMismatches + 1) % 256;
        if newPinMismatches >= 3 {
          needsPowerCycle := true;
          return PinAuthBlocked;
        }
        return PinInvalid;
      }
      pin := Some(pinData.(retries := MAX_PIN_RETRIES));
      newPinMismatches := 0;
      return Ok;
    }

    /** Subcommand 0x04 */
    method ChangePin(h: Hash, r: ChangePin) returns (code: Code)
      requires Padded(r.newPin)
      modifies this
      ensures (code, Contents()) == ChangePinResult(h, old(Contents()), r)
    {
      if !r.complete || r.protocol == 0 {
        return MissingParameter;
      }
      if r.protocol != 1 && r.protocol != 2 {
        return InvalidParameter;
      }
      if pin.None? {
        return PinNotSet;
      }
      if pin.value.retries == 0 {
        return PinBlocked;
      }
      if !r.lengths || !r.agreed {
        return InvalidParameter;
      }
      if !r.authentic {
        return PinAuthInvalid;
      }
      code := Check(r.pinHash);
      if code != Ok {
        return;
      }
      if r.newPin.None? {
        return PinAuthInvalid;
      }
      var padded := r.newPin.value;
      if padded[63] != 0 {
        return InvalidParameter;
      }
      var pinLen := MeasurePin(padded);
      var minimum := MinimumInForce();
      if pinLen < minimum {
        return PolicyViolation;
      }
      var hsh := PinFile(MAX_PIN_RETRIES, pinLen, Left(h(padded[..pinLen])));
      if minPin.Some? && minPin.value.force && hsh.hash == pin.value.hash {
        return PolicyViolation;
      }
      pin := Some(hsh);
      if minPin.Some? && minPin.value.force {
        minPin := Some(minPin.value.(force := false));
      }
      ResetToken(r.freshToken);
    }

    /** resetPinUvAuthToken */
    method ResetToken(freshToken: Bytes)
      modifies this`paut
      ensures paut == old(paut).(data := freshToken, permissions := 0)
    {
      paut := paut.(data := freshToken, permissions := 0);
    }

    /** Subcommands 0x05 and 0x09 */
    method GetToken(h: Hash, r: GetToken) returns (code: Code)
      modifies this
      ensures (code, Contents()) == GetTokenResult(h, old(Contents()), r)
    {
      if !r.complete || r.protocol == 0 {
        return MissingParameter;
      }
      if r.protocol != 1 && r.protocol != 2 {
        return InvalidParameter;
      }
      if !r.withPermissions && (r.permissions != 0 || r.rpId.Some?) {
        return InvalidParameter;
      }
      if r.withPermissions {
        if r.permissions == 0 {
          return InvalidParameter;
        }
        if r.permissions / PERMISSION_BE % 2 == 1 {
          return UnauthorizedPermission;
        }
      }
      if pin.None? {
        return PinNotSet;
      }
      if pin.value.retries == 0 {
        return PinBlocked;
      }
      if !r.agreed {
        return InvalidParameter;
      }
      code := Check(r.pinHash);
      if code != Ok {
        return;
      }
      if minPin.Some? && minPin.value.force {
        return PinInvalid;
      }
      ResetToken(r.freshToken);
      paut := paut.(userPresent := false, userVerified := true, inUse := true);
      var permissions := r.permissions;
      if !r.withPermissions {
        permissions := 3;
      }
      paut := paut.(permissions := permissions % 256);
      if r.rpId.Some? {
        paut := paut.(rpIdHash := Some(h(r.rpId.value)));
      } else {
        paut := paut.(rpIdHash := None);
      }
    }

    /** Subcommand 0x03 of authenticatorConfig */
    method SetMinLength(h: Hash, r: SetMinLength) returns (code: Code)
      modifies this`minPin
      ensures (code, Contents()) == SetMinLengthResult(h, old(Contents()), r)
    {
      if !r.authPresent {
        return PuatRequired;
      }
      if r.protocol == 0 {
        return MissingParameter;
      }
      if !r.authentic {
        return PinAuthInvalid;
      }
      if paut.permissions / PERMISSION_ACFG % 2 == 0 {
        return PinAuthInvalid;
      }
      var current := MinimumInForce();
      var newMinimum: nat, force := r.newMinimum, r.force;
      if newMinimum == 0 {
        newMinimum := current;
      } else if newMinimum < current {
        return PolicyViolation;
      }
      if force && pin.None? {
        return PinNotSet;
      }
      if pin.Some? && pin.value.length < newMinimum {
        force := true;
      }
      var hashes: seq<Bytes> := [];
      for m := 0 to |r.rpIds|
        invariant hashes == seq(m, i requires 0 <= i < m => h(r.rpIds[i]))
      {
        hashes := hashes + [h(r.rpIds[m])];
      }
      assert hashes == seq(|r.rpIds|, i requires 0 <= i < |r.rpIds| => h(r.rpIds[i]));
      minPin := Some(MinPinFile(newMinimum % 256, force, hashes));
      return Ok;
    }
  }
}
