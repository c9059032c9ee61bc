/** What holds of the API-key registry on every run of its operations. */
module KeyRegistry {
  import opened Common
  import opened ApiKeys

  datatype Change =
    | Failure(secret: string)
    | Success(secret: string)
    | Lock(keyId: string)
    | Revocation(keyId: string)
    | Rotation(keyId: string, newSecret: string, role: Role, grace: int)

  type Event = Timed<Instant, Change>

  function Apply(keys: seq<ApiKey>, e: Event): (r: seq<ApiKey>)
    ensures |keys| <= |r|
  {
    match e.op
    case Failure(secret) => RecordFailure(keys, secret, e.at)
    case Success(secret) => RecordSuccess(keys, secret)
    case Lock(keyId) => LockById(keys, keyId, e.at)
    case Revocation(keyId) => Revoke(keys, keyId)
    case Rotation(keyId, newSecret, role, grace) => Rotate(keys, keyId, newSecret, role, grace, e.at)
  }

  /** The registry after the events, the last of which is applied last. */
  function Exec(keys: seq<ApiKey>, evs: seq<Event>): (r: seq<ApiKey>)
    ensures |keys| <= |r|
  {
    if evs == [] then keys else Apply(Exec(keys, evs[..|evs| - 1]), evs[|evs| - 1])
  }

  ghost predicate UniqueSecrets(keys: seq<ApiKey>) {
    forall i, j :: 0 <= i < j < |keys| ==> keys[i].secret != keys[j].secret
  }

  ghost predicate UniqueIds(keys: seq<ApiKey>) {
    forall i, j :: 0 <= i < j < |keys| ==> keys[i].keyId != keys[j].keyId
  }

  /** A rotation brings a secret that the registry does not hold yet. */
  ghost predicate Fresh(keys: seq<ApiKey>, e: Event) {
    e.op.Rotation? ==> forall k :: k in keys ==> k.secret != e.op.newSecret
  }

  ghost predicate FreshRun(keys: seq<ApiKey>, evs: seq<Event>) {
    evs == [] || (FreshRun(keys, evs[..|evs| - 1]) && Fresh(Exec(keys, evs[..|evs| - 1]), evs[|evs| - 1]))
  }

  // ---------------------------------------------------------------- what every step keeps

  /** The step addresses the entry: by its secret, or by its id when it is the first with that id. */
  ghost predicate Concerns(keys: seq<ApiKey>, e: Event, i: nat)
    requires i < |keys|
  {
    match e.op
    case Failure(secret) => BySecret(keys, secret) == i
    case Success(secret) => BySecret(keys, secret) == i
    case Lock(keyId) => ById(keys, keyId) == i
    case Revocation(keyId) => ById(keys, keyId) == i
    case Rotation(keyId, _, _, _) => ById(keys, keyId) == i
  }

  /** A step changes no entry but the one it addresses, and never who that entry is. */
  lemma StepIsLocal(keys: seq<ApiKey>, e: Event, i: nat)
    requires i < |keys|
    ensures !Concerns(keys, e, i) ==> Apply(keys, e)[i] == keys[i]
    ensures var k, k' := keys[i], Apply(keys, e)[i];
      k'.secret == k.secret && k'.role == k.role && k'.keyId == k.keyId && k'.tenant == k.tenant
  {
    match e.op
    case Failure(s) =>
    case Success(s) =>
    case Lock(id) =>
    case Revocation(id) =>
    case Rotation(id, _, _, _) =>
  }

  /** A step adds at most one entry, and only a rotation does. */
  lemma StepAppends(keys: seq<ApiKey>, e: Event)
    ensures Apply(keys, e)[|keys|..] ==
      if e.op.Rotation? && ById(keys, e.op.keyId) < |keys|
      then [RotatedKey(e.op.keyId, e.op.newSecret, e.op.role, e.at)] else []
  {
  }

  /** Entries never move, and keep their secret, role, id and tenant. */
  lemma {:induction false} IdentityKept(keys: seq<ApiKey>, evs: seq<Event>, i: nat)
    requires i < |keys|
    ensures var k, k' := keys[i], Exec(keys, evs)[i];
      k'.secret == k.secret && k'.role == k.role && k'.keyId == k.keyId && k'.tenant == k.tenant
  {
    if evs != [] {
      IdentityKept(keys, evs[..|evs| - 1], i);
      StepIsLocal(Exec(keys, evs[..|evs| - 1]), evs[|evs| - 1], i);
    }
  }

  lemma StepKeepsUniqueSecrets(keys: seq<ApiKey>, e: Event)
    requires UniqueSecrets(keys) && Fresh(keys, e)
    ensures UniqueSecrets(Apply(keys, e))
  {
    var after := Apply(keys, e);
    StepAppends(keys, e);
    forall i, j | 0 <= i < j < |after|
      ensures after[i].secret != after[j].secret
    {
      StepIsLocal(keys, e, i);
      if j < |keys| {
        StepIsLocal(keys, e, j);
      } else {
        assert after[j] == after[|keys|..][j - |keys|];
      }
    }
  }

  lemma {:induction false} UniqueSecretsKept(keys: seq<ApiKey>, evs: seq<Event>)
    requires UniqueSecrets(keys) && FreshRun(keys, evs)
    ensures UniqueSecrets(Exec(keys, evs))
  {
    if evs != [] {
      UniqueSecretsKept(keys, evs[..|evs| - 1]);
      StepKeepsUniqueSecrets(Exec(keys, evs[..|evs| - 1]), evs[|evs| - 1]);
    }
  }

  /** With unique secrets an entry is found by its secret exactly at its own place. */
  lemma FoundAtOwnPlace(keys: seq<ApiKey>, i: nat)
    requires UniqueSecrets(keys) && i < |keys|
    ensures BySecret(keys, keys[i].secret) == i
  {
    var j := BySecret(keys, keys[i].secret);
    assert j <= i;
  }

  lemma ValidateIsOwnEntry(keys: seq<ApiKey>, i: nat, now: Instant)
    requires UniqueSecrets(keys) && i < |keys|
    ensures Validate(keys, keys[i].secret, now) == if keys[i].Usable(now) then Some(keys[i].role) else None
  {
    var j := UsableBySecret(keys, keys[i].secret, now);
    FoundAtOwnPlace(keys, i);
    assert j < |keys| ==> j == i;
  }

  // ---------------------------------------------------------------- lockout as a function of the history

  /** Failures recorded for a secret since its last success. */
  function Failures(evs: seq<Event>, secret: string): nat {
    if evs == [] then 0
    else
      var n := Failures(evs[..|evs| - 1], secret);
      match evs[|evs| - 1].op
      case Failure(s) => if s == secret then n + 1 else n
      case Success(s) => if s == secret then 0 else n
      case _ => n
  }

  /** Instants since the last success at which the key was locked: by a failure at the threshold, or by its id. */
  ghost function LockInstants(evs: seq<Event>, secret: string, keyId: string, firstWithId: bool): set<Instant> {
    if evs == [] then {}
    else
      var s, e := LockInstants(evs[..|evs| - 1], secret, keyId, firstWithId), evs[|evs| - 1];
      match e.op
      case Failure(s') =>
        if s' == secret && Failures(evs, secret) >= 5 then s + {e.at} else s
      case Success(s') => if s' == secret then {} else s
      case Lock(id) => if id == keyId && firstWithId then s + {e.at} else s
      case _ => s
  }

  ghost predicate Newest(t: Instant, ts: set<Instant>) {
    t in ts && forall s :: s in ts ==> s <= t
  }

  /** The lock field is the newest lock instant plus the lockout. */
  ghost predicate LockMatches(k: ApiKey, ts: set<Instant>) {
    match k.lockedUntil
    case None => ts == {}
    case Some(until) => Newest(until - LOCKOUT, ts)
  }

  ghost predicate NeverUsed(k: ApiKey) {
    k.failedAttempts == 0 && k.lockedUntil == None
  }

  ghost predicate InstantsUpTo(ts: set<Instant>, evs: seq<Event>) {
    forall t :: t in ts ==> evs != [] && t <= evs[|evs| - 1].at
  }

  lemma FirstWithIdKept(keys: seq<ApiKey>, evs: seq<Event>, i: nat, keyId: string)
    requires i < |keys|
    ensures ById(keys, keyId) == i <==> ById(Exec(keys, evs), keyId) == i
  {
    var after := Exec(keys, evs);
    forall j: nat | j <= i
      ensures after[j].keyId == keys[j].keyId
    {
      IdentityKept(keys, evs, j);
    }
  }

  /** The effect of a step on the key k, when k is the only key with its secret. */
  function Touched(k: ApiKey, e: Event, firstWithId: bool): ApiKey {
    match e.op
    case Failure(s) => if s == k.secret then k.Failed(e.at) else k
    case Success(s) => if s == k.secret then k.Succeeded() else k
    case Lock(id) => if id == k.keyId && firstWithId then k.Locked(e.at) else k
    case Revocation(id) => if id == k.keyId && firstWithId then k.(revoked := true) else k
    case Rotation(id, _, _, g) => if id == k.keyId && firstWithId then k.(expiresAt := Some(e.at + g)) else k
  }

  lemma StepOnEntry(keys: seq<ApiKey>, e: Event, i: nat)
    requires UniqueSecrets(keys) && i < |keys|
    ensures Apply(keys, e)[i] == Touched(keys[i], e, ById(keys, keys[i].keyId) == i)
  {
    StepIsLocal(keys, e, i);
    match e.op
    case Failure(s) => MatchesOwnSecret(keys, i, s);
    case Success(s) => MatchesOwnSecret(keys, i, s);
    case Lock(id) => MatchesOwnId(keys, i, id);
    case Revocation(id) => MatchesOwnId(keys, i, id);
    case Rotation(id, _, _, _) => MatchesOwnId(keys, i, id);
  }

  lemma MatchesOwnSecret(keys: seq<ApiKey>, i: nat, secret: string)
    requires UniqueSecrets(keys) && i < |keys|
    ensures BySecret(keys, secret) == i <==> secret == keys[i].secret
  {
    FoundAtOwnPlace(keys, i);
  }

  lemma MatchesOwnId(keys: seq<ApiKey>, i: nat, keyId: string)
    requires i < |keys|
    ensures ById(keys, keyId) == i <==> keyId == keys[i].keyId && ById(keys, keys[i].keyId) == i
  {
  }

  /** One step of the history: the counter and the lock field follow the recorded instants. */
  lemma HistoryStep(k: ApiKey, evs: seq<Event>, first: bool)
    requires evs != [] && Monotone(evs)
    requires var init := evs[..|evs| - 1];
      var ts := LockInstants(init, k.secret, k.keyId, first);
      k.failedAttempts == Failures(init, k.secret) && LockMatches(k, ts) && InstantsUpTo(ts, init)
    ensures var k' := Touched(k, evs[|evs| - 1], first);
      var ts := LockInstants(evs, k.secret, k.keyId, first);
      k'.failedAttempts == Failures(evs, k.secret) && LockMatches(k', ts) && InstantsUpTo(ts, evs)
  {
    var e := evs[|evs| - 1];
    match e.op
    case Failure(s) =>
    case Success(s) =>
    case Lock(id) =>
    case Revocation(id) =>
    case Rotation(id, _, _, _) =>
  }

  lemma {:induction false} HistoryInvariant(keys: seq<ApiKey>, evs: seq<Event>, i: nat)
    requires i < |keys| && NeverUsed(keys[i])
    requires UniqueSecrets(keys) && FreshRun(keys, evs) && Monotone(evs)
    ensures var k, first := keys[i], ById(keys, keys[i].keyId) == i;
      var ts := LockInstants(evs, k.secret, k.keyId, first);
      && Exec(keys, evs)[i].failedAttempts == Failures(evs, k.secret)
      && LockMatches(Exec(keys, evs)[i], ts)
      && InstantsUpTo(ts, evs)
  {
    if evs != [] {
      var init := evs[..|evs| - 1];
      var before := Exec(keys, init);
      HistoryInvariant(keys, init, i);
      IdentityKept(keys, init, i);
      UniqueSecretsKept(keys, init);
      FirstWithIdKept(keys, init, i, keys[i].keyId);
      StepOnEntry(before, evs[|evs| - 1], i);
      HistoryStep(before[i], evs, ById(keys, keys[i].keyId) == i);
    }
  }

  /**
   On every run, the failure counter of an entry is the number of failures since its last
   success, and the entry is locked at t exactly when a fifth or later failure or a lock by
   its id since that success lies less than 15 minutes (in microseconds) before t.
   */
  lemma {:induction false} LockedExactlyByHistory(keys: seq<ApiKey>, evs: seq<Event>, i: nat, t: Instant)
    requires i < |keys| && NeverUsed(keys[i])
    requires UniqueSecrets(keys) && FreshRun(keys, evs) && Monotone(evs)
    ensures Exec(keys, evs)[i].failedAttempts == Failures(evs, keys[i].secret)
    ensures var ts := LockInstants(evs, keys[i].secret, keys[i].keyId, ById(keys, keys[i].keyId) == i);
      Exec(keys, evs)[i].IsLocked(t) <==> exists s :: s in ts && t < s + 900_000_000
  {
    HistoryInvariant(keys, evs, i);
  }

  // ---------------------------------------------------------------- locks, revocations and rotations over runs

  /** What one step can do to the lock, the revocation and the expiry of an entry. */
  lemma StepEffects(keys: seq<ApiKey>, e: Event, i: nat)
    requires i < |keys|
    ensures var k, k' := keys[i], Apply(keys, e)[i];
      && (k.revoked ==> k'.revoked)
      && (e.op != Success(k.secret) ==> k'.lockedUntil in {k.lockedUntil, Some(e.at + LOCKOUT)})
      && (LeavesAlone([e], k.keyId) ==> k'.expiresAt == k.expiresAt && k'.revoked == k.revoked)
  {
    assert [e][0] == e;
    match e.op
    case Failure(s) =>
    case Success(s) =>
    case Lock(id) =>
    case Revocation(id) =>
    case Rotation(id, _, _, _) =>
  }

  ghost predicate From(evs: seq<Event>, t0: Instant) {
    Monotone(evs) && forall i :: 0 <= i < |evs| ==> t0 <= evs[i].at
  }

  ghost predicate NoSuccess(evs: seq<Event>, secret: string) {
    forall i :: 0 <= i < |evs| ==> evs[i].op != Success(secret)
  }

  lemma {:induction false} LockPersists(keys: seq<ApiKey>, evs: seq<Event>, i: nat, t0: Instant)
    requires i < |keys| && keys[i].lockedUntil.Some? && keys[i].lockedUntil.value >= t0 + LOCKOUT
    requires From(evs, t0) && NoSuccess(evs, keys[i].secret)
    ensures var k := Exec(keys, evs)[i]; k.lockedUntil.Some? && k.lockedUntil.value >= t0 + LOCKOUT
  {
    if evs != [] {
      var init := evs[..|evs| - 1];
      LockPersists(keys, init, i, t0);
      IdentityKept(keys, init, i);
      StepEffects(Exec(keys, init), evs[|evs| - 1], i);
    }
  }

  /** A key locked at t0 is refused at every instant of the lockout, on every run that records no success for it. */
  lemma {:induction false} LockedKeyIsRefused(keys: seq<ApiKey>, keyId: string, t0: Instant, evs: seq<Event>, t: Instant)
    requires ById(keys, keyId) < |keys| && UniqueSecrets(keys)
    requires From(evs, t0) && t < t0 + 900_000_000
    requires var locked := LockById(keys, keyId, t0);
      FreshRun(locked, evs) && NoSuccess(evs, keys[ById(keys, keyId)].secret)
    ensures Validate(Exec(LockById(keys, keyId, t0), evs), keys[ById(keys, keyId)].secret, t) == None
  {
    var i, locked := ById(keys, keyId), LockById(keys, keyId, t0);
    LockPersists(locked, evs, i, t0);
    IdentityKept(locked, evs, i);
    UniqueSecretsKept(locked, evs);
    ValidateIsOwnEntry(Exec(locked, evs), i, t);
  }

  /**
   Locking by the caller's key id stops the caller exactly when the caller's entry is the
   first with that id. Two rotations of one id give two entries the same id.
   */
  lemma LockByIdStopsCaller(keys: seq<ApiKey>, i: nat, now: Instant)
    requires UniqueSecrets(keys) && i < |keys| && keys[i].Usable(now)
    ensures Validate(LockById(keys, keys[i].keyId, now), keys[i].secret, now) == None
       <==> ById(keys, keys[i].keyId) == i
  {
    var locked := LockById(keys, keys[i].keyId, now);
    var e := Timed(now, Lock(keys[i].keyId));
    assert Apply(keys, e) == locked;
    StepKeepsUniqueSecrets(keys, e);
    StepIsLocal(keys, e, i);
    ValidateIsOwnEntry(locked, i, now);
  }

  lemma {:induction false} RevocationPersists(keys: seq<ApiKey>, evs: seq<Event>, i: nat)
    requires i < |keys| && keys[i].revoked
    ensures Exec(keys, evs)[i].revoked
  {
    if evs != [] {
      RevocationPersists(keys, evs[..|evs| - 1], i);
      StepEffects(Exec(keys, evs[..|evs| - 1]), evs[|evs| - 1], i);
    }
  }

  /** On every run with fresh secrets, a revoked secret never validates again. */
  lemma RevokedNeverValidates(keys: seq<ApiKey>, evs: seq<Event>, i: nat, t: Instant)
    requires i < |keys| && keys[i].revoked && UniqueSecrets(keys) && FreshRun(keys, evs)
    ensures Validate(Exec(keys, evs), keys[i].secret, t) == None
  {
    RevocationPersists(keys, evs, i);
    UniqueSecretsKept(keys, evs);
    IdentityKept(keys, evs, i);
    ValidateIsOwnEntry(Exec(keys, evs), i, t);
  }

  ghost predicate LeavesAlone(evs: seq<Event>, keyId: string) {
    forall i :: 0 <= i < |evs| ==>
      evs[i].op != Revocation(keyId) && !(evs[i].op.Rotation? && evs[i].op.keyId == keyId)
  }

  lemma {:induction false} ValidityKept(keys: seq<ApiKey>, evs: seq<Event>, i: nat)
    requires i < |keys| && LeavesAlone(evs, keys[i].keyId)
    ensures Exec(keys, evs)[i].expiresAt == keys[i].expiresAt && Exec(keys, evs)[i].revoked == keys[i].revoked
  {
    if evs != [] {
      var init := evs[..|evs| - 1];
      ValidityKept(keys, init, i);
      IdentityKept(keys, init, i);
      assert LeavesAlone([evs[|evs| - 1]], keys[i].keyId);
      StepEffects(Exec(keys, init), evs[|evs| - 1], i);
    }
  }

  /**
   After a rotation at n with grace g, the old entry is valid at t exactly when t < n + g and
   it was not revoked, whatever it expired at before, until its id is revoked or rotated again;
   the new key has the new secret and role, no tenant and no expiry, and the other entries are unchanged.
   */
  lemma RotationGrace(keys: seq<ApiKey>, keyId: string, newSecret: string, role: Role, g: int, n: Instant,
                      evs: seq<Event>, t: Instant)
    requires ById(keys, keyId) < |keys| && LeavesAlone(evs, keyId)
    ensures var i, rotated := ById(keys, keyId), Rotate(keys, keyId, newSecret, role, g, n);
      && (Exec(rotated, evs)[i].IsValid(t) <==> !keys[i].revoked && t < n + g)
      && |rotated| == |keys| + 1
      && rotated[|keys|] == ApiKey(newSecret, role, n, None, false, keyId + "-rotated", None, 0, None)
      && forall j :: 0 <= j < |keys| && j != i ==> rotated[j] == keys[j]
  {
    ValidityKept(Rotate(keys, keyId, newSecret, role, g, n), evs, ById(keys, keyId));
  }

  /** A rotation keeps key ids unique exactly when the rotated id is not in use yet. */
  lemma RotationKeepsUniqueIds(keys: seq<ApiKey>, keyId: string, newSecret: string, role: Role, g: int, n: Instant)
    requires UniqueIds(keys) && ById(keys, keyId) < |keys|
    ensures UniqueIds(Rotate(keys, keyId, newSecret, role, g, n)) <==> ById(keys, RotatedId(keyId)) == |keys|
  {
    var after, j := Rotate(keys, keyId, newSecret, role, g, n), ById(keys, RotatedId(keyId));
    assert after[|keys|].keyId == RotatedId(keyId);
    if j < |keys| {
      assert after[j].keyId == RotatedId(keyId);
    }
  }

  /** Rotating one id twice leaves a second usable entry that revoking the rotated id does not reach. */
  lemma RotatingTwiceDuplicatesTheId(k: ApiKey, s1: string, s2: string, role: Role, g: int, n: Instant)
    requires k.secret != s1 && k.secret != s2 && s1 != s2
    ensures var keys := Revoke(Rotate(Rotate([k], k.keyId, s1, role, g, n), k.keyId, s2, role, g, n), RotatedId(k.keyId));
      Validate(keys, s1, n) == None && Validate(keys, s2, n) == Some(role)
  {
    var oldKey, new1, new2 := k.(expiresAt := Some(n + g)), RotatedKey(k.keyId, s1, role, n), RotatedKey(k.keyId, s2, role, n);
    assert |RotatedId(k.keyId)| == |k.keyId| + 8;
    assert ById([k], k.keyId) == 0;
    var once := Rotate([k], k.keyId, s1, role, g, n);
    assert |once| == 2 && once[0] == oldKey && once[1] == new1;
    assert ById(once, k.keyId) == 0;
    var twice := Rotate(once, k.keyId, s2, role, g, n);
    assert |twice| == 3 && twice[0] == oldKey && twice[1] == new1 && twice[2] == new2;
    assert ById(twice, RotatedId(k.keyId)) == 1;
    var keys := Revoke(twice, RotatedId(k.keyId));
    assert keys[0] == oldKey && keys[1].revoked && keys[2] == new2;
    assert UsableBySecret(keys, s2, n) == 2;
    assert UsableBySecret(keys, s1, n) == 3;
  }

  // ---------------------------------------------------------------- failures with unknown secrets

  /** A recorded failure: whether its secret was known. */
  type Attempt = Timed<Instant, bool>

  function Attempts(evs: seq<Attempt>): Unknown {
    if evs == [] then Unknown(0, None)
    else AfterFailure(Attempts(evs[..|evs| - 1]), evs[|evs| - 1].op, evs[|evs| - 1].at)
  }

  /** The instant of the last failure with an unknown secret. */
  function LastUnknown(evs: seq<Attempt>): Option<Instant> {
    if evs == [] then None
    else if evs[|evs| - 1].op then LastUnknown(evs[..|evs| - 1])
    else Some(evs[|evs| - 1].at)
  }

  /** How many failures with unknown secrets came, up to the last, each no more than five minutes after the one before. */
  function Streak(evs: seq<Attempt>): nat {
    if evs == [] then 0
    else
      var init, e := evs[..|evs| - 1], evs[|evs| - 1];
      var last := LastUnknown(init);
      if e.op then Streak(init)
      else if last.Some? && e.at <= last.value + 300_000_000 then Streak(init) + 1
      else 1
  }

  lemma {:induction false} AttemptsInvariant(evs: seq<Attempt>)
    requires Monotone(evs)
    ensures Attempts(evs).last == LastUnknown(evs) && (LastUnknown(evs) == None ==> Streak(evs) == 0)
    ensures Attempts(evs).attempts == Streak(evs)
      || (Attempts(evs).attempts == 0 && evs != [] && LastUnknown(evs).Some?
          && evs[|evs| - 1].at > LastUnknown(evs).value + 300_000_000)
  {
    if evs != [] {
      var init := evs[..|evs| - 1];
      AttemptsInvariant(init);
      assert init != [] ==> init[|init| - 1].at <= evs[|evs| - 1].at;
    }
  }

  /**
   On every run of failures the delay for an unknown secret is 50 ms for each failure of the streak it
   ends, and at most two seconds; known secrets are not delayed.
   */
  lemma DelayIsHistory(evs: seq<Attempt>)
    requires Monotone(evs) && evs != []
    ensures var e, u := evs[|evs| - 1], Attempts(evs[..|evs| - 1]);
      DelayMs(u, e.op, e.at) == if e.op then 0 else if Streak(evs) >= 40 then 2000 else 50 * Streak(evs)
  {
    var init := evs[..|evs| - 1];
    AttemptsInvariant(init);
    assert init != [] ==> init[|init| - 1].at <= evs[|evs| - 1].at;
  }
}
