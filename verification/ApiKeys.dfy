/**
 The API-key registry: a list of keys searched by secret or by key id, with lockout,
 revocation and rotation. Time is an instant in microseconds passed by the caller.
 */
module ApiKeys {
  import opened Common

  type Instant = int

  /** Five failures lock a key for fifteen minutes. */
  const MAX_FAILED_ATTEMPTS: nat := 5
  const LOCKOUT: nat := 900_000_000

  /** The counter of unknown secrets is forgotten five minutes after the last of them. */
  const UNKNOWN_DECAY: nat := 300_000_000

  datatype Role = ReadOnly | Operator | KeyAdmin | SecurityOfficer | AuditAdmin | TenantAdmin

  datatype ApiKey = ApiKey(
    secret: string,
    role: Role,
    createdAt: Instant,
    expiresAt: Option<Instant>,
    revoked: bool,
    keyId: string,
    tenant: Option<string>,
    failedAttempts: nat,
    lockedUntil: Option<Instant>)
  {
    predicate IsValid(now: Instant) {
      !revoked && (expiresAt.None? || now < expiresAt.value)
    }

    predicate IsLocked(now: Instant) {
      lockedUntil.Some? && now < lockedUntil.value
    }

    predicate Usable(now: Instant) {
      IsValid(now) && !IsLocked(now)
    }

    function Locked(now: Instant): ApiKey {
      this.(lockedUntil := Some(now + LOCKOUT))
    }

    /** One more failure, which locks once the threshold is reached. */
    function Failed(now: Instant): ApiKey {
      var k := this.(failedAttempts := failedAttempts + 1);
      if k.failedAttempts >= MAX_FAILED_ATTEMPTS then k.Locked(now) else k
    }

    function Succeeded(): ApiKey {
      this.(failedAttempts := 0, lockedUntil := None)
    }
  }

  function NewKey(secret: string, role: Role, keyId: string, tenant: Option<string>, now: Instant): ApiKey {
    ApiKey(secret, role, now, None, false, keyId, tenant, 0, None)
  }

  // ---------------------------------------------------------------- first matches

  /** The first place of keys that satisfies f, or the length when there is none. */
  function First(keys: seq<ApiKey>, f: ApiKey -> bool): (i: nat)
    ensures i <= |keys| && (i < |keys| ==> f(keys[i])) && forall j :: 0 <= j < i ==> !f(keys[j])
  {
    if keys == [] then 0
    else if f(keys[0]) then 0
    else 1 + First(keys[1..], f)
  }

  function BySecret(keys: seq<ApiKey>, secret: string): (i: nat)
    ensures i <= |keys| && (i < |keys| ==> keys[i].secret == secret)
    ensures forall j :: 0 <= j < i ==> keys[j].secret != secret
  {
    First(keys, (k: ApiKey) => k.secret == secret)
  }

  function ById(keys: seq<ApiKey>, keyId: string): (i: nat)
    ensures i <= |keys| && (i < |keys| ==> keys[i].keyId == keyId)
    ensures forall j :: 0 <= j < i ==> keys[j].keyId != keyId
  {
    First(keys, (k: ApiKey) => k.keyId == keyId)
  }

  function UsableBySecret(keys: seq<ApiKey>, secret: string, now: Instant): (i: nat)
    ensures i <= |keys| && (i < |keys| ==> keys[i].secret == secret && keys[i].Usable(now))
    ensures forall j :: 0 <= j < i ==> keys[j].secret != secret || !keys[j].Usable(now)
  {
    First(keys, (k: ApiKey) => k.secret == secret && k.Usable(now))
  }

  function Validate(keys: seq<ApiKey>, secret: string, now: Instant): Option<Role> {
    var i := UsableBySecret(keys, secret, now);
    if i < |keys| then Some(keys[i].role) else None
  }

  function ValidateWithIdentity(keys: seq<ApiKey>, secret: string, now: Instant): Option<(Role, string)> {
    var i := UsableBySecret(keys, secret, now);
    if i < |keys| then Some((keys[i].role, keys[i].keyId)) else None
  }

  function LookupKeyId(keys: seq<ApiKey>, secret: string): Option<string> {
    var i := BySecret(keys, secret);
    if i < |keys| then Some(keys[i].keyId) else None
  }

  function LookupTenant(keys: seq<ApiKey>, secret: string): Option<string> {
    var i := BySecret(keys, secret);
    if i < |keys| then keys[i].tenant else None
  }

  // ---------------------------------------------------------------- updates

  /** Replace the entry at place i, if there is one. */
  function Put(keys: seq<ApiKey>, i: nat, f: ApiKey -> ApiKey): (r: seq<ApiKey>)
    ensures |r| == |keys|
    ensures forall j :: 0 <= j < |keys| ==> r[j] == if j == i then f(keys[j]) else keys[j]
  {
    if i < |keys| then keys[i := f(keys[i])] else keys
  }

  function RecordFailure(keys: seq<ApiKey>, secret: string, now: Instant): seq<ApiKey> {
    Put(keys, BySecret(keys, secret), (k: ApiKey) => k.Failed(now))
  }

  function RecordSuccess(keys: seq<ApiKey>, secret: string): seq<ApiKey> {
    Put(keys, BySecret(keys, secret), (k: ApiKey) => k.Succeeded())
  }

  function Revoke(keys: seq<ApiKey>, keyId: string): seq<ApiKey> {
    Put(keys, ById(keys, keyId), (k: ApiKey) => k.(revoked := true))
  }

  function LockById(keys: seq<ApiKey>, keyId: string, now: Instant): seq<ApiKey> {
    Put(keys, ById(keys, keyId), (k: ApiKey) => k.Locked(now))
  }

  function RotatedId(keyId: string): string {
    keyId + "-rotated"
  }

  /** The key that a rotation appends; it carries no tenant. */
  function RotatedKey(keyId: string, newSecret: string, role: Role, now: Instant): ApiKey {
    NewKey(newSecret, role, RotatedId(keyId), None, now)
  }

  function Rotate(keys: seq<ApiKey>, keyId: string, newSecret: string, role: Role, grace: int, now: Instant): seq<ApiKey> {
    if ById(keys, keyId) == |keys| then keys
    else
      Put(keys, ById(keys, keyId), (k: ApiKey) => k.(expiresAt := Some(now + grace)))
      + [RotatedKey(keyId, newSecret, role, now)]
  }

  // ---------------------------------------------------------------- the registry object

  class ApiKeyConfig {
    var keys: seq<ApiKey>
    var bruteForceProtection: bool
    var unknownAttempts: nat
    var unknownLast: Option<Instant>

    constructor (initial: seq<ApiKey>)
      ensures keys == initial && bruteForceProtection && unknownAttempts == 0 && unknownLast == None
    {
      keys, bruteForceProtection, unknownAttempts, unknownLast := initial, true, 0, None;
    }

    /** Without protection nothing changes; otherwise the first key with the secret is charged, or else the unknown-secret counter. */
    method RecordFailedAttempt(secret: string, now: Instant) returns (delayMs: nat)
      modifies this
      ensures bruteForceProtection == old(bruteForceProtection)
      ensures keys == if bruteForceProtection then RecordFailure(old(keys), secret, now) else old(keys)
      ensures var before, known := Unknown(old(unknownAttempts), old(unknownLast)), BySecret(old(keys), secret) < |keys|;
        && Unknown(unknownAttempts, unknownLast) == (if bruteForceProtection then AfterFailure(before, known, now) else before)
        && delayMs == (if bruteForceProtection then DelayMs(before, known, now) else 0)
    {
      delayMs := 0;
      if !bruteForceProtection {
        return;
      }
      unknownAttempts := DecayedAttempts(unknownAttempts, unknownLast, now);
      var found := false;
      var i := 0;
      while i < |keys|
        invariant 0 <= i <= |keys| && keys == old(keys) && !found
        invariant bruteForceProtection
        invariant forall j :: 0 <= j < i ==> keys[j].secret != secret
        invariant unknownLast == old(unknownLast)
        invariant unknownAttempts == DecayedAttempts(old(unknownAttempts), old(unknownLast), now)
      {
        if keys[i].secret == secret {
          var k := keys[i].(failedAttempts := keys[i].failedAttempts + 1);
          if k.failedAttempts >= MAX_FAILED_ATTEMPTS {
            k := k.Locked(now);
          }
          keys := keys[i := k];
          found := true;
          break;
        }
        i := i + 1;
      }
      assert found ==> BySecret(old(keys), secret) == i;
      assert !found ==> BySecret(old(keys), secret) == |keys|;
      if !found {
        unknownAttempts := unknownAttempts + 1;
        unknownLast := Some(now);
        delayMs := Min(50 * unknownAttempts, 2000);
      }
    }

    method RecordSuccessfulLogin(secret: string)
      modifies this`keys
      ensures keys == RecordSuccess(old(keys), secret)
    {
      var i := BySecret(keys, secret);
      if i < |keys| {
        keys := keys[i := keys[i].(failedAttempts := 0, lockedUntil := None)];
      }
    }

    method RevokeKey(keyId: string) returns (found: bool)
      modifies this`keys
      ensures keys == Revoke(old(keys), keyId)
      ensures found <==> exists k :: k in old(keys) && k.keyId == keyId
    {
      var i := ById(keys, keyId);
      found := i < |keys|;
      if found {
        keys := keys[i := keys[i].(revoked := true)];
      }
    }

    method LockKeyById(keyId: string, now: Instant)
      modifies this`keys
      ensures keys == LockById(old(keys), keyId, now)
    {
      var i := ById(keys, keyId);
      if i < |keys| {
        keys := keys[i := keys[i].(lockedUntil := Some(now + LOCKOUT))];
      }
    }

    method RotateKey(keyId: string, newSecret: string, role: Role, grace: int, now: Instant) returns (r: Option<ApiKey>)
      modifies this`keys
      ensures keys == Rotate(old(keys), keyId, newSecret, role, grace, now)
      ensures r.Some? <==> exists k :: k in old(keys) && k.keyId == keyId
      ensures r.Some? ==> r.value == RotatedKey(keyId, newSecret, role, now)
    {
      var i := ById(keys, keyId);
      if i == |keys| {
        return None;
      }
      keys := keys[i := keys[i].(expiresAt := Some(now + grace))];
      var newKey := NewKey(newSecret, role, keyId + "-rotated", None, now);
      keys := keys + [newKey];
      r := Some(newKey);
    }

    method AddKey(key: ApiKey)
      modifies this`keys
      ensures keys == old(keys) + [key]
    {
      keys := keys + [key];
    }
  }

  /** The counter of unknown secrets and the instant of the last of them. */
  datatype Unknown = Unknown(attempts: nat, last: Option<Instant>)

  function AfterFailure(u: Unknown, known: bool, now: Instant): Unknown {
    var attempts := DecayedAttempts(u.attempts, u.last, now);
    if known then u.(attempts := attempts) else Unknown(attempts + 1, Some(now))
  }

  function DelayMs(u: Unknown, known: bool, now: Instant): nat {
    if known then 0 else Min(50 * AfterFailure(u, known, now).attempts, 2000)
  }

  /** The unknown-secret counter after the decay check. */
  function DecayedAttempts(attempts: nat, last: Option<Instant>, now: Instant): nat {
    if last.Some? && now - last.value > UNKNOWN_DECAY then 0 else attempts
  }
}
