/**
 The handlers that drive the second-factor store: setting up, verifying a code and
 verifying a backup code. A handler that locks a user also locks the caller's API key.
 */
module MfaHandlers {
  import opened Common
  import opened MfaStore
  import ApiKeys

  /** What the code generator says of a code. */
  datatype CodeCheck = Correct | Wrong | MalformedCode | UnusableSecret

  /** The surroundings: whether there is a key-encryption key, the digest of a backup code, and the code generator. */
  datatype Env = Env(hasKek: bool, digest: string -> Digest, check: (Secret, string, nat) -> CodeCheck)

  datatype Response =
    | Valid
    | Invalid(attemptsRemaining: nat)
    | AlreadyLocked(remaining: nat)
    | LockedNow(seconds: nat)
    | NotConfigured
    | BadCode
    | InternalError
    | BackupValid
    | BackupInvalid
    | BackupLimit
    | SetUp
    | SetupRefused

  /** New store, answer, and whether the caller's API key is locked. */
  datatype Outcome = Outcome(store: Store, response: Response, locksCaller: bool)

  function Verify(env: Env, s: Store, u: User, code: string, now: nat): Outcome {
    if IsLockedOut(s, u, now) then Outcome(s, AlreadyLocked(LockoutRemaining(s, u, now)), false)
    else
      match LoadSecret(s, u)
      case None => Outcome(s, NotConfigured, false)
      case Some(secret) =>
        match env.check(secret, code, now)
        case UnusableSecret => Outcome(s, InternalError, false)
        case MalformedCode => Outcome(s, BadCode, false)
        case Correct => Outcome(ResetBackupUsage(ClearFailedAttempts(s, u), u), Valid, false)
        case Wrong =>
          var s' := RecordFailedTotp(s, u, now);
          var n := FailedAttempts(s', u);
          if n >= MAX_TOTP_ATTEMPTS then Outcome(s', LockedNow(TOTP_LOCKOUT_SECS), true)
          else Outcome(s', Invalid(MAX_TOTP_ATTEMPTS - n), false)
  }

  function VerifyBackup(env: Env, s: Store, u: User, code: string): Outcome {
    if BackupUsage(s, u) >= MAX_BACKUP_CODE_USES then Outcome(s, BackupLimit, false)
    else if HasBackupCode(s, u, env.digest(code)) then
      Outcome(ResetBackupUsage(ConsumeBackupCode(s, u, env.digest(code)), u), BackupValid, false)
    else
      var s' := RecordBackupUsage(s, u);
      if BackupUsage(s', u) >= MAX_BACKUP_CODE_USES then Outcome(s', BackupLimit, true)
      else Outcome(s', BackupInvalid, false)
  }

  function Digests(env: Env, codes: seq<string>): (r: seq<Digest>)
    ensures |r| == |codes|
  {
    seq(|codes|, i requires 0 <= i < |codes| => env.digest(codes[i]))
  }

  /** Place by place, the digests of the codes. */
  ghost predicate IsDigestList(env: Env, codes: seq<string>, l: Option<seq<Digest>>) {
    l.Some? && |l.value| == |codes| && forall i :: 0 <= i < |codes| ==> l.value[i] == env.digest(codes[i])
  }

  function Setup(env: Env, s: Store, u: User, secret: Secret, codes: seq<string>): Outcome {
    if env.hasKek then Outcome(StoreConfig(s, u, secret, Digests(env, codes)), SetUp, false)
    else Outcome(s, SetupRefused, false)
  }

  method HandleSetup(mfa: MfaManager, env: Env, u: User, secret: Secret, codes: seq<string>) returns (r: Response)
    modifies mfa
    ensures Outcome(mfa.State(), r, false) == Setup(env, old(mfa.State()), u, secret, codes)
    ensures r == (if env.hasKek then SetUp else SetupRefused) && (!env.hasKek ==> mfa.State() == old(mfa.State()))
    ensures env.hasKek ==> LoadSecret(mfa.State(), u) == Some(secret) && IsDigestList(env, codes, LoadBackupCodes(mfa.State(), u))
  {
    var digests := [];
    for i := 0 to |codes|
      invariant digests == Digests(env, codes)[..i]
      invariant mfa.State() == old(mfa.State())
    {
      digests := digests + [env.digest(codes[i])];
    }
    assert digests == Digests(env, codes);
    var ok := mfa.StoreTotpConfig(u, secret, digests, env.hasKek);
    r := if ok then SetUp else SetupRefused;
  }

  method HandleVerify(mfa: MfaManager, keys: ApiKeys.ApiKeyConfig, callerKeyId: string, env: Env, u: User, code: string,
                      now: nat)
    returns (r: Response)
    modifies mfa, keys`keys
    ensures var o := Verify(env, old(mfa.State()), u, code, now);
      && mfa.State() == o.store && r == o.response
      && keys.keys == if o.locksCaller then ApiKeys.LockById(old(keys.keys), callerKeyId, now) else old(keys.keys)
    ensures keys.keys == if r.LockedNow? then ApiKeys.LockById(old(keys.keys), callerKeyId, now) else old(keys.keys)
  {
    var locked := mfa.LockedOut(u, now);
    if locked {
      var remaining := mfa.LockoutRemainingSecs(u, now);
      return AlreadyLocked(remaining);
    }
    var config := mfa.LoadTotpConfig(u);
    if config.None? {
      return NotConfigured;
    }
    match env.check(config.value, code, now)
    case UnusableSecret =>
      r := InternalError;
    case MalformedCode =>
      r := BadCode;
    case Correct =>
      mfa.ClearAttempts(u);
      mfa.ResetUsage(u);
      r := Valid;
    case Wrong =>
      var lockedNow := mfa.RecordFailedTotpAttempt(u, now);
      if lockedNow {
        keys.LockKeyById(callerKeyId, now);
        r := LockedNow(TOTP_LOCKOUT_SECS);
      } else {
        var attempts := mfa.FailedAttemptCount(u);
        r := Invalid(if attempts < MAX_TOTP_ATTEMPTS then MAX_TOTP_ATTEMPTS - attempts else 0);
      }
  }

  method HandleVerifyBackup(mfa: MfaManager, keys: ApiKeys.ApiKeyConfig, callerKeyId: string, env: Env, u: User,
                            code: string, now: nat)
    returns (r: Response)
    modifies mfa, keys`keys
    ensures var o := VerifyBackup(env, old(mfa.State()), u, code);
      && mfa.State() == o.store && r == o.response
      && keys.keys == if o.locksCaller then ApiKeys.LockById(old(keys.keys), callerKeyId, now) else old(keys.keys)
    ensures keys.keys == if r == BackupLimit && BackupUsage(old(mfa.State()), u) < 3
                         then ApiKeys.LockById(old(keys.keys), callerKeyId, now) else old(keys.keys)
  {
    var usage := mfa.UsageCount(u);
    if usage >= MAX_BACKUP_CODE_USES {
      return BackupLimit;
    }
    var found := mfa.Consume(u, env.digest(code));
    if found {
      mfa.ResetUsage(u);
      return BackupValid;
    }
    var exceeded := mfa.RecordUsage(u);
    if exceeded {
      keys.LockKeyById(callerKeyId, now);
      return BackupLimit;
    }
    r := BackupInvalid;
  }
}
