/**
 One user's part of the second-factor store. Every handler changes the view of its own
 user only, and its answer depends on that view only.
 */
module MfaViews {
  import opened Common
  import opened MfaStore
  import opened MfaHandlers

  /** The lock is an instant in the database and a number of seconds in memory. */
  datatype View = View(secret: Option<Secret>, codes: Option<seq<Digest>>, failed: nat, usage: nat, lock: Option<nat>)

  function Lock(s: Store, u: User): Option<nat> {
    if s.persistent then Row(s.db, u).lockedUntil
    else if u in s.memory.lockouts then Some(s.memory.lockouts[u]) else None
  }

  function ViewOf(s: Store, u: User): View {
    View(LoadSecret(s, u), LoadBackupCodes(s, u), FailedAttempts(s, u), BackupUsage(s, u), Lock(s, u))
  }

  /** The clock as the store reads it: instants in the database, whole seconds in memory. */
  function Clock(persistent: bool, now: nat): nat {
    if persistent then now else now / SECOND
  }

  /** The length of a lockout on that clock. */
  function LockoutTicks(persistent: bool): nat {
    if persistent then TOTP_LOCKOUT_SECS * SECOND else TOTP_LOCKOUT_SECS
  }

  predicate Locked(persistent: bool, v: View, now: nat) {
    v.lock.Some? && Clock(persistent, now) < v.lock.value
  }

  function Remaining(persistent: bool, v: View, now: nat): nat
    requires Locked(persistent, v, now)
  {
    var left := v.lock.value - Clock(persistent, now);
    if persistent then left / SECOND else left
  }

  function Failed(persistent: bool, v: View, now: nat): View {
    var v' := v.(failed := v.failed + 1);
    if v'.failed >= MAX_TOTP_ATTEMPTS
    then v'.(lock := Some(Clock(persistent, now) + LockoutTicks(persistent))) else v'
  }

  function Cleared(persistent: bool, v: View): View {
    if persistent then v.(failed := 0, usage := 0, lock := None) else v.(failed := 0, usage := 0)
  }

  datatype Reply = Reply(view: View, response: Response, locksCaller: bool)

  function VerifyView(env: Env, persistent: bool, v: View, code: string, now: nat): Reply {
    if Locked(persistent, v, now) then Reply(v, AlreadyLocked(Remaining(persistent, v, now)), false)
    else
      match v.secret
      case None => Reply(v, NotConfigured, false)
      case Some(secret) =>
        match env.check(secret, code, now)
        case UnusableSecret => Reply(v, InternalError, false)
        case MalformedCode => Reply(v, BadCode, false)
        case Correct => Reply(Cleared(persistent, v), Valid, false)
        case Wrong =>
          var v' := Failed(persistent, v, now);
          if v'.failed >= MAX_TOTP_ATTEMPTS then Reply(v', LockedNow(TOTP_LOCKOUT_SECS), true)
          else Reply(v', Invalid(MAX_TOTP_ATTEMPTS - v'.failed), false)
  }

  function BackupView(env: Env, v: View, code: string): Reply {
    var d := env.digest(code);
    if v.usage >= MAX_BACKUP_CODE_USES then Reply(v, BackupLimit, false)
    else if v.codes.Some? && d in v.codes.value then
      Reply(v.(codes := Some(Without(v.codes.value, Position(v.codes.value, d))), usage := 0), BackupValid, false)
    else
      var v' := v.(usage := v.usage + 1);
      if v'.usage >= MAX_BACKUP_CODE_USES then Reply(v', BackupLimit, true) else Reply(v', BackupInvalid, false)
  }

  function SetupView(env: Env, v: View, secret: Secret, codes: seq<string>): Reply {
    if env.hasKek then Reply(v.(secret := Some(secret), codes := Some(Digests(env, codes))), SetUp, false)
    else Reply(v, SetupRefused, false)
  }

  // ---------------------------------------------------------------- the primitives on views

  lemma RecordFailedTotpView(s: Store, u: User, now: nat, w: User)
    ensures RecordFailedTotp(s, u, now).persistent == s.persistent
    ensures ViewOf(RecordFailedTotp(s, u, now), w)
         == if w == u then Failed(s.persistent, ViewOf(s, u), now) else ViewOf(s, w)
  {
  }

  lemma ClearView(s: Store, u: User, w: User)
    ensures ClearFailedAttempts(s, u).persistent == s.persistent
    ensures ViewOf(ResetBackupUsage(ClearFailedAttempts(s, u), u), w)
         == if w == u then Cleared(s.persistent, ViewOf(s, u)) else ViewOf(s, w)
  {
    ResetView(ClearFailedAttempts(s, u), u, w);
  }

  lemma ResetView(s: Store, u: User, w: User)
    ensures ResetBackupUsage(s, u).persistent == s.persistent
    ensures ViewOf(ResetBackupUsage(s, u), w) == if w == u then ViewOf(s, u).(usage := 0) else ViewOf(s, w)
  {
  }

  lemma UsageView(s: Store, u: User, w: User)
    ensures RecordBackupUsage(s, u).persistent == s.persistent
    ensures ViewOf(RecordBackupUsage(s, u), w)
         == if w == u then ViewOf(s, u).(usage := BackupUsage(s, u) + 1) else ViewOf(s, w)
  {
  }

  lemma ConsumeView(s: Store, u: User, d: Digest, w: User)
    requires HasBackupCode(s, u, d)
    ensures ConsumeBackupCode(s, u, d).persistent == s.persistent
    ensures var codes := LoadBackupCodes(s, u).value;
      ViewOf(ConsumeBackupCode(s, u, d), w)
      == if w == u then ViewOf(s, u).(codes := Some(Without(codes, Position(codes, d)))) else ViewOf(s, w)
  {
  }

  lemma StoreConfigView(s: Store, u: User, secret: Secret, codes: seq<Digest>, w: User)
    ensures StoreConfig(s, u, secret, codes).persistent == s.persistent
    ensures ViewOf(StoreConfig(s, u, secret, codes), w)
         == if w == u then ViewOf(s, u).(secret := Some(secret), codes := Some(codes)) else ViewOf(s, w)
  {
  }

  // ---------------------------------------------------------------- the handlers on views

  ghost predicate ActsAs(s: Store, o: Outcome, u: User, r: Reply) {
    && o.store.persistent == s.persistent && o.response == r.response && o.locksCaller == r.locksCaller
    && forall w :: ViewOf(o.store, w) == if w == u then r.view else ViewOf(s, w)
  }

  lemma VerifyReplies(env: Env, s: Store, u: User, code: string, now: nat)
    ensures var o, r := Verify(env, s, u, code, now), VerifyView(env, s.persistent, ViewOf(s, u), code, now);
      && o.store.persistent == s.persistent && o.response == r.response && o.locksCaller == r.locksCaller
      && ViewOf(o.store, u) == r.view
  {
    if !IsLockedOut(s, u, now) && LoadSecret(s, u).Some? {
      match env.check(LoadSecret(s, u).value, code, now)
      case Correct => ClearView(s, u, u);
      case Wrong => RecordFailedTotpView(s, u, now, u);
      case MalformedCode =>
      case UnusableSecret =>
    }
  }

  lemma VerifyKeepsOthers(env: Env, s: Store, u: User, code: string, now: nat, w: User)
    requires w != u
    ensures ViewOf(Verify(env, s, u, code, now).store, w) == ViewOf(s, w)
  {
    RecordFailedTotpView(s, u, now, w);
    ClearView(s, u, w);
  }

  lemma VerifyActs(env: Env, s: Store, u: User, code: string, now: nat)
    ensures ActsAs(s, Verify(env, s, u, code, now), u, VerifyView(env, s.persistent, ViewOf(s, u), code, now))
  {
    VerifyReplies(env, s, u, code, now);
    forall w | w != u
      ensures ViewOf(Verify(env, s, u, code, now).store, w) == ViewOf(s, w)
    {
      VerifyKeepsOthers(env, s, u, code, now, w);
    }
  }

  lemma VerifyBackupActs(env: Env, s: Store, u: User, code: string)
    ensures ActsAs(s, VerifyBackup(env, s, u, code), u, BackupView(env, ViewOf(s, u), code))
  {
    var d := env.digest(code);
    var o, r := VerifyBackup(env, s, u, code), BackupView(env, ViewOf(s, u), code);
    UsageView(s, u, u);
    forall w
      ensures ViewOf(o.store, w) == if w == u then r.view else ViewOf(s, w)
    {
      if HasBackupCode(s, u, d) {
        ConsumeView(s, u, d, w);
        ConsumeView(s, u, d, u);
        ResetView(ConsumeBackupCode(s, u, d), u, w);
      } else {
        UsageView(s, u, w);
      }
    }
    if HasBackupCode(s, u, d) {
      ConsumeView(s, u, d, u);
    }
  }

  lemma SetupActs(env: Env, s: Store, u: User, secret: Secret, codes: seq<string>)
    ensures ActsAs(s, Setup(env, s, u, secret, codes), u, SetupView(env, ViewOf(s, u), secret, codes))
  {
    var o, r := Setup(env, s, u, secret, codes), SetupView(env, ViewOf(s, u), secret, codes);
    forall w
      ensures ViewOf(o.store, w) == if w == u then r.view else ViewOf(s, w)
    {
      StoreConfigView(s, u, secret, Digests(env, codes), w);
    }
  }
}
