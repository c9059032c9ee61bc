/**
 What the second-factor handlers answer on every run, spelled out from the history alone: from
 what the user's last setup declared, which codes were evaluated wrong and when, and which backup
 codes were accepted.
 */
module MfaAnswers {
  import opened Common
  import opened MfaStore
  import opened MfaHandlers
  import opened MfaViews
  import opened MfaRuns

  datatype Declared = Declared(secret: Secret, codes: seq<string>)

  /** What the user's last setup declared; without a key-encryption key no setup counts. */
  function LastSetup(env: Env, evs: seq<Event>, u: User): Option<Declared> {
    if evs == [] then None
    else
      var e := evs[|evs| - 1];
      if e.op.DoSetup? && e.op.user == u && env.hasKek then Some(Declared(e.op.secret, e.op.codes))
      else LastSetup(env, evs[..|evs| - 1], u)
  }

  /** How many of the codes have the digest d. */
  function Copies(env: Env, codes: seq<string>, d: Digest): nat {
    if codes == [] then 0
    else Copies(env, codes[..|codes| - 1], d) + if env.digest(codes[|codes| - 1]) == d then 1 else 0
  }

  /** How many backup codes with the digest d were accepted since the user's last setup. */
  function AcceptedTimes(env: Env, s: Store, evs: seq<Event>, u: User, d: Digest): nat {
    if evs == [] then 0
    else
      var e, before := evs[|evs| - 1], AcceptedTimes(env, s, evs[..|evs| - 1], u, d);
      if e.op.user != u then before
      else if e.op.DoSetup? && env.hasKek then 0
      else if e.op.DoVerifyBackup? && env.digest(e.op.code) == d && LastResponse(env, s, evs) == BackupValid then before + 1
      else before
  }

  // ---------------------------------------------------------------- setup

  /** A setup makes the secret and the digests of the codes, place by place, what is loaded. */
  lemma SetupStoresDigests(env: Env, s: Store, u: User, secret: Secret, codes: seq<string>)
    requires env.hasKek
    ensures var s' := Setup(env, s, u, secret, codes).store;
      LoadSecret(s', u) == Some(secret) && IsDigestList(env, codes, LoadBackupCodes(s', u))
  {
    StoreConfigView(s, u, secret, Digests(env, codes), u);
  }

  ghost predicate SecretOf(v: View, setup: Option<Declared>) {
    && v.secret == (if setup.Some? then Some(setup.value.secret) else None)
    && (v.codes.Some? <==> setup.Some?)
  }

  lemma SecretStep(env: Env, p: bool, v: View, e: Event, setup: Option<Declared>)
    requires SecretOf(v, setup)
    ensures SecretOf(StepView(env, p, v, e).view,
                     if e.op.DoSetup? && env.hasKek then Some(Declared(e.op.secret, e.op.codes)) else setup)
  {
  }

  /** The loaded secret is the one last declared, on every run. */
  lemma {:induction false} SecretIsHistory(env: Env, persistent: bool, evs: seq<Event>, u: User)
    ensures var s := Run(env, NewStore(persistent), evs);
      s.persistent == persistent && SecretOf(ViewOf(s, u), LastSetup(env, evs, u))
  {
    if evs != [] {
      var init, e := evs[..|evs| - 1], evs[|evs| - 1];
      SecretIsHistory(env, persistent, init, u);
      LastStep(env, NewStore(persistent), evs, u);
      SecretStep(env, persistent, ViewOf(Run(env, NewStore(persistent), init), u), e, LastSetup(env, init, u));
    }
  }

  // ---------------------------------------------------------------- verifying a code

  /** Up to four wrong codes there is no lock, or one that is over. */
  ghost predicate NoOldLock(persistent: bool, v: View, ts: seq<nat>, last: nat) {
    |ts| < 5 && v.lock.Some? ==> v.lock.value <= Clock(persistent, last)
  }

  lemma NoOldLockStep(env: Env, p: bool, v: View, ts: seq<nat>, last: nat, e: Event)
    requires NoOldLock(p, v, ts, last) && v.failed == |ts| && last <= e.at && e.op.DoVerify?
    ensures var r := StepView(env, p, v, e); NoOldLock(p, r.view, AddWrong(ts, e, r.response), e.at)
  {
    assert Clock(p, last) <= Clock(p, e.at);
  }

  lemma {:induction false} NoOldLockInvariant(env: Env, persistent: bool, evs: seq<Event>, u: User)
    requires Monotone(evs)
    ensures var s := NewStore(persistent);
      NoOldLock(persistent, ViewOf(Run(env, s, evs), u), WrongTimes(env, s, evs, u), LastInstant(evs))
  {
    if evs != [] {
      var s, init, e := NewStore(persistent), evs[..|evs| - 1], evs[|evs| - 1];
      NoOldLockInvariant(env, persistent, init, u);
      LastStep(env, s, evs, u);
      WrongTimesInvariant(env, s, init, u);
      assert Clock(persistent, LastInstant(init)) <= Clock(persistent, e.at);
      if e.op.user == u && e.op.DoVerify? {
        NoOldLockStep(env, persistent, ViewOf(Run(env, s, init), u), WrongTimes(env, s, init, u), LastInstant(init), e);
      }
    }
  }

  /** The seconds a lockout still has at `now` when the last wrong code came at t, or None when it is over. */
  function LeftOf(persistent: bool, t: nat, now: nat): Option<nat> {
    if persistent then
      if now < t + 300_000_000 then Some((t + 300_000_000 - now) / 1_000_000) else None
    else
      if now / 1_000_000 < t / 1_000_000 + 300 then Some(t / 1_000_000 + 300 - now / 1_000_000) else None
  }

  /** The answer to a code, from the last setup and the instants of the wrong codes since the last correct one. */
  function VerifyAnswer(env: Env, persistent: bool, setup: Option<Declared>, ts: seq<nat>, code: string, now: nat): Response {
    var left := if |ts| >= 5 then LeftOf(persistent, ts[|ts| - 1], now) else None;
    if left.Some? then AlreadyLocked(left.value)
    else if setup.None? then NotConfigured
    else
      match env.check(setup.value.secret, code, now)
      case UnusableSecret => InternalError
      case MalformedCode => BadCode
      case Correct => Valid
      case Wrong => if |ts| + 1 >= 5 then LockedNow(300) else Invalid(5 - (|ts| + 1))
  }

  lemma LockedByTimes(p: bool, v: View, ts: seq<nat>, last: nat, now: nat)
    requires CountsWrong(p, v, ts) && NoOldLock(p, v, ts, last) && last <= now
    ensures var left := if |ts| >= 5 then LeftOf(p, ts[|ts| - 1], now) else None;
      if Locked(p, v, now) then left == Some(Remaining(p, v, now)) else left == None
  {
    assert Clock(p, last) <= Clock(p, now);
  }

  /** The same on one user's view. */
  lemma ViewAnswers(env: Env, p: bool, v: View, setup: Option<Declared>, ts: seq<nat>, last: nat, code: string, now: nat)
    requires CountsWrong(p, v, ts) && NoOldLock(p, v, ts, last) && last <= now && SecretOf(v, setup)
    ensures var r := VerifyView(env, p, v, code, now);
      && r.response == VerifyAnswer(env, p, setup, ts, code, now)
      && (r.locksCaller <==> r.response == LockedNow(300))
  {
    LockedByTimes(p, v, ts, last, now);
  }

  /**
   On every run a code is answered exactly as the history says, and the caller's key is locked exactly by
   the answer that locks the user.
   */
  lemma {:induction false} VerifyByHistory(env: Env, persistent: bool, evs: seq<Event>)
    requires evs != [] && Monotone(evs) && evs[|evs| - 1].op.DoVerify?
    ensures var s, init, e := NewStore(persistent), evs[..|evs| - 1], evs[|evs| - 1];
      var u := e.op.user;
      var answer := VerifyAnswer(env, persistent, LastSetup(env, init, u), WrongTimes(env, s, init, u), e.op.code, e.at);
      && LastResponse(env, s, evs) == answer
      && (Step(env, Run(env, s, init), e).locksCaller <==> answer == LockedNow(300))
  {
    var s, init, e := NewStore(persistent), evs[..|evs| - 1], evs[|evs| - 1];
    var u := e.op.user;
    WrongTimesInvariant(env, s, init, u);
    NoOldLockInvariant(env, persistent, init, u);
    SecretIsHistory(env, persistent, init, u);
    ViewAnswers(env, persistent, ViewOf(Run(env, s, init), u), LastSetup(env, init, u), WrongTimes(env, s, init, u),
                LastInstant(init), e.op.code, e.at);
    StepActs(env, Run(env, s, init), e);
  }

  // ---------------------------------------------------------------- verifying a backup code

  lemma {:induction false} CopiesCounted(env: Env, codes: seq<string>, d: Digest)
    ensures multiset(Digests(env, codes))[d] == Copies(env, codes, d)
  {
    if codes != [] {
      var init, last := codes[..|codes| - 1], codes[|codes| - 1];
      CopiesCounted(env, init, d);
      assert Digests(env, codes) == Digests(env, init) + [env.digest(last)];
    }
  }

  lemma {:induction false} StoredIsHistory(env: Env, s: Store, evs: seq<Event>, u: User)
    ensures var setup := LastSetup(env, evs, u);
      StoredCodes(env, s, evs, u) == if setup.Some? then Digests(env, setup.value.codes) else []
  {
    if evs != [] {
      StoredIsHistory(env, s, evs[..|evs| - 1], u);
      LastStep(env, s, evs, u);
    }
  }

  lemma {:induction false} AcceptedCounted(env: Env, s: Store, evs: seq<Event>, u: User, d: Digest)
    ensures multiset(AcceptedCodes(env, s, evs, u))[d] == AcceptedTimes(env, s, evs, u, d)
  {
    if evs != [] {
      AcceptedCounted(env, s, evs[..|evs| - 1], u, d);
      LastStep(env, s, evs, u);
    }
  }

  /** A code of the user's last setup is left that has the digest d. */
  ghost predicate CodeLeft(env: Env, s: Store, evs: seq<Event>, u: User, d: Digest) {
    var setup := LastSetup(env, evs, u);
    setup.Some? && AcceptedTimes(env, s, evs, u, d) < Copies(env, setup.value.codes, d)
  }

  lemma {:induction false} CodeLeftExactly(env: Env, persistent: bool, evs: seq<Event>, u: User, d: Digest)
    ensures HasBackupCode(Run(env, NewStore(persistent), evs), u, d) <==> CodeLeft(env, NewStore(persistent), evs, u, d)
  {
    var s, setup := NewStore(persistent), LastSetup(env, evs, u);
    BackupCodesConserved(env, s, evs, u);
    StoredIsHistory(env, s, evs, u);
    AcceptedCounted(env, s, evs, u, d);
    SecretIsHistory(env, persistent, evs, u);
    if setup.Some? {
      CopiesCounted(env, setup.value.codes, d);
    }
  }

  /**
   On every run a backup code is answered exactly as the history says: after three misses it is refused;
   before, it is accepted if and only if its digest was accepted fewer times since the last setup than
   that setup declared codes with it; a third miss is answered with the limit and locks the caller's key.
   */
  lemma {:induction false} BackupByHistory(env: Env, persistent: bool, evs: seq<Event>)
    requires evs != [] && evs[|evs| - 1].op.DoVerifyBackup?
    ensures var s, init, e := NewStore(persistent), evs[..|evs| - 1], evs[|evs| - 1];
      var u := e.op.user;
      var misses, left := Misses(env, s, init, u), CodeLeft(env, s, init, u, env.digest(e.op.code));
      && LastResponse(env, s, evs)
         == (if misses >= 3 then BackupLimit else if left then BackupValid else if misses == 2 then BackupLimit else BackupInvalid)
      && (Step(env, Run(env, s, init), e).locksCaller <==> misses == 2 && !left)
  {
    var s, init, e := NewStore(persistent), evs[..|evs| - 1], evs[|evs| - 1];
    var u := e.op.user;
    UsageCountsMisses(env, s, init, u);
    CodeLeftExactly(env, persistent, init, u, env.digest(e.op.code));
    UsageView(Run(env, s, init), u, u);
  }
}
