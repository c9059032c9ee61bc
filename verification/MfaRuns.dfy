/**
 Whole runs of the second-factor handlers: when the store in memory and the store in the
 database answer alike, how fast wrong codes can be tried, and where backup codes go.
 */
module MfaRuns {
  import opened Common
  import opened MfaStore
  import opened MfaHandlers
  import opened MfaViews

  datatype Op =
    | DoSetup(user: User, secret: Secret, codes: seq<string>)
    | DoVerify(user: User, code: string)
    | DoVerifyBackup(user: User, code: string)

  type Event = Timed<nat, Op>

  function Step(env: Env, s: Store, e: Event): Outcome {
    match e.op
    case DoSetup(u, secret, codes) => Setup(env, s, u, secret, codes)
    case DoVerify(u, code) => Verify(env, s, u, code, e.at)
    case DoVerifyBackup(u, code) => VerifyBackup(env, s, u, code)
  }

  function StepView(env: Env, persistent: bool, v: View, e: Event): Reply {
    match e.op
    case DoSetup(_, secret, codes) => SetupView(env, v, secret, codes)
    case DoVerify(_, code) => VerifyView(env, persistent, v, code, e.at)
    case DoVerifyBackup(_, code) => BackupView(env, v, code)
  }

  lemma StepActs(env: Env, s: Store, e: Event)
    ensures ActsAs(s, Step(env, s, e), e.op.user, StepView(env, s.persistent, ViewOf(s, e.op.user), e))
  {
    match e.op
    case DoSetup(u, secret, codes) => SetupActs(env, s, u, secret, codes);
    case DoVerify(u, code) => VerifyActs(env, s, u, code, e.at);
    case DoVerifyBackup(u, code) => VerifyBackupActs(env, s, u, code);
  }

  function Run(env: Env, s: Store, evs: seq<Event>): Store {
    if evs == [] then s else Step(env, Run(env, s, evs[..|evs| - 1]), evs[|evs| - 1]).store
  }

  /** The answer to the last event. */
  function LastResponse(env: Env, s: Store, evs: seq<Event>): Response
    requires evs != []
  {
    Step(env, Run(env, s, evs[..|evs| - 1]), evs[|evs| - 1]).response
  }

  /** The last step on one user's view: its own steps act through the view, all others leave it. */
  lemma LastStep(env: Env, s: Store, evs: seq<Event>, u: User)
    requires evs != []
    ensures var e, v := evs[|evs| - 1], ViewOf(Run(env, s, evs[..|evs| - 1]), u);
      var p, v' := Run(env, s, evs[..|evs| - 1]).persistent, ViewOf(Run(env, s, evs), u);
      && Run(env, s, evs).persistent == p
      && (e.op.user != u ==> v' == v)
      && (e.op.user == u ==>
            v' == StepView(env, p, v, e).view && LastResponse(env, s, evs) == StepView(env, p, v, e).response)
  {
    StepActs(env, Run(env, s, evs[..|evs| - 1]), evs[|evs| - 1]);
  }

  function Responses(env: Env, s: Store, evs: seq<Event>): (r: seq<Response>)
    ensures |r| == |evs|
  {
    if evs == [] then [] else Responses(env, s, evs[..|evs| - 1]) + [LastResponse(env, s, evs)]
  }

  // ---------------------------------------------------------------- memory against database

  /** Two views hold the same, up to a lockout that is over. */
  ghost predicate Agree(m: View, d: View, now: nat) {
    && m.secret == d.secret && m.codes == d.codes && m.failed == d.failed && m.usage == d.usage
    && match d.lock
       case Some(until) => m.lock == Some(until / SECOND)
       case None => m.lock.Some? ==> m.lock.value <= now / SECOND
  }

  ghost predicate Related(m: Store, d: Store, now: nat) {
    !m.persistent && d.persistent && forall u :: Agree(ViewOf(m, u), ViewOf(d, u), now)
  }

  /**
   A verification during the database's lockout, at an instant whose fraction of a second
   makes the memory, which drops fractions, see another remaining time or no lockout.
   */
  ghost predicate InFractionGap(d: Store, e: Event) {
    && e.op.DoVerify?
    && var until := Lock(d, e.op.user);
       until.Some? && e.at < until.value
       && (e.at / SECOND >= until.value / SECOND || e.at % SECOND > until.value % SECOND)
  }

  /** On agreeing views the answers agree exactly outside the gap, and then the views stay in agreement. */
  lemma ViewsAgreeExactly(env: Env, m: View, d: View, e: Event)
    requires Agree(m, d, e.at)
    ensures var gap := e.op.DoVerify? && d.lock.Some? && e.at < d.lock.value
              && (e.at / SECOND >= d.lock.value / SECOND || e.at % SECOND > d.lock.value % SECOND);
      var rm, rd := StepView(env, false, m, e), StepView(env, true, d, e);
      && (rm.response == rd.response <==> !gap)
      && (!gap ==> Agree(rm.view, rd.view, e.at) && rm.locksCaller == rd.locksCaller)
  {
    if e.op.DoVerify? {
      assert (e.at + TOTP_LOCKOUT_SECS * SECOND) / SECOND == e.at / SECOND + TOTP_LOCKOUT_SECS;
      if d.lock.Some? && e.at < d.lock.value {
        SecondsLeft(d.lock.value, e.at);
      }
    }
  }

  /** Dropping the fraction before or after subtracting gives the same seconds exactly when no borrow occurs. */
  lemma SecondsLeft(until: nat, now: nat)
    requires now < until
    ensures (until - now) / SECOND == until / SECOND - now / SECOND <==> now % SECOND <= until % SECOND
  {
  }

  lemma StepAgreesExactly(env: Env, m: Store, d: Store, e: Event, now: nat)
    requires Related(m, d, now) && now <= e.at
    ensures Step(env, m, e).response == Step(env, d, e).response <==> !InFractionGap(d, e)
    ensures !InFractionGap(d, e) ==>
      && Step(env, m, e).locksCaller == Step(env, d, e).locksCaller
      && Related(Step(env, m, e).store, Step(env, d, e).store, e.at)
  {
    var u := e.op.user;
    StepActs(env, m, e);
    StepActs(env, d, e);
    ViewsAgreeExactly(env, ViewOf(m, u), ViewOf(d, u), e);
  }

  ghost predicate GapFree(env: Env, d: Store, evs: seq<Event>) {
    forall i :: 0 <= i < |evs| ==> !InFractionGap(Run(env, d, evs[..i]), evs[i])
  }

  lemma SnocEqual<T>(a: seq<T>, x: T, b: seq<T>, y: T)
    requires |a| == |b|
    ensures a + [x] == b + [y] <==> a == b && x == y
  {
    assert (a + [x])[..|a|] == a && (b + [y])[..|b|] == b;
    assert (a + [x])[|a|] == x && (b + [y])[|b|] == y;
  }

  lemma GapFreeSnoc(env: Env, d: Store, evs: seq<Event>)
    requires evs != []
    ensures var init, e := evs[..|evs| - 1], evs[|evs| - 1];
      GapFree(env, d, evs) <==> GapFree(env, d, init) && !InFractionGap(Run(env, d, init), e)
  {
    var init, n := evs[..|evs| - 1], |evs| - 1;
    assert evs[..n] == init;
    assert forall i :: 0 <= i < n ==> init[..i] == evs[..i] && init[i] == evs[i];
  }

  lemma {:induction false} RunAgreesExactly(env: Env, evs: seq<Event>)
    requires Monotone(evs)
    ensures var m, d := NewStore(false), NewStore(true);
      && (Responses(env, m, evs) == Responses(env, d, evs) <==> GapFree(env, d, evs))
      && (GapFree(env, d, evs) ==> Related(Run(env, m, evs), Run(env, d, evs), LastInstant(evs)))
  {
    var m, d := NewStore(false), NewStore(true);
    if evs != [] {
      var init, e := evs[..|evs| - 1], evs[|evs| - 1];
      RunAgreesExactly(env, init);
      GapFreeSnoc(env, d, evs);
      SnocEqual(Responses(env, m, init), LastResponse(env, m, evs), Responses(env, d, init), LastResponse(env, d, evs));
      if GapFree(env, d, init) {
        StepAgreesExactly(env, Run(env, m, init), Run(env, d, init), e, LastInstant(init));
      }
    }
  }

  /**
   On every run with a clock that never goes back, the store in memory and the store in the
   database give the same answers exactly when no verification falls into the fraction gap.
   */
  lemma {:induction false} MemoryMatchesDatabase(env: Env, evs: seq<Event>)
    requires Monotone(evs)
    ensures Responses(env, NewStore(false), evs) == Responses(env, NewStore(true), evs)
       <==> GapFree(env, NewStore(true), evs)
  {
    RunAgreesExactly(env, evs);
  }

  ghost predicate WholeSeconds(evs: seq<Event>) {
    forall i :: 0 <= i < |evs| ==> evs[i].at % SECOND == 0
  }

  ghost predicate WholeLock(v: View) {
    v.lock.Some? ==> v.lock.value % SECOND == 0
  }

  lemma WholeSecondStep(env: Env, v: View, e: Event)
    requires WholeLock(v) && e.at % SECOND == 0
    ensures WholeLock(StepView(env, true, v, e).view)
  {
  }

  lemma {:induction false} WholeSecondLocks(env: Env, evs: seq<Event>, u: User)
    requires WholeSeconds(evs)
    ensures var s := Run(env, NewStore(true), evs);
      s.persistent && WholeLock(ViewOf(s, u))
  {
    if evs != [] {
      var init, e := evs[..|evs| - 1], evs[|evs| - 1];
      WholeSecondLocks(env, init, u);
      LastStep(env, NewStore(true), evs, u);
      WholeSecondStep(env, ViewOf(Run(env, NewStore(true), init), u), e);
    }
  }

  /** When every instant is a whole second, the two stores always answer alike. */
  lemma WholeSecondClocksAgree(env: Env, evs: seq<Event>)
    requires Monotone(evs) && WholeSeconds(evs)
    ensures Responses(env, NewStore(false), evs) == Responses(env, NewStore(true), evs)
  {
    forall i | 0 <= i < |evs|
      ensures !InFractionGap(Run(env, NewStore(true), evs[..i]), evs[i])
    {
      if evs[i].op.DoVerify? {
        WholeSecondLocks(env, evs[..i], evs[i].op.user);
      }
    }
    MemoryMatchesDatabase(env, evs);
  }

  /** Alone, clearing the attempts acts differently on the two stores: only the order of the handlers' calls hides it. */
  lemma ClearAloneDiffers(u: User)
    ensures var m, d := RecordBackupUsage(NewStore(false), u), RecordBackupUsage(NewStore(true), u);
      && Related(m, d, 0)
      && BackupUsage(ClearFailedAttempts(m, u), u) == 1 && BackupUsage(ClearFailedAttempts(d, u), u) == 0
  {
    var m, d := RecordBackupUsage(NewStore(false), u), RecordBackupUsage(NewStore(true), u);
    forall w
      ensures Agree(ViewOf(m, w), ViewOf(d, w), 0)
    {
      UsageView(NewStore(false), u, w);
      UsageView(NewStore(true), u, w);
    }
  }

  // ---------------------------------------------------------------- the gap is real

  /** A generator that finds every code wrong, with a key-encryption key in place. */
  ghost predicate RefusesAll(env: Env) {
    env.hasKek && forall secret, code, now :: env.check(secret, code, now) == Wrong
  }

  ghost function Until(persistent: bool, n: nat, t: nat): Option<nat> {
    if n < MAX_TOTP_ATTEMPTS then None else Some(Clock(persistent, t) + LockoutTicks(persistent))
  }

  /** After the events, all at instant t, n wrong codes of the user have been evaluated. */
  ghost predicate FailedAt(env: Env, persistent: bool, evs: seq<Event>, u: User, n: nat, t: nat) {
    && (forall i :: 0 <= i < |evs| ==> evs[i].at == t)
    && Run(env, NewStore(persistent), evs).persistent == persistent
    && ViewOf(Run(env, NewStore(persistent), evs), u) == View(Some([]), Some([]), n, 0, Until(persistent, n, t))
    && WrongTimes(env, NewStore(persistent), evs, u) == seq(n, _ => t)
  }

  lemma SetupAt(env: Env, persistent: bool, u: User, t: nat) returns (evs: seq<Event>)
    requires RefusesAll(env)
    ensures FailedAt(env, persistent, evs, u, 0, t)
  {
    evs := [Timed(t, DoSetup(u, [], []))];
    var s := NewStore(persistent);
    assert evs[..|evs| - 1] == [];
    assert Run(env, s, []) == s && ViewOf(s, u) == View(None, None, 0, 0, None);
    assert Digests(env, []) == [];
    LastStep(env, s, evs, u);
  }

  lemma OneMoreAt(env: Env, persistent: bool, evs: seq<Event>, u: User, n: nat, t: nat) returns (evs': seq<Event>)
    requires RefusesAll(env) && n < MAX_TOTP_ATTEMPTS && FailedAt(env, persistent, evs, u, n, t)
    ensures FailedAt(env, persistent, evs', u, n + 1, t)
  {
    evs' := evs + [Timed(t, DoVerify(u, ""))];
    assert evs'[..|evs'| - 1] == evs;
    LastStep(env, NewStore(persistent), evs', u);
    assert seq(n, _ => t) + [t] == seq(n + 1, _ => t);
  }

  lemma {:induction false} WrongCodesAt(env: Env, persistent: bool, u: User, n: nat, t: nat) returns (evs: seq<Event>)
    requires RefusesAll(env) && n <= MAX_TOTP_ATTEMPTS
    ensures FailedAt(env, persistent, evs, u, n, t)
  {
    if n == 0 {
      evs := SetupAt(env, persistent, u, t);
    } else {
      evs := WrongCodesAt(env, persistent, u, n - 1, t);
      evs := OneMoreAt(env, persistent, evs, u, n - 1, t);
    }
  }

  /** The gap is reached: half a second after a fifth wrong code, the two stores name different remaining times. */
  lemma FractionsDisagree(env: Env, u: User) returns (evs: seq<Event>)
    requires RefusesAll(env)
    ensures Monotone(evs) && Responses(env, NewStore(false), evs) != Responses(env, NewStore(true), evs)
  {
    var init := WrongCodesAt(env, true, u, 5, 0);
    var e := Timed(SECOND / 2, DoVerify(u, ""));
    evs := init + [e];
    assert evs[..|init|] == init && evs[|init|] == e;
    var s := Run(env, NewStore(true), init);
    assert Lock(s, u) == ViewOf(s, u).lock == Some(TOTP_LOCKOUT_SECS * SECOND);
    assert InFractionGap(s, e);
    MemoryMatchesDatabase(env, evs);
  }

  // ---------------------------------------------------------------- the pace of wrong codes

  function AddWrong(ts: seq<nat>, e: Event, r: Response): seq<nat> {
    match r
    case Valid => []
    case Invalid(_) => ts + [e.at]
    case LockedNow(_) => ts + [e.at]
    case _ => ts
  }

  /** The instants of the wrong codes that were evaluated for a user since the last correct one. */
  function WrongTimes(env: Env, s: Store, evs: seq<Event>, u: User): seq<nat> {
    if evs == [] then []
    else
      var ts, e := WrongTimes(env, s, evs[..|evs| - 1], u), evs[|evs| - 1];
      if e.op.DoVerify? && e.op.user == u then AddWrong(ts, e, LastResponse(env, s, evs)) else ts
  }

  ghost predicate Spaced(persistent: bool, ts: seq<nat>) {
    forall i :: MAX_TOTP_ATTEMPTS <= i < |ts| ==>
      Clock(persistent, ts[i]) >= Clock(persistent, ts[i - 1]) + LockoutTicks(persistent)
  }

  ghost predicate Ascending(ts: seq<nat>, last: nat) {
    (forall i, j :: 0 <= i < j < |ts| ==> ts[i] <= ts[j]) && (forall i :: 0 <= i < |ts| ==> ts[i] <= last)
  }

  /** The counter counts the wrong codes, and from the fifth on the lock runs from the last of them. */
  ghost predicate CountsWrong(persistent: bool, v: View, ts: seq<nat>) {
    && v.failed == |ts|
    && (|ts| >= MAX_TOTP_ATTEMPTS ==>
          v.lock == Some(Clock(persistent, ts[|ts| - 1]) + LockoutTicks(persistent)))
  }

  ghost predicate Paced(persistent: bool, v: View, ts: seq<nat>, last: nat) {
    CountsWrong(persistent, v, ts) && Spaced(persistent, ts) && Ascending(ts, last)
  }

  lemma FailureKeepsPace(p: bool, v: View, ts: seq<nat>, last: nat, now: nat)
    requires Paced(p, v, ts, last) && last <= now && !Locked(p, v, now)
    ensures Paced(p, Failed(p, v, now), ts + [now], now)
  {
  }

  lemma VerifyKeepsPace(env: Env, p: bool, v: View, ts: seq<nat>, last: nat, e: Event)
    requires Paced(p, v, ts, last) && last <= e.at && e.op.DoVerify?
    ensures var r := StepView(env, p, v, e); Paced(p, r.view, AddWrong(ts, e, r.response), e.at)
  {
    var r := StepView(env, p, v, e);
    if r.response.Invalid? || r.response.LockedNow? {
      FailureKeepsPace(p, v, ts, last, e.at);
    }
  }

  lemma OtherKeepsPace(env: Env, p: bool, v: View, ts: seq<nat>, last: nat, e: Event)
    requires Paced(p, v, ts, last) && last <= e.at && !e.op.DoVerify?
    ensures Paced(p, StepView(env, p, v, e).view, ts, e.at)
  {
  }

  lemma {:induction false} WrongTimesInvariant(env: Env, s: Store, evs: seq<Event>, u: User)
    requires FailedAttempts(s, u) == 0 && Monotone(evs)
    ensures Run(env, s, evs).persistent == s.persistent
    ensures Paced(s.persistent, ViewOf(Run(env, s, evs), u), WrongTimes(env, s, evs, u), LastInstant(evs))
  {
    if evs != [] {
      var init, e := evs[..|evs| - 1], evs[|evs| - 1];
      WrongTimesInvariant(env, s, init, u);
      LastStep(env, s, evs, u);
      var v, ts := ViewOf(Run(env, s, init), u), WrongTimes(env, s, init, u);
      if e.op.user == u && e.op.DoVerify? {
        VerifyKeepsPace(env, s.persistent, v, ts, LastInstant(init), e);
      } else if e.op.user == u {
        OtherKeepsPace(env, s.persistent, v, ts, LastInstant(init), e);
      }
    }
  }

  lemma {:induction false} SpacedBetween(persistent: bool, ts: seq<nat>, i: nat, j: nat)
    requires Spaced(persistent, ts) && MAX_TOTP_ATTEMPTS - 1 <= i <= j < |ts|
    ensures Clock(persistent, ts[j]) >= Clock(persistent, ts[i]) + (j - i) * LockoutTicks(persistent)
  {
    if j > i {
      SpacedBetween(persistent, ts, i, j - 1);
      assert (j - i) * LockoutTicks(persistent) == (j - 1 - i) * LockoutTicks(persistent) + LockoutTicks(persistent);
    }
  }

  /** Five may come at once anywhere; every further one costs a lockout, on the clock the store reads. */
  lemma SpacedGap(p: bool, ts: seq<nat>, last: nat, i: nat, j: nat)
    requires Spaced(p, ts) && Ascending(ts, last) && i <= j < |ts|
    ensures ts[i] <= ts[j] && Clock(p, ts[j]) >= Clock(p, ts[i]) + (j - i - 4) * LockoutTicks(p)
  {
    if j - i >= 4 {
      SpacedBetween(p, ts, i + 4, j);
      assert ts[i] <= ts[i + 4];
    }
  }

  /** A lockout in microseconds. */
  const LOCKOUT_MICROS: nat := TOTP_LOCKOUT_SECS * SECOND

  /** The microseconds by which a store may fall short of the lockouts it keeps. */
  function Slack(persistent: bool): nat {
    if persistent then 0 else SECOND - 1
  }

  /** From instant a to instant b there are m lockouts on the store's clock, and its seconds lose no fraction. */
  ghost predicate NothingBorrowed(persistent: bool, a: nat, b: nat, m: int) {
    persistent || b / SECOND > a / SECOND + m * TOTP_LOCKOUT_SECS || b % SECOND >= a % SECOND
  }

  /** A gap on the store's clock, in microseconds: short by less than a second, and only by a borrowed fraction. */
  lemma GapInMicros(p: bool, a: nat, b: nat, m: int)
    requires Clock(p, b) >= Clock(p, a) + m * LockoutTicks(p)
    ensures b + Slack(p) >= a + m * LOCKOUT_MICROS
    ensures b >= a + m * LOCKOUT_MICROS <==> NothingBorrowed(p, a, b, m)
  {
    assert a == a / SECOND * SECOND + a % SECOND && b == b / SECOND * SECOND + b % SECOND;
  }

  lemma CountInMicros(x: nat, k: int)
    ensures k <= x / LOCKOUT_MICROS <==> k * LOCKOUT_MICROS <= x
  {
  }

  /** The k-th wrong code (counted from zero) comes k - 4 lockouts after the fifth, but for the slack. */
  ghost predicate LateEnough(ts: seq<nat>, k: nat, slack: nat)
    requires 4 <= k < |ts|
  {
    ts[k] + slack >= ts[4] + (k - 4) * LOCKOUT_MICROS
  }

  /** From the i-th to the j-th, in T seconds, there are at most 5 + T / 300 wrong codes, but for the slack. */
  ghost predicate FewEnough(ts: seq<nat>, i: nat, j: nat, slack: nat)
    requires i <= j < |ts| && ts[i] <= ts[j]
  {
    j - i + 1 <= 5 + (ts[j] - ts[i] + slack) / LOCKOUT_MICROS
  }

  lemma LateInMicros(p: bool, ts: seq<nat>, k: nat)
    requires Spaced(p, ts) && 4 <= k < |ts|
    ensures LateEnough(ts, k, Slack(p))
    ensures LateEnough(ts, k, 0) <==> NothingBorrowed(p, ts[4], ts[k], k - 4)
  {
    SpacedBetween(p, ts, 4, k);
    GapInMicros(p, ts[4], ts[k], k - 4);
  }

  lemma FewInMicros(p: bool, ts: seq<nat>, last: nat, i: nat, j: nat)
    requires Spaced(p, ts) && Ascending(ts, last) && i <= j < |ts|
    ensures ts[i] <= ts[j] && FewEnough(ts, i, j, Slack(p))
    ensures FewEnough(ts, i, j, 0) <==> NothingBorrowed(p, ts[i], ts[j], j - i - 4)
  {
    SpacedGap(p, ts, last, i, j);
    GapInMicros(p, ts[i], ts[j], j - i - 4);
    CountInMicros(ts[j] - ts[i] + Slack(p), j - i - 4);
    CountInMicros(ts[j] - ts[i], j - i - 4);
  }

  /**
   Since a user's last correct code, the k-th wrong code that is evaluated (k from the fifth on) comes
   at least k - 5 lockouts of 300 seconds after the fifth, and between any two at most 5 + T / 300 are
   evaluated in T seconds. The database keeps both to the microsecond; the memory, whose clock drops
   fractions, may fall short by less than one second, and does exactly when a fraction is borrowed.
   */
  lemma {:induction false} WrongCodesAreRationed(env: Env, s: Store, evs: seq<Event>, u: User)
    requires FailedAttempts(s, u) == 0 && Monotone(evs)
    ensures var p, ts := s.persistent, WrongTimes(env, s, evs, u);
      && (forall k :: 4 <= k < |ts| ==>
            && LateEnough(ts, k, Slack(p))
            && (LateEnough(ts, k, 0) <==> NothingBorrowed(p, ts[4], ts[k], k - 4)))
      && (forall i, j :: 0 <= i <= j < |ts| ==>
            && ts[i] <= ts[j] && FewEnough(ts, i, j, Slack(p))
            && (FewEnough(ts, i, j, 0) <==> NothingBorrowed(p, ts[i], ts[j], j - i - 4)))
  {
    var p, ts := s.persistent, WrongTimes(env, s, evs, u);
    WrongTimesInvariant(env, s, evs, u);
    forall k | 4 <= k < |ts|
      ensures LateEnough(ts, k, Slack(p)) && (LateEnough(ts, k, 0) <==> NothingBorrowed(p, ts[4], ts[k], k - 4))
    {
      LateInMicros(p, ts, k);
    }
    forall i, j | 0 <= i <= j < |ts|
      ensures ts[i] <= ts[j] && FewEnough(ts, i, j, Slack(p))
      ensures FewEnough(ts, i, j, 0) <==> NothingBorrowed(p, ts[i], ts[j], j - i - 4)
    {
      FewInMicros(p, ts, LastInstant(evs), i, j);
    }
  }

  /** The memory does fall short: five wrong codes at 0.999999 s and a sixth, evaluated as well, at 300 s. */
  lemma SixWithinALockout(env: Env, u: User) returns (evs: seq<Event>)
    requires RefusesAll(env)
    ensures Monotone(evs)
    ensures var ts := WrongTimes(env, NewStore(false), evs, u);
      |ts| == 6 && ts[0] == ts[4] == SECOND - 1 && ts[5] == 300 * SECOND && !FewEnough(ts, 0, 5, 0)
  {
    var init := WrongCodesAt(env, false, u, 5, SECOND - 1);
    var e := Timed(300 * SECOND, DoVerify(u, ""));
    evs := init + [e];
    assert evs[..|evs| - 1] == init;
    LastStep(env, NewStore(false), evs, u);
    assert Clock(false, SECOND - 1) == 0 && Clock(false, 300 * SECOND) == 300;
  }

  // ---------------------------------------------------------------- backup codes

  function NextStored(env: Env, stored: seq<Digest>, e: Event, r: Response): seq<Digest> {
    if e.op.DoSetup? && r == SetUp then Digests(env, e.op.codes) else stored
  }

  function NextAccepted(env: Env, accepted: seq<Digest>, e: Event, r: Response): seq<Digest> {
    if e.op.DoSetup? && r == SetUp then []
    else if e.op.DoVerifyBackup? && r == BackupValid then accepted + [env.digest(e.op.code)]
    else accepted
  }

  /** The digests stored by the user's last setup. */
  function StoredCodes(env: Env, s: Store, evs: seq<Event>, u: User): seq<Digest> {
    if evs == [] then []
    else
      var e, before := evs[|evs| - 1], StoredCodes(env, s, evs[..|evs| - 1], u);
      if e.op.user == u then NextStored(env, before, e, LastResponse(env, s, evs)) else before
  }

  /** The digests of the backup codes accepted since the user's last setup. */
  function AcceptedCodes(env: Env, s: Store, evs: seq<Event>, u: User): seq<Digest> {
    if evs == [] then []
    else
      var e, before := evs[|evs| - 1], AcceptedCodes(env, s, evs[..|evs| - 1], u);
      if e.op.user == u then NextAccepted(env, before, e, LastResponse(env, s, evs)) else before
  }

  lemma WithoutOne(codes: seq<Digest>, i: nat)
    requires i < |codes|
    ensures multiset(Without(codes, i)) + multiset{codes[i]} == multiset(codes)
  {
    assert codes == codes[..i] + [codes[i]] + codes[i + 1..];
  }

  /** The stored digests are the remaining ones and the accepted ones. */
  ghost predicate Conserved(left: Option<seq<Digest>>, stored: seq<Digest>, accepted: seq<Digest>) {
    && (left == None ==> stored == [] && accepted == [])
    && (left.Some? ==> multiset(left.value) + multiset(accepted) == multiset(stored))
  }

  lemma BackupKeepsConserved(env: Env, v: View, code: string, stored: seq<Digest>, accepted: seq<Digest>)
    requires Conserved(v.codes, stored, accepted)
    ensures var r := BackupView(env, v, code);
      Conserved(r.view.codes, stored, if r.response == BackupValid then accepted + [env.digest(code)] else accepted)
  {
    var r, d := BackupView(env, v, code), env.digest(code);
    if r.response == BackupValid {
      WithoutOne(v.codes.value, Position(v.codes.value, d));
      assert multiset(accepted + [d]) == multiset(accepted) + multiset{d};
    }
  }

  lemma ConservedStep(env: Env, p: bool, v: View, e: Event, stored: seq<Digest>, accepted: seq<Digest>)
    requires Conserved(v.codes, stored, accepted)
    ensures var r := StepView(env, p, v, e);
      Conserved(r.view.codes, NextStored(env, stored, e, r.response), NextAccepted(env, accepted, e, r.response))
  {
    if e.op.DoVerifyBackup? {
      BackupKeepsConserved(env, v, e.op.code, stored, accepted);
    }
  }

  lemma {:induction false} ConservedInvariant(env: Env, s: Store, evs: seq<Event>, u: User)
    requires LoadBackupCodes(s, u) == None
    ensures Conserved(ViewOf(Run(env, s, evs), u).codes, StoredCodes(env, s, evs, u), AcceptedCodes(env, s, evs, u))
  {
    if evs != [] {
      var init := evs[..|evs| - 1];
      ConservedInvariant(env, s, init, u);
      LastStep(env, s, evs, u);
      ConservedStep(env, Run(env, s, init).persistent, ViewOf(Run(env, s, init), u), evs[|evs| - 1],
                    StoredCodes(env, s, init, u), AcceptedCodes(env, s, init, u));
    }
  }

  /**
   Backup codes are conserved: what a user's last setup stored is what remains together with
   what was accepted since, counted with multiplicity; so no code is accepted more often than
   it was stored.
   */
  lemma {:induction false} BackupCodesConserved(env: Env, s: Store, evs: seq<Event>, u: User)
    requires LoadBackupCodes(s, u) == None
    ensures var left := LoadBackupCodes(Run(env, s, evs), u);
      var stored, accepted := StoredCodes(env, s, evs, u), AcceptedCodes(env, s, evs, u);
      && Conserved(left, stored, accepted)
      && forall d :: multiset(accepted)[d] <= multiset(stored)[d]
  {
    ConservedInvariant(env, s, evs, u);
  }

  function AddMiss(n: nat, e: Event, r: Response): nat {
    if r == Valid || r == BackupValid then 0 else if e.op.DoVerifyBackup? then n + 1 else n
  }

  /** Backup calls that were not accepted since the user's last accepted code of either kind. */
  function Misses(env: Env, s: Store, evs: seq<Event>, u: User): nat {
    if evs == [] then 0
    else
      var n, e := Misses(env, s, evs[..|evs| - 1], u), evs[|evs| - 1];
      if e.op.user == u then AddMiss(n, e, LastResponse(env, s, evs)) else n
  }

  lemma UsageStep(env: Env, p: bool, v: View, e: Event, n: nat)
    requires v.usage == Min(n, MAX_BACKUP_CODE_USES)
    ensures var r := StepView(env, p, v, e); r.view.usage == Min(AddMiss(n, e, r.response), MAX_BACKUP_CODE_USES)
  {
  }

  lemma {:induction false} UsageInvariant(env: Env, s: Store, evs: seq<Event>, u: User)
    requires BackupUsage(s, u) == 0
    ensures ViewOf(Run(env, s, evs), u).usage == Min(Misses(env, s, evs, u), MAX_BACKUP_CODE_USES)
  {
    if evs != [] {
      var init := evs[..|evs| - 1];
      UsageInvariant(env, s, init, u);
      LastStep(env, s, evs, u);
      UsageStep(env, Run(env, s, init).persistent, ViewOf(Run(env, s, init), u), evs[|evs| - 1], Misses(env, s, init, u));
    }
  }

  /** The usage counter is the number of misses, but never more than three. */
  lemma {:induction false} UsageCountsMisses(env: Env, s: Store, evs: seq<Event>, u: User)
    requires BackupUsage(s, u) == 0
    ensures BackupUsage(Run(env, s, evs), u) == Min(Misses(env, s, evs, u), MAX_BACKUP_CODE_USES)
  {
    UsageInvariant(env, s, evs, u);
  }

  ghost predicate NoCorrectCode(env: Env, s: Store, evs: seq<Event>, u: User) {
    forall i :: 0 <= i < |evs| && evs[i].op.user == u ==> Step(env, Run(env, s, evs[..i]), evs[i]).response != Valid
  }

  lemma LimitStep(env: Env, p: bool, v: View, e: Event)
    requires v.usage >= MAX_BACKUP_CODE_USES && StepView(env, p, v, e).response != Valid
    ensures StepView(env, p, v, e).view.usage >= MAX_BACKUP_CODE_USES
  {
  }

  lemma {:induction false} UsageStaysAtLimit(env: Env, s: Store, evs: seq<Event>, u: User)
    requires BackupUsage(s, u) >= MAX_BACKUP_CODE_USES && NoCorrectCode(env, s, evs, u)
    ensures ViewOf(Run(env, s, evs), u).usage >= MAX_BACKUP_CODE_USES
  {
    if evs != [] {
      var init, e := evs[..|evs| - 1], evs[|evs| - 1];
      assert NoCorrectCode(env, s, init, u) by {
        assert forall i :: 0 <= i < |init| ==> init[..i] == evs[..i] && init[i] == evs[i];
      }
      UsageStaysAtLimit(env, s, init, u);
      LastStep(env, s, evs, u);
      if e.op.user == u && StepView(env, Run(env, s, init).persistent, ViewOf(Run(env, s, init), u), e).response != Valid {
        LimitStep(env, Run(env, s, init).persistent, ViewOf(Run(env, s, init), u), e);
      }
    }
  }

  /** At the limit every backup call is refused and changes nothing, until a correct code is verified. */
  lemma LimitHolds(env: Env, s: Store, evs: seq<Event>, u: User, code: string)
    requires BackupUsage(s, u) >= MAX_BACKUP_CODE_USES && NoCorrectCode(env, s, evs, u)
    ensures var s' := Run(env, s, evs);
      VerifyBackup(env, s', u, code) == Outcome(s', BackupLimit, false)
  {
    UsageStaysAtLimit(env, s, evs, u);
  }
}
