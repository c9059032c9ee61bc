/**
 The anomaly detector: accesses outside working hours, users with too many accesses, and
 tenants with too many recent authentication failures.

 The detector keeps counts by hour and a pruned list of failure instants. The main result,
 AlertIsHistory, says that every alert is nevertheless a function of the whole history.
 */
module Anomaly {
  import opened Common

  type Hour = h: nat | h < 24

  /** `timestamp` is in seconds since 1970-01-01, a Thursday; the clock is in microseconds. */
  datatype Context = Context(tenant: string, user: string, operation: string, timestamp: int, success: bool)

  datatype Config = Config(workStart: nat, workEnd: nat, maxOps: nat, maxAuthFailures: nat)

  datatype Severity = Low | Medium | High

  datatype Finding =
    | OffHours(hour: nat, minute: nat)
    | Weekend(hour: nat, minute: nat)
    | HighFrequency(operations: nat)
    | AuthFailure(failures: nat)

  datatype Alert = Alert(finding: Finding, severity: Severity, tenant: string, user: string)

  datatype AccessStats = AccessStats(total: nat, failed: nat, last: Option<int>, byHour: map<Hour, nat>)

  datatype TenantStats = TenantStats(users: map<string, AccessStats>, recentFailures: seq<int>)

  type State = map<string, TenantStats>

  const NO_STATS := AccessStats(0, 0, None, map[])
  const NO_TENANT := TenantStats(map[], [])
  const FAILURE_WINDOW: int := 15 * 60 * 1_000_000

  function HourOf(timestamp: int): Hour {
    timestamp / 3600 % 24
  }

  function MinuteOf(timestamp: int): nat {
    timestamp / 60 % 60
  }

  /** Days counted from Monday. */
  function WeekdayOf(timestamp: int): nat {
    (timestamp / 86400 + 3) % 7
  }

  predicate IsAuthentication(operation: string) {
    operation == "auth" || operation == "login"
  }

  function TenantOf(m: State, t: string): TenantStats {
    if t in m then m[t] else NO_TENANT
  }

  function UserOf(m: State, t: string, u: string): AccessStats {
    var users := TenantOf(m, t).users;
    if u in users then users[u] else NO_STATS
  }

  /** The sum of the counts of those hours below n that are in `hours`. */
  function SumBelow(byHour: map<Hour, nat>, hours: set<Hour>, n: nat): nat
    requires n <= 24 && hours <= byHour.Keys
  {
    if n == 0 then 0
    else SumBelow(byHour, hours, n - 1) + if n - 1 in hours then byHour[n - 1] else 0
  }

  function Sum(byHour: map<Hour, nat>): nat {
    SumBelow(byHour, byHour.Keys, 24)
  }

  function Operations(s: AccessStats, success: bool, hour: Hour, now: int): AccessStats {
    AccessStats(
      s.total + 1,
      if success then s.failed else s.failed + 1,
      Some(now),
      s.byHour[hour := (if hour in s.byHour then s.byHour[hour] else 0) + 1])
  }

  function Recorded(m: State, ctx: Context, now: int): State {
    var tenant := TenantOf(m, ctx.tenant);
    var s := Operations(UserOf(m, ctx.tenant, ctx.user), ctx.success, HourOf(ctx.timestamp), now);
    m[ctx.tenant := tenant.(users := tenant.users[ctx.user := s])]
  }

  /** The instants later than `since`. */
  function After(times: seq<int>, since: int): seq<int> {
    if times == [] then []
    else
      var earlier, last := After(times[..|times| - 1], since), times[|times| - 1];
      if last > since then earlier + [last] else earlier
  }

  function FailureRecorded(m: State, ctx: Context, now: int): State {
    var tenant := TenantOf(m, ctx.tenant);
    var kept := After(tenant.recentFailures, now - FAILURE_WINDOW);
    m[ctx.tenant := tenant.(recentFailures := if ctx.success then kept else kept + [now])]
  }

  /** The detector. */
  class AnomalyDetector {
    const config: Config
    var tenantStats: State

    constructor (config: Config)
      ensures this.config == config && tenantStats == map[]
    {
      this.config, tenantStats := config, map[];
    }

    method CheckOffHours(ctx: Context) returns (r: Option<Alert>)
      ensures r == OffHoursAlert(config, ctx)
    {
      var hour := HourOf(ctx.timestamp);
      var isWeekday := WeekdayOf(ctx.timestamp) != 5 && WeekdayOf(ctx.timestamp) != 6;
      if isWeekday && (hour < config.workStart || hour >= config.workEnd) {
        return Some(Alert(OffHours(hour, MinuteOf(ctx.timestamp)), Medium, ctx.tenant, ctx.user));
      }
      if !isWeekday {
        return Some(Alert(Weekend(hour, MinuteOf(ctx.timestamp)), Low, ctx.tenant, ctx.user));
      }
      r := None;
    }

    method RecordAccess(ctx: Context, now: int)
      modifies this
      ensures tenantStats == Recorded(old(tenantStats), ctx, now)
    {
      var tenant := if ctx.tenant in tenantStats then tenantStats[ctx.tenant] else NO_TENANT;
      var s := if ctx.user in tenant.users then tenant.users[ctx.user] else NO_STATS;
      var hour := HourOf(ctx.timestamp);
      s := s.(total := s.total + 1);
      if !ctx.success {
        s := s.(failed := s.failed + 1);
      }
      s := s.(last := Some(now));
      var before := if hour in s.byHour then s.byHour[hour] else 0;
      s := s.(byHour := s.byHour[hour := before + 1]);
      tenantStats := tenantStats[ctx.tenant := tenant.(users := tenant.users[ctx.user := s])];
    }

    /** The counts are added up in whatever order the map yields them. */
    method CountRecentOps(byHour: map<Hour, nat>) returns (r: nat)
      ensures r == Min(Sum(byHour), config.maxOps + 1)
    {
      var sum := 0;
      var rest := byHour.Keys;
      while rest != {}
        invariant rest <= byHour.Keys
        invariant sum + SumBelow(byHour, rest, 24) == Sum(byHour)
        decreases |rest|
      {
        var h :| h in rest;
        SumWithout(byHour, rest, h, 24);
        sum := sum + byHour[h];
        rest := rest - {h};
      }
      SumOfNone(byHour, 24);
      r := Min(sum, config.maxOps + 1);
    }

    method CheckHighFrequency(ctx: Context) returns (r: Option<Alert>)
      ensures r == FrequencyAlert(config, tenantStats, ctx)
    {
      if ctx.tenant in tenantStats && ctx.user in tenantStats[ctx.tenant].users {
        var s := tenantStats[ctx.tenant].users[ctx.user];
        if s.last.Some? {
          var ops := CountRecentOps(s.byHour);
          if ops > config.maxOps {
            return Some(Alert(HighFrequency(ops), High, ctx.tenant, ctx.user));
          }
        }
      }
      r := None;
    }

    method CheckAuthFailures(ctx: Context, now: int) returns (r: Option<Alert>)
      modifies this
      ensures !IsAuthentication(ctx.operation) ==> r == None && tenantStats == old(tenantStats)
      ensures IsAuthentication(ctx.operation) ==>
        && tenantStats == FailureRecorded(old(tenantStats), ctx, now)
        && r == FailureAlert(config, tenantStats, ctx)
        && TenantOf(tenantStats, ctx.tenant).recentFailures
           == After(TenantOf(old(tenantStats), ctx.tenant).recentFailures, now - 900_000_000) + (if ctx.success then [] else [now])
    {
      if ctx.operation != "auth" && ctx.operation != "login" {
        return None;
      }
      var tenant := if ctx.tenant in tenantStats then tenantStats[ctx.tenant] else NO_TENANT;
      var kept, since := [], now - FAILURE_WINDOW;
      for i := 0 to |tenant.recentFailures|
        invariant kept == After(tenant.recentFailures[..i], since)
      {
        assert tenant.recentFailures[..i + 1][..i] == tenant.recentFailures[..i];
        if tenant.recentFailures[i] > since {
          kept := kept + [tenant.recentFailures[i]];
        }
      }
      assert tenant.recentFailures[..|tenant.recentFailures|] == tenant.recentFailures;
      if !ctx.success {
        kept := kept + [now];
      }
      tenantStats := tenantStats[ctx.tenant := tenant.(recentFailures := kept)];
      if |kept| >= config.maxAuthFailures {
        return Some(Alert(AuthFailure(|kept|), High, ctx.tenant, ctx.user));
      }
      r := None;
    }

    method CheckAccess(ctx: Context, now: int) returns (r: Option<Alert>)
      modifies this
      ensures Outcome(r, tenantStats) == Access(config, old(tenantStats), ctx, now)
    {
      r := CheckOffHours(ctx);
      if r.Some? {
        return;
      }
      RecordAccess(ctx, now);
      r := CheckHighFrequency(ctx);
      if r.Some? {
        return;
      }
      if !ctx.success {
        r := CheckAuthFailures(ctx, now);
      }
    }
  }

  // ---------------------------------------------------------------- one access

  function OffHoursAlert(c: Config, ctx: Context): Option<Alert> {
    var hour, minute := HourOf(ctx.timestamp), MinuteOf(ctx.timestamp);
    if WeekdayOf(ctx.timestamp) >= 5 then Some(Alert(Weekend(hour, minute), Low, ctx.tenant, ctx.user))
    else if c.workStart <= hour < c.workEnd then None
    else Some(Alert(OffHours(hour, minute), Medium, ctx.tenant, ctx.user))
  }

  function FrequencyAlert(c: Config, m: State, ctx: Context): Option<Alert> {
    var s := UserOf(m, ctx.tenant, ctx.user);
    if s.last.Some? && Sum(s.byHour) > c.maxOps
    then Some(Alert(HighFrequency(c.maxOps + 1), High, ctx.tenant, ctx.user))
    else None
  }

  function FailureAlert(c: Config, m: State, ctx: Context): Option<Alert> {
    var n := |TenantOf(m, ctx.tenant).recentFailures|;
    if n >= c.maxAuthFailures then Some(Alert(AuthFailure(n), High, ctx.tenant, ctx.user)) else None
  }

  datatype Outcome = Outcome(alert: Option<Alert>, state: State)

  function Access(c: Config, m: State, ctx: Context, now: int): Outcome {
    var offHours := OffHoursAlert(c, ctx);
    if offHours.Some? then Outcome(offHours, m)
    else
      var m1 := Recorded(m, ctx, now);
      var frequent := FrequencyAlert(c, m1, ctx);
      if frequent.Some? || ctx.success || !IsAuthentication(ctx.operation) then Outcome(frequent, m1)
      else
        var m2 := FailureRecorded(m1, ctx, now);
        Outcome(FailureAlert(c, m2, ctx), m2)
  }

  // ---------------------------------------------------------------- sums

  lemma {:induction false} SumOfNone(byHour: map<Hour, nat>, n: nat)
    requires n <= 24
    ensures SumBelow(byHour, {}, n) == 0
  {
    if n > 0 {
      SumOfNone(byHour, n - 1);
    }
  }

  lemma {:induction false} SumWithout(byHour: map<Hour, nat>, hours: set<Hour>, h: Hour, n: nat)
    requires n <= 24 && h in hours && hours <= byHour.Keys
    ensures SumBelow(byHour, hours, n) == SumBelow(byHour, hours - {h}, n) + if h < n then byHour[h] else 0
  {
    if n > 0 {
      SumWithout(byHour, hours, h, n - 1);
    }
  }

  lemma {:induction false} SumPut(byHour: map<Hour, nat>, h: Hour, n: nat)
    requires n <= 24
    ensures var more := byHour[h := (if h in byHour then byHour[h] else 0) + 1];
      SumBelow(more, more.Keys, n) == SumBelow(byHour, byHour.Keys, n) + if h < n then 1 else 0
  {
    if n > 0 {
      SumPut(byHour, h, n - 1);
    }
  }

  // ---------------------------------------------------------------- the history

  type Event = Timed<int, Context>

  function Run(c: Config, evs: seq<Event>): State {
    if evs == [] then map[]
    else Access(c, Run(c, evs[..|evs| - 1]), evs[|evs| - 1].op, evs[|evs| - 1].at).state
  }

  predicate InHours(c: Config, ctx: Context) {
    WeekdayOf(ctx.timestamp) < 5 && c.workStart <= HourOf(ctx.timestamp) < c.workEnd
  }

  predicate Of(e: Event, t: string, u: string) {
    e.op.tenant == t && e.op.user == u
  }

  /** How often the user came in working hours, ever. */
  function Accesses(c: Config, evs: seq<Event>, t: string, u: string): nat {
    if evs == [] then 0
    else
      var e := evs[|evs| - 1];
      Accesses(c, evs[..|evs| - 1], t, u) + if Of(e, t, u) && InHours(c, e.op) then 1 else 0
  }

  function FailedAccesses(c: Config, evs: seq<Event>, t: string, u: string): nat {
    if evs == [] then 0
    else
      var e := evs[|evs| - 1];
      FailedAccesses(c, evs[..|evs| - 1], t, u) + if Of(e, t, u) && InHours(c, e.op) && !e.op.success then 1 else 0
  }

  /** Whether the last access of the history is a failed authentication that no other alert came before. */
  predicate EndsInFailure(c: Config, evs: seq<Event>) {
    && evs != []
    && var ctx := evs[|evs| - 1].op;
      InHours(c, ctx) && !ctx.success && IsAuthentication(ctx.operation) && Accesses(c, evs, ctx.tenant, ctx.user) <= c.maxOps
  }

  /** The tenant's failures later than `since`. */
  function FailuresAfter(c: Config, evs: seq<Event>, t: string, since: int): nat {
    if evs == [] then 0
    else
      var e := evs[|evs| - 1];
      FailuresAfter(c, evs[..|evs| - 1], t, since)
      + if e.op.tenant == t && EndsInFailure(c, evs) && e.at > since then 1 else 0
  }

  /** The alert for the last access of a history, from the history alone. */
  function AlertFor(c: Config, evs: seq<Event>): Option<Alert>
    requires evs != []
  {
    var e := evs[|evs| - 1];
    var ctx := e.op;
    if !InHours(c, ctx) then OffHoursAlert(c, ctx)
    else if Accesses(c, evs, ctx.tenant, ctx.user) > c.maxOps then
      Some(Alert(HighFrequency(c.maxOps + 1), High, ctx.tenant, ctx.user))
    else if ctx.success || !IsAuthentication(ctx.operation) then None
    else
      var n := FailuresAfter(c, evs, ctx.tenant, e.at - FAILURE_WINDOW);
      if n >= c.maxAuthFailures then Some(Alert(AuthFailure(n), High, ctx.tenant, ctx.user)) else None
  }

  // ---------------------------------------------------------------- statistics are the history

  /** How often the user came in a given hour of the working day. */
  function AccessesAt(c: Config, evs: seq<Event>, t: string, u: string, hour: nat): nat {
    if evs == [] then 0
    else
      var e := evs[|evs| - 1];
      AccessesAt(c, evs[..|evs| - 1], t, u, hour)
      + if Of(e, t, u) && InHours(c, e.op) && e.op.timestamp / 3600 % 24 == hour then 1 else 0
  }

  /** The clock at the user's last access in working hours. */
  function LastAccess(c: Config, evs: seq<Event>, t: string, u: string): Option<int> {
    if evs == [] then None
    else
      var e := evs[|evs| - 1];
      if Of(e, t, u) && InHours(c, e.op) then Some(e.at) else LastAccess(c, evs[..|evs| - 1], t, u)
  }

  function CountAt(byHour: map<Hour, nat>, hour: Hour): nat {
    if hour in byHour then byHour[hour] else 0
  }

  ghost predicate UserAgrees(c: Config, evs: seq<Event>, m: State, t: string, u: string) {
    var s := UserOf(m, t, u);
    && s.total == Accesses(c, evs, t, u) && s.failed == FailedAccesses(c, evs, t, u)
    && s.last == LastAccess(c, evs, t, u)
    && Sum(s.byHour) == s.total && (s.last.Some? <==> s.total > 0)
    && forall hour: Hour :: CountAt(s.byHour, hour) == AccessesAt(c, evs, t, u, hour)
  }

  lemma RecordedUser(m: State, ctx: Context, now: int, t: string, u: string)
    ensures UserOf(Recorded(m, ctx, now), t, u)
         == if ctx.tenant == t && ctx.user == u
            then Operations(UserOf(m, t, u), ctx.success, HourOf(ctx.timestamp), now)
            else UserOf(m, t, u)
    ensures TenantOf(Recorded(m, ctx, now), t).recentFailures == TenantOf(m, t).recentFailures
  {
  }

  lemma AccessUser(c: Config, m: State, ctx: Context, now: int, t: string, u: string)
    ensures UserOf(Access(c, m, ctx, now).state, t, u)
         == if InHours(c, ctx) then UserOf(Recorded(m, ctx, now), t, u) else UserOf(m, t, u)
  {
  }

  lemma OperationsCount(s: AccessStats, success: bool, hour: Hour, now: int)
    ensures var s' := Operations(s, success, hour, now);
      && Sum(s'.byHour) == Sum(s.byHour) + 1
      && forall h: Hour :: CountAt(s'.byHour, h) == CountAt(s.byHour, h) + if h == hour then 1 else 0
  {
    SumPut(s.byHour, hour, 24);
  }

  /** One access, on the statistics of one user. */
  lemma {:induction false} StatisticsStep(c: Config, evs: seq<Event>, m: State, t: string, u: string)
    requires evs != [] && UserAgrees(c, evs[..|evs| - 1], m, t, u)
    ensures UserAgrees(c, evs, Access(c, m, evs[|evs| - 1].op, evs[|evs| - 1].at).state, t, u)
  {
    var e := evs[|evs| - 1];
    AccessUser(c, m, e.op, e.at, t, u);
    RecordedUser(m, e.op, e.at, t, u);
    OperationsCount(UserOf(m, t, u), e.op.success, HourOf(e.op.timestamp), e.at);
  }

  /** What is kept per user is exactly what the history says, on every run. */
  lemma {:induction false} StatisticsAreHistory(c: Config, evs: seq<Event>, t: string, u: string)
    ensures UserAgrees(c, evs, Run(c, evs), t, u)
  {
    if evs == [] {
      NoStatistics(c, t, u);
    } else {
      StatisticsAreHistory(c, evs[..|evs| - 1], t, u);
      StatisticsStep(c, evs, Run(c, evs[..|evs| - 1]), t, u);
    }
  }

  lemma NoStatistics(c: Config, t: string, u: string)
    ensures UserAgrees(c, [], map[], t, u)
  {
    var none: map<Hour, nat> := map[];
    assert none.Keys == {};
    SumOfNone(none, 24);
  }

  // ---------------------------------------------------------------- the pruned list

  lemma {:induction false} AfterAfter(times: seq<int>, early: int, late: int)
    requires early <= late
    ensures After(After(times, early), late) == After(times, late)
  {
    if times != [] {
      AfterAfter(times[..|times| - 1], early, late);
      var rest, last := After(times[..|times| - 1], early), times[|times| - 1];
      assert (rest + [last])[..|rest|] == rest;
    }
  }

  lemma AfterSnoc(times: seq<int>, now: int, since: int)
    ensures After(times + [now], since) == if now > since then After(times, since) + [now] else After(times, since)
  {
    assert (times + [now])[..|times|] == times;
  }

  /** The instants of the tenant's failures. */
  ghost function FailureTimes(c: Config, evs: seq<Event>, t: string): seq<int> {
    if evs == [] then []
    else
      var e := evs[|evs| - 1];
      var earlier := FailureTimes(c, evs[..|evs| - 1], t);
      if e.op.tenant == t && EndsInFailure(c, evs) then earlier + [e.at] else earlier
  }

  lemma {:induction false} FailuresAreTimes(c: Config, evs: seq<Event>, t: string, since: int)
    ensures FailuresAfter(c, evs, t, since) == |After(FailureTimes(c, evs, t), since)|
  {
    if evs != [] {
      var init, e := evs[..|evs| - 1], evs[|evs| - 1];
      FailuresAreTimes(c, init, t, since);
      AfterSnoc(FailureTimes(c, init, t), e.at, since);
    }
  }

  /** What the list holds after its last pruning. */
  ghost function Kept(times: seq<int>): seq<int> {
    if times == [] then [] else After(times, times[|times| - 1] - FAILURE_WINDOW)
  }

  lemma {:induction false} KeptPush(times: seq<int>, now: int)
    requires times != [] ==> times[|times| - 1] <= now
    ensures After(Kept(times), now - FAILURE_WINDOW) + [now] == Kept(times + [now])
  {
    AfterSnoc(times, now, now - FAILURE_WINDOW);
    if times != [] {
      AfterAfter(times, times[|times| - 1] - FAILURE_WINDOW, now - FAILURE_WINDOW);
    }
  }

  lemma {:induction false} LastFailureInPast(c: Config, evs: seq<Event>, t: string, now: int)
    requires forall i :: 0 <= i < |evs| ==> evs[i].at <= now
    ensures var times := FailureTimes(c, evs, t); times != [] ==> times[|times| - 1] <= now
  {
    if evs != [] {
      LastFailureInPast(c, evs[..|evs| - 1], t, now);
    }
  }

  lemma FailureList(m: State, ctx: Context, now: int, t: string)
    requires !ctx.success
    ensures TenantOf(FailureRecorded(m, ctx, now), t).recentFailures
         == if ctx.tenant == t then After(TenantOf(m, t).recentFailures, now - FAILURE_WINDOW) + [now]
            else TenantOf(m, t).recentFailures
  {
  }

  /** The frequency alert, once the access is recorded, from the history. */
  lemma FrequencyIsHistory(c: Config, evs: seq<Event>)
    requires evs != [] && InHours(c, evs[|evs| - 1].op)
    ensures var ctx := evs[|evs| - 1].op;
      var m := Recorded(Run(c, evs[..|evs| - 1]), ctx, evs[|evs| - 1].at);
      FrequencyAlert(c, m, ctx).Some? <==> Accesses(c, evs, ctx.tenant, ctx.user) > c.maxOps
  {
    var e := evs[|evs| - 1];
    var m := Recorded(Run(c, evs[..|evs| - 1]), e.op, e.at);
    StatisticsAreHistory(c, evs, e.op.tenant, e.op.user);
    AccessUser(c, Run(c, evs[..|evs| - 1]), e.op, e.at, e.op.tenant, e.op.user);
    assert UserOf(Run(c, evs), e.op.tenant, e.op.user) == UserOf(m, e.op.tenant, e.op.user);
  }

  lemma ListStep(c: Config, evs: seq<Event>, t: string)
    requires evs != []
    ensures var e, before := evs[|evs| - 1], TenantOf(Run(c, evs[..|evs| - 1]), t).recentFailures;
      TenantOf(Run(c, evs), t).recentFailures
      == if e.op.tenant == t && EndsInFailure(c, evs) then After(before, e.at - FAILURE_WINDOW) + [e.at] else before
  {
    var e := evs[|evs| - 1];
    var m := Run(c, evs[..|evs| - 1]);
    if InHours(c, e.op) {
      FrequencyIsHistory(c, evs);
      RecordedUser(m, e.op, e.at, t, e.op.user);
      RecordedUser(m, e.op, e.at, e.op.tenant, e.op.user);
      if !e.op.success {
        FailureList(Recorded(m, e.op, e.at), e.op, e.at, t);
      }
    }
  }

  /** The failure instants of a run, but for its last access, and how the last access extends them. */
  lemma {:induction false} FailureTimesStep(c: Config, evs: seq<Event>, t: string)
    requires evs != [] && Monotone(evs)
    ensures var times, e := FailureTimes(c, evs[..|evs| - 1], t), evs[|evs| - 1];
      && (times != [] ==> times[|times| - 1] <= e.at)
      && FailureTimes(c, evs, t) == if e.op.tenant == t && EndsInFailure(c, evs) then times + [e.at] else times
  {
    LastFailureInPast(c, evs[..|evs| - 1], t, evs[|evs| - 1].at);
  }

  lemma {:induction false} ListIsHistory(c: Config, evs: seq<Event>, t: string)
    requires Monotone(evs)
    ensures TenantOf(Run(c, evs), t).recentFailures == Kept(FailureTimes(c, evs, t))
  {
    if evs != [] {
      var times, e := FailureTimes(c, evs[..|evs| - 1], t), evs[|evs| - 1];
      ListIsHistory(c, evs[..|evs| - 1], t);
      ListStep(c, evs, t);
      FailureTimesStep(c, evs, t);
      if e.op.tenant == t && EndsInFailure(c, evs) {
        KeptPush(times, e.at);
      }
    }
  }

  /** Every alert of every run is the one the whole history calls for; the pruned list and the capped sum lose nothing. */
  lemma {:induction false} AlertIsHistory(c: Config, evs: seq<Event>)
    requires evs != [] && Monotone(evs)
    ensures Access(c, Run(c, evs[..|evs| - 1]), evs[|evs| - 1].op, evs[|evs| - 1].at).alert == AlertFor(c, evs)
  {
    var e := evs[|evs| - 1];
    if InHours(c, e.op) {
      FrequencyIsHistory(c, evs);
      if EndsInFailure(c, evs) {
        ListIsHistory(c, evs, e.op.tenant);
        FailuresAreTimes(c, evs, e.op.tenant, e.at - FAILURE_WINDOW);
        var times := FailureTimes(c, evs, e.op.tenant);
        assert times[|times| - 1] == e.at;
      }
    }
  }

  /** An access outside working hours alerts and leaves no trace; inside them it is always recorded. */
  lemma OffHoursLeavesNoTrace(c: Config, evs: seq<Event>)
    requires evs != []
    ensures Run(c, evs) == Run(c, evs[..|evs| - 1]) <==> !InHours(c, evs[|evs| - 1].op)
  {
    var e := evs[|evs| - 1];
    if InHours(c, e.op) {
      StatisticsAreHistory(c, evs, e.op.tenant, e.op.user);
      StatisticsAreHistory(c, evs[..|evs| - 1], e.op.tenant, e.op.user);
    }
  }

  // ---------------------------------------------------------------- the calendar and the alerts, spelled out

  /** A timestamp as weeks, days, hours, minutes and seconds since midnight of Thursday, 1 January 1970. */
  ghost predicate IsDate(timestamp: int, week: int, day: nat, hour: nat, minute: nat, second: nat) {
    && timestamp == 604_800 * week + 86_400 * day + 3_600 * hour + 60 * minute + second
    && day < 7 && hour < 24 && minute < 60 && second < 60
  }

  /** Every timestamp has a date. */
  lemma HasDate(timestamp: int) returns (week: int, day: nat, hour: nat, minute: nat, second: nat)
    ensures IsDate(timestamp, week, day, hour, minute, second)
  {
    var d, h, m := timestamp / 86_400, timestamp / 3_600, timestamp / 60;
    week, day, hour, minute, second := d / 7, d % 7, h - 24 * d, m - 60 * h, timestamp - 60 * m;
  }

  /** The clock fields are those of the date; day 0 is a Thursday, so days 2 and 3 are the weekend. */
  lemma CalendarExactly(timestamp: int, week: int, day: nat, hour: nat, minute: nat, second: nat)
    requires IsDate(timestamp, week, day, hour, minute, second)
    ensures HourOf(timestamp) == hour && MinuteOf(timestamp) == minute && WeekdayOf(timestamp) == (day + 3) % 7
  {
    MinuteExactly(timestamp, 24 * (7 * week + day) + hour, minute, second);
    HourExactly(timestamp, 7 * week + day, hour, 60 * minute + second);
    DayExactly(timestamp, week, day, 3_600 * hour + 60 * minute + second);
  }

  lemma MinuteExactly(t: int, hours: int, minute: nat, rest: nat)
    requires t == 60 * (60 * hours + minute) + rest && minute < 60 && rest < 60
    ensures MinuteOf(t) == minute
  {
    assert t / 60 == 60 * hours + minute;
  }

  lemma HourExactly(t: int, days: int, hour: nat, rest: nat)
    requires t == 3_600 * (24 * days + hour) + rest && hour < 24 && rest < 3_600
    ensures HourOf(t) == hour
  {
    assert t / 3_600 == 24 * days + hour;
  }

  lemma DayExactly(t: int, weeks: int, day: nat, rest: nat)
    requires t == 86_400 * (7 * weeks + day) + rest && day < 7 && rest < 86_400
    ensures WeekdayOf(t) == (day + 3) % 7
  {
    assert t / 86_400 == 7 * weeks + day;
  }

  lemma InHoursExactly(c: Config, ctx: Context, week: int, day: nat, hour: nat, minute: nat, second: nat)
    requires IsDate(ctx.timestamp, week, day, hour, minute, second)
    ensures InHours(c, ctx) <==> day != 2 && day != 3 && c.workStart <= hour && hour < c.workEnd
  {
    CalendarExactly(ctx.timestamp, week, day, hour, minute, second);
  }

  /**
   Every alert of every run, spelled out: Low at weekends and Medium outside working hours with the time
   of day; then High with one more than the limit for a user over it; then High with the count for a
   failed auth or login when the tenant's failures of the last 15 minutes, in microseconds, reach
   the limit; and nothing otherwise.
   */
  lemma {:induction false} AlertSpelledOut(c: Config, evs: seq<Event>, week: int, day: nat, hour: nat, minute: nat, second: nat)
    requires evs != [] && Monotone(evs) && IsDate(evs[|evs| - 1].op.timestamp, week, day, hour, minute, second)
    ensures var e := evs[|evs| - 1];
      var t, u := e.op.tenant, e.op.user;
      var failures := FailuresAfter(c, evs, t, e.at - 900_000_000);
      Access(c, Run(c, evs[..|evs| - 1]), e.op, e.at).alert
      == if day == 2 || day == 3 then Some(Alert(Weekend(hour, minute), Low, t, u))
         else if hour < c.workStart || hour >= c.workEnd then Some(Alert(OffHours(hour, minute), Medium, t, u))
         else if Accesses(c, evs, t, u) > c.maxOps then Some(Alert(HighFrequency(c.maxOps + 1), High, t, u))
         else if !e.op.success && (e.op.operation == "auth" || e.op.operation == "login") && failures >= c.maxAuthFailures
         then Some(Alert(AuthFailure(failures), High, t, u))
         else None
  {
    var e := evs[|evs| - 1];
    AlertIsHistory(c, evs);
    CalendarExactly(e.op.timestamp, week, day, hour, minute, second);
    InHoursExactly(c, e.op, week, day, hour, minute, second);
  }

  /** Monday, 4 May 2026, 14:00 is a working hour and 3:00 of that day is not; Saturday, 2 May, is a weekend. */
  lemma KnownDates()
    ensures WeekdayOf(1_777_903_200) == 0 && HourOf(1_777_903_200) == 14 && MinuteOf(1_777_903_200) == 0
    ensures WeekdayOf(1_777_863_600) == 0 && HourOf(1_777_863_600) == 3
    ensures WeekdayOf(1_777_716_000) == 5 && WeekdayOf(0) == 3
  {
  }

  // ---------------------------------------------------------------- consequences

  lemma {:induction false} AccessesGrow(c: Config, evs: seq<Event>, more: seq<Event>, t: string, u: string)
    ensures Accesses(c, evs + more, t, u) >= Accesses(c, evs, t, u)
  {
    if more == [] {
      assert evs + more == evs;
    } else {
      AccessesGrow(c, evs, more[..|more| - 1], t, u);
      assert (evs + more)[..|evs + more| - 1] == evs + more[..|more| - 1];
    }
  }

  /**
   The limit per minute is a limit for ever: once a user's working-hour accesses reach it, every later
   one alerts, however much time has passed, and that user's failures are no longer counted.
   */
  lemma FrequencyNeverRecovers(c: Config, evs: seq<Event>, more: seq<Event>, e: Event)
    requires Accesses(c, evs, e.op.tenant, e.op.user) >= c.maxOps && InHours(c, e.op)
    ensures var before := Run(c, evs + more);
      && Access(c, before, e.op, e.at).alert == Some(Alert(HighFrequency(c.maxOps + 1), High, e.op.tenant, e.op.user))
      && TenantOf(Access(c, before, e.op, e.at).state, e.op.tenant).recentFailures
         == TenantOf(before, e.op.tenant).recentFailures
  {
    var before, all := evs + more, evs + more + [e];
    assert all[..|all| - 1] == before && all[|all| - 1] == e;
    AccessesGrow(c, evs, more, e.op.tenant, e.op.user);
    FrequencyIsHistory(c, all);
    RecordedUser(Run(c, before), e.op, e.at, e.op.tenant, e.op.user);
  }

  function OfTenant(evs: seq<Event>, t: string): seq<Event> {
    if evs == [] then []
    else
      var earlier, e := OfTenant(evs[..|evs| - 1], t), evs[|evs| - 1];
      if e.op.tenant == t then earlier + [e] else earlier
  }

  lemma {:induction false} AccessesOfTenant(c: Config, evs: seq<Event>, t: string, u: string)
    ensures Accesses(c, OfTenant(evs, t), t, u) == Accesses(c, evs, t, u)
  {
    if evs != [] {
      AccessesOfTenant(c, evs[..|evs| - 1], t, u);
      if evs[|evs| - 1].op.tenant == t {
        OfTenantStep(evs, t);
      }
    }
  }

  lemma OfTenantStep(evs: seq<Event>, t: string)
    requires evs != [] && evs[|evs| - 1].op.tenant == t
    ensures var s := OfTenant(evs, t);
      s != [] && s[|s| - 1] == evs[|evs| - 1] && s[..|s| - 1] == OfTenant(evs[..|evs| - 1], t)
  {
  }

  lemma {:induction false} FailuresOfTenant(c: Config, evs: seq<Event>, t: string, since: int)
    ensures FailuresAfter(c, OfTenant(evs, t), t, since) == FailuresAfter(c, evs, t, since)
  {
    if evs != [] {
      var e := evs[|evs| - 1];
      FailuresOfTenant(c, evs[..|evs| - 1], t, since);
      if e.op.tenant == t {
        OfTenantStep(evs, t);
        AccessesOfTenant(c, evs, t, e.op.user);
      }
    }
  }

  lemma {:induction false} OfTenantBounded(evs: seq<Event>, t: string, now: int)
    requires forall i :: 0 <= i < |evs| ==> evs[i].at <= now
    ensures forall i :: 0 <= i < |OfTenant(evs, t)| ==> OfTenant(evs, t)[i].at <= now
  {
    if evs != [] {
      OfTenantBounded(evs[..|evs| - 1], t, now);
    }
  }

  lemma {:induction false} OfTenantMonotone(evs: seq<Event>, t: string)
    requires Monotone(evs)
    ensures Monotone(OfTenant(evs, t))
  {
    if evs != [] {
      OfTenantMonotone(evs[..|evs| - 1], t);
      OfTenantBounded(evs[..|evs| - 1], t, evs[|evs| - 1].at);
    }
  }

  lemma AlertForOwn(c: Config, evs: seq<Event>)
    requires evs != []
    ensures var own := OfTenant(evs, evs[|evs| - 1].op.tenant); own != [] && AlertFor(c, own) == AlertFor(c, evs)
  {
    var e := evs[|evs| - 1];
    OfTenantStep(evs, e.op.tenant);
    AccessesOfTenant(c, evs, e.op.tenant, e.op.user);
    FailuresOfTenant(c, evs, e.op.tenant, e.at - FAILURE_WINDOW);
  }

  /** Tenants are watched apart: an alert is the same as if the other tenants' accesses had not happened. */
  lemma TenantsAreIndependent(c: Config, evs: seq<Event>)
    requires evs != [] && Monotone(evs)
    ensures var e := evs[|evs| - 1];
      var own := OfTenant(evs[..|evs| - 1], e.op.tenant);
      Access(c, Run(c, evs[..|evs| - 1]), e.op, e.at).alert == Access(c, Run(c, own), e.op, e.at).alert
  {
    var e := evs[|evs| - 1];
    var t, own := e.op.tenant, OfTenant(evs, e.op.tenant);
    OfTenantStep(evs, t);
    OfTenantMonotone(evs, t);
    AlertIsHistory(c, evs);
    AlertIsHistory(c, own);
    AlertForOwn(c, evs);
  }
}
