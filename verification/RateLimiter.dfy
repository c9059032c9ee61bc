/**
 The per-tenant rate limiter. Its counters live in Redis under one key per tenant and
 second; the script that increments a counter runs at the instant the limiter read.
 Instants are milliseconds.
 */
module RateLimiter {
  import opened Common

  const WINDOW_MS: nat := 1000

  datatype Counter = Counter(count: nat, expiresAt: Option<nat>)

  datatype Verdict = Allowed(remaining: nat) | Limited(retryAfterSecs: nat, ttlMs: nat)

  /** What to answer when Redis cannot be asked. */
  datatype FailMode = FailOpen | FailClosed

  datatype Limits = Limits(rps: nat, failMode: FailMode)

  // ---------------------------------------------------------------- keys

  function Digit(d: nat): char
    requires d < 10
  {
    "0123456789"[d]
  }

  function Decimal(n: nat): string {
    if n < 10 then [Digit(n)] else Decimal(n / 10) + [Digit(n % 10)]
  }

  function WindowKey(tenant: string, window: nat): string {
    "ratelimit:" + tenant + ":" + Decimal(window)
  }

  function DigitValue(c: char): nat {
    if '0' <= c <= '9' then (c as int) - ('0' as int) else 0
  }

  function ValueOf(s: string): nat {
    if s == "" then 0 else 10 * ValueOf(s[..|s| - 1]) + DigitValue(s[|s| - 1])
  }

  lemma DigitRoundTrip(d: nat)
    requires d < 10
    ensures DigitValue(Digit(d)) == d && Digit(d) != ':'
  {
  }

  /** Decimal numerals determine their value and contain no colon. */
  lemma {:induction false} DecimalRoundTrip(n: nat)
    ensures ValueOf(Decimal(n)) == n && ':' !in Decimal(n) && Decimal(n) != ""
  {
    if n < 10 {
      DigitRoundTrip(n);
      assert [Digit(n)][..0] == "";
    } else {
      DecimalRoundTrip(n / 10);
      DigitRoundTrip(n % 10);
      var s := Decimal(n);
      assert s[..|s| - 1] == Decimal(n / 10);
    }
  }

  lemma NoColonAfter(a: string, d: string)
    requires ':' !in d
    ensures var s := a + ":" + d; s[|a|] == ':' && forall i :: |a| < i < |s| ==> s[i] != ':'
  {
    var s := a + ":" + d;
    assert forall i :: |a| < i < |s| ==> s[i] == d[i - |a| - 1];
  }

  lemma LastColon(a: string, d: string, b: string, e: string)
    requires a + ":" + d == b + ":" + e && ':' !in d && ':' !in e
    ensures a == b && d == e
  {
    var s := a + ":" + d;
    NoColonAfter(a, d);
    NoColonAfter(b, e);
    assert |a| == |b|;
    assert s[..|a|] == a && s[..|b|] == b && s[|a| + 1..] == d && s[|b| + 1..] == e;
  }

  /** Different tenants or windows never share a counter, whatever the tenants' names. */
  lemma WindowKeyInjective(t: string, v: nat, u: string, w: nat)
    requires WindowKey(t, v) == WindowKey(u, w)
    ensures t == u && v == w
  {
    DecimalRoundTrip(v);
    DecimalRoundTrip(w);
    LastColon("ratelimit:" + t, Decimal(v), "ratelimit:" + u, Decimal(w));
    assert ("ratelimit:" + t)[10..] == t && ("ratelimit:" + u)[10..] == u;
  }

  /** A key is the fixed prefix, the tenant, a colon and the window's number in decimal digits. */
  lemma WindowKeyReads(t: string, w: nat)
    ensures var s, n := WindowKey(t, w), 10 + |t|;
      && |s| > n && s[..n] == "ratelimit:" + t && s[n] == ':' && ValueOf(s[n + 1..]) == w
      && forall i :: n < i < |s| ==> '0' <= s[i] <= '9'
  {
    var s, n := WindowKey(t, w), 10 + |t|;
    DecimalRoundTrip(w);
    DecimalDigits(w);
    assert s[..n] == "ratelimit:" + t && s[n + 1..] == Decimal(w);
    assert forall i :: n < i < |s| ==> s[i] == s[n + 1..][i - n - 1];
  }

  lemma {:induction false} DecimalDigits(n: nat)
    ensures forall i :: 0 <= i < |Decimal(n)| ==> '0' <= Decimal(n)[i] <= '9'
  {
    if n >= 10 {
      DecimalDigits(n / 10);
    }
  }

  // ---------------------------------------------------------------- the script

  predicate IsLive(counters: map<string, Counter>, key: string, now: nat) {
    key in counters && (counters[key].expiresAt.None? || now <= counters[key].expiresAt.value)
  }

  /** One increment; a counter that starts at one expires a window later. */
  function Bump(counters: map<string, Counter>, key: string, now: nat): map<string, Counter> {
    counters[key := if IsLive(counters, key, now) then counters[key].(count := counters[key].count + 1)
                    else Counter(1, Some(now + WINDOW_MS))]
  }

  function CeilSeconds(ms: nat): nat {
    (ms + 999) / 1000
  }

  function Judge(rps: nat, c: Counter, now: nat): Verdict {
    if c.count > rps then
      var ttl := if c.expiresAt.Some? && now <= c.expiresAt.value then c.expiresAt.value - now else WINDOW_MS;
      Limited(CeilSeconds(ttl), ttl)
    else Allowed(rps - c.count)
  }

  /** The answer without Redis. */
  function Unasked(limits: Limits): Verdict {
    if limits.failMode.FailOpen? then Allowed(limits.rps) else Limited(60, 60_000)
  }

  class TenantRateLimiter {
    const limits: Limits
    var counters: map<string, Counter>

    /** Counters start at one. */
    ghost predicate Valid()
      reads this
    {
      forall k :: k in counters ==> counters[k].count > 0
    }

    constructor (limits: Limits)
      ensures Valid() && counters == map[] && this.limits == limits
    {
      this.limits, counters := limits, map[];
    }

    /** `up` says whether Redis can be asked. */
    method Check(tenant: string, now: nat, up: bool) returns (r: Verdict)
      requires Valid()
      modifies this
      ensures Valid()
      ensures up ==> counters == Bump(old(counters), WindowKey(tenant, now / WINDOW_MS), now)
      ensures up ==> r == Judge(limits.rps, counters[WindowKey(tenant, now / WINDOW_MS)], now)
      ensures !up ==> counters == old(counters) && r == Unasked(limits)
    {
      if !up {
        match limits.failMode
        case FailOpen => return Allowed(limits.rps);
        case FailClosed => return Limited(60, 60_000);
      }
      var key := WindowKey(tenant, now / WINDOW_MS);
      if key in counters && counters[key].expiresAt.Some? && now > counters[key].expiresAt.value {
        counters := counters - {key};
      }
      var counter := if key in counters then counters[key] else Counter(0, None);
      var current := counter.count + 1;
      counters := counters[key := counter.(count := current)];
      if current == 1 {
        counters := counters[key := Counter(current, Some(now + WINDOW_MS))];
      }
      var ttl := if counters[key].expiresAt.Some? then counters[key].expiresAt.value - now else -1;
      if ttl < 0 {
        ttl := WINDOW_MS;
      }
      if current > limits.rps {
        return Limited(CeilSeconds(ttl), ttl);
      }
      r := Allowed(limits.rps - current);
    }

    method GetUsage(tenant: string, now: nat, up: bool) returns (n: Option<nat>)
      ensures n == if up then Some(Usage(counters, tenant, now)) else None
    {
      if !up {
        return None;
      }
      var key := WindowKey(tenant, now / WINDOW_MS);
      n := Some(if IsLive(counters, key, now) then counters[key].count else 0);
    }
  }

  function Usage(counters: map<string, Counter>, tenant: string, now: nat): nat {
    var key := WindowKey(tenant, now / WINDOW_MS);
    if IsLive(counters, key, now) then counters[key].count else 0
  }

  // ---------------------------------------------------------------- runs

  /** A check for a tenant, and whether Redis could be asked. */
  datatype Call = Call(tenant: string, up: bool)

  type Request = Timed<nat, Call>

  function Window(r: Request): nat {
    r.at / WINDOW_MS
  }

  function KeyOf(r: Request): string {
    WindowKey(r.op.tenant, Window(r))
  }

  function Run(rs: seq<Request>): map<string, Counter> {
    if rs == [] then map[]
    else
      var before, r := Run(rs[..|rs| - 1]), rs[|rs| - 1];
      if r.op.up then Bump(before, KeyOf(r), r.at) else before
  }

  /** The verdict on the last request. */
  function LastVerdict(limits: Limits, rs: seq<Request>): Verdict
    requires rs != []
  {
    var r := rs[|rs| - 1];
    if r.op.up then Judge(limits.rps, Run(rs)[KeyOf(r)], r.at) else Unasked(limits)
  }

  /** A request of the tenant that reached the counters, in the window. */
  predicate Counted(r: Request, tenant: string, w: nat) {
    r.op.tenant == tenant && r.op.up && Window(r) == w
  }

  /** How many requests of a tenant reached the counters in a window. */
  function Requests(rs: seq<Request>, tenant: string, w: nat): nat {
    if rs == [] then 0
    else
      var r := rs[|rs| - 1];
      Requests(rs[..|rs| - 1], tenant, w) + if Counted(r, tenant, w) then 1 else 0
  }

  /** The instant of a tenant's first request in a window, once there is one. */
  function FirstIn(rs: seq<Request>, tenant: string, w: nat): nat {
    if rs == [] then 0
    else
      var init, r := rs[..|rs| - 1], rs[|rs| - 1];
      if Requests(init, tenant, w) == 0 && Counted(r, tenant, w) then r.at
      else FirstIn(init, tenant, w)
  }

  /** A tenant's counter for a window holds the number of its requests there, and expires a window after the first. */
  lemma {:induction false} CounterIsHistory(rs: seq<Request>, tenant: string, w: nat)
    requires Monotone(rs)
    ensures var n, key, cs := Requests(rs, tenant, w), WindowKey(tenant, w), Run(rs);
      && (n == 0 <==> key !in cs)
      && (n > 0 ==> cs[key] == Counter(n, Some(FirstIn(rs, tenant, w) + WINDOW_MS)))
      && (n > 0 ==> FirstIn(rs, tenant, w) / WINDOW_MS == w && FirstIn(rs, tenant, w) <= rs[|rs| - 1].at)
  {
    if rs != [] {
      var init, r := rs[..|rs| - 1], rs[|rs| - 1];
      CounterIsHistory(init, tenant, w);
      if r.op.up && KeyOf(r) == WindowKey(tenant, w) {
        WindowKeyInjective(r.op.tenant, Window(r), tenant, w);
        ExpiryOutlivesWindow(FirstIn(init, tenant, w), r.at, w);
      }
    }
  }

  /** A counter that starts in a window is still there at every later instant of that window. */
  lemma ExpiryOutlivesWindow(first: nat, now: nat, w: nat)
    requires now / WINDOW_MS == w
    ensures first / WINDOW_MS == w ==> 1 <= first + WINDOW_MS - now
    ensures first / WINDOW_MS == w && first <= now ==> first + WINDOW_MS - now <= WINDOW_MS
  {
  }

  /**
   The answer to a request depends only on the history: it is the k-th of its tenant in its
   window; the first rps leave rps - k, the others are told to come back in one second.
   Without Redis the fail mode answers, and nothing is counted.
   */
  lemma {:induction false} VerdictIsHistory(limits: Limits, rs: seq<Request>)
    requires rs != [] && Monotone(rs)
    ensures var r, rps := rs[|rs| - 1], limits.rps;
      var k, ttl := Requests(rs, r.op.tenant, Window(r)), FirstIn(rs, r.op.tenant, Window(r)) + WINDOW_MS - r.at;
      && (r.op.up ==> 0 < k && 1 <= ttl <= WINDOW_MS)
      && (r.op.up ==> LastVerdict(limits, rs) == if k <= rps then Allowed(rps - k) else Limited(1, ttl))
      && (!r.op.up ==>
            && Run(rs) == Run(rs[..|rs| - 1])
            && LastVerdict(limits, rs) == if limits.failMode == FailOpen then Allowed(rps) else Limited(60, 60_000))
  {
    var r := rs[|rs| - 1];
    if r.op.up {
      var k, first := Requests(rs, r.op.tenant, Window(r)), FirstIn(rs, r.op.tenant, Window(r));
      assert k > 0;
      CounterIsHistory(rs, r.op.tenant, Window(r));
      ExpiryOutlivesWindow(first, r.at, Window(r));
      JudgeLive(limits.rps, k, first + WINDOW_MS, r.at);
    }
  }

  lemma JudgeLive(rps: nat, k: nat, expiry: nat, now: nat)
    requires 1 <= expiry - now <= WINDOW_MS
    ensures Judge(rps, Counter(k, Some(expiry)), now) == if k <= rps then Allowed(rps - k) else Limited(1, expiry - now)
  {
  }

  /** Waiting as told always reaches another window: the next one, or the sixtieth when Redis could not be asked. */
  lemma RetryReachesNextWindow(limits: Limits, rs: seq<Request>)
    requires rs != [] && Monotone(rs) && LastVerdict(limits, rs).Limited?
    ensures var r, v := rs[|rs| - 1], LastVerdict(limits, rs);
      var later := if r.op.up then 1 else 60;
      && (r.at + 1000 * v.retryAfterSecs) / WINDOW_MS == Window(r) + later
      && (r.at + v.ttlMs) / WINDOW_MS == Window(r) + later
  {
    VerdictIsHistory(limits, rs);
    var r := rs[|rs| - 1];
    if r.op.up {
      CounterIsHistory(rs, r.op.tenant, Window(r));
    }
  }

  lemma UsageIsHistory(rs: seq<Request>, tenant: string, now: nat)
    requires Monotone(rs) && (rs != [] ==> rs[|rs| - 1].at <= now)
    ensures Usage(Run(rs), tenant, now) == Requests(rs, tenant, now / WINDOW_MS)
  {
    CounterIsHistory(rs, tenant, now / WINDOW_MS);
    ExpiryOutlivesWindow(FirstIn(rs, tenant, now / WINDOW_MS), now, now / WINDOW_MS);
  }

  // ---------------------------------------------------------------- how much is let through

  /** Whether the last request is the tenant's, from a (included) to b (excluded). */
  predicate LastIn(rs: seq<Request>, tenant: string, a: nat, b: nat)
    requires rs != []
  {
    rs[|rs| - 1].op.tenant == tenant && a <= rs[|rs| - 1].at < b
  }

  /** How many of a tenant's requests from a to b were allowed. */
  function AllowedIn(limits: Limits, rs: seq<Request>, tenant: string, a: nat, b: nat): nat {
    if rs == [] then 0
    else
      AllowedIn(limits, rs[..|rs| - 1], tenant, a, b)
      + if LastIn(rs, tenant, a, b) && LastVerdict(limits, rs).Allowed? then 1 else 0
  }

  /** How many of them were allowed by a counter. */
  function PassedIn(rps: nat, rs: seq<Request>, tenant: string, a: nat, b: nat): nat {
    if rs == [] then 0
    else
      PassedIn(rps, rs[..|rs| - 1], tenant, a, b)
      + if LastIn(rs, tenant, a, b) && rs[|rs| - 1].op.up && LastVerdict(Limits(rps, FailClosed), rs).Allowed? then 1 else 0
  }

  /** How many of them came while Redis could not be asked. */
  function OutagesIn(rs: seq<Request>, tenant: string, a: nat, b: nat): nat {
    if rs == [] then 0
    else OutagesIn(rs[..|rs| - 1], tenant, a, b) + if LastIn(rs, tenant, a, b) && !rs[|rs| - 1].op.up then 1 else 0
  }

  /** What the fail mode lets through. */
  function LetThrough(limits: Limits, rs: seq<Request>, tenant: string, a: nat, b: nat): nat {
    if limits.failMode.FailOpen? then OutagesIn(rs, tenant, a, b) else 0
  }

  lemma {:induction false} AllowedParts(limits: Limits, rs: seq<Request>, tenant: string, a: nat, b: nat)
    ensures AllowedIn(limits, rs, tenant, a, b)
         == PassedIn(limits.rps, rs, tenant, a, b) + LetThrough(limits, rs, tenant, a, b)
  {
    if rs != [] {
      AllowedParts(limits, rs[..|rs| - 1], tenant, a, b);
    }
  }

  lemma {:induction false} WindowPasses(rps: nat, rs: seq<Request>, tenant: string, w: nat)
    requires Monotone(rs)
    ensures PassedIn(rps, rs, tenant, w * WINDOW_MS, (w + 1) * WINDOW_MS) == Min(Requests(rs, tenant, w), rps)
  {
    if rs != [] {
      WindowPasses(rps, rs[..|rs| - 1], tenant, w);
      VerdictIsHistory(Limits(rps, FailClosed), rs);
    }
  }

  /** In one window exactly the first rps counted requests of a tenant are allowed, and what the fail mode lets through. */
  lemma WindowLetsThrough(limits: Limits, rs: seq<Request>, tenant: string, w: nat)
    requires Monotone(rs)
    ensures var a, b := w * WINDOW_MS, (w + 1) * WINDOW_MS;
      AllowedIn(limits, rs, tenant, a, b)
      == Min(Requests(rs, tenant, w), limits.rps) + LetThrough(limits, rs, tenant, a, b)
  {
    WindowPasses(limits.rps, rs, tenant, w);
    AllowedParts(limits, rs, tenant, w * WINDOW_MS, (w + 1) * WINDOW_MS);
  }

  lemma {:induction false} PassedSplit(rps: nat, rs: seq<Request>, tenant: string, a: nat, b: nat, c: nat)
    requires a <= b <= c
    ensures PassedIn(rps, rs, tenant, a, c) == PassedIn(rps, rs, tenant, a, b) + PassedIn(rps, rs, tenant, b, c)
  {
    if rs != [] {
      PassedSplit(rps, rs[..|rs| - 1], tenant, a, b, c);
    }
  }

  lemma {:induction false} WindowsPass(rps: nat, rs: seq<Request>, tenant: string, lo: nat, hi: nat)
    requires Monotone(rs) && lo <= hi
    ensures PassedIn(rps, rs, tenant, lo * WINDOW_MS, hi * WINDOW_MS) <= rps * (hi - lo)
    decreases hi - lo
  {
    if lo == hi {
      NothingIn(rps, rs, tenant, lo * WINDOW_MS);
    } else {
      WindowsPass(rps, rs, tenant, lo, hi - 1);
      PassedSplit(rps, rs, tenant, lo * WINDOW_MS, (hi - 1) * WINDOW_MS, hi * WINDOW_MS);
      WindowPasses(rps, rs, tenant, hi - 1);
      assert rps * (hi - lo) == rps * (hi - 1 - lo) + rps;
    }
  }

  lemma {:induction false} NothingIn(rps: nat, rs: seq<Request>, tenant: string, a: nat)
    ensures PassedIn(rps, rs, tenant, a, a) == 0
  {
    if rs != [] {
      NothingIn(rps, rs[..|rs| - 1], tenant, a);
    }
  }

  /**
   Any interval of len milliseconds lets at most rps requests through for each second begun, and rps more,
   besides what the fail mode lets through, which is nothing when it is closed.
   */
  lemma IntervalBound(limits: Limits, rs: seq<Request>, tenant: string, a: nat, len: nat)
    requires Monotone(rs)
    ensures AllowedIn(limits, rs, tenant, a, a + len)
         <= limits.rps * ((len + 999) / 1000 + 1) + LetThrough(limits, rs, tenant, a, a + len)
  {
    AllowedParts(limits, rs, tenant, a, a + len);
    IntervalPasses(limits.rps, rs, tenant, a, len);
  }

  lemma IntervalPasses(rps: nat, rs: seq<Request>, tenant: string, a: nat, len: nat)
    requires Monotone(rs)
    ensures PassedIn(rps, rs, tenant, a, a + len) <= rps * (CeilSeconds(len) + 1)
  {
    var lo, hi := a / WINDOW_MS, (a + len + 999) / WINDOW_MS;
    WindowsPass(rps, rs, tenant, lo, hi);
    PassedSplit(rps, rs, tenant, lo * WINDOW_MS, a, hi * WINDOW_MS);
    PassedSplit(rps, rs, tenant, a, a + len, hi * WINDOW_MS);
    assert hi - lo <= CeilSeconds(len) + 1;
    MulMonotone(rps, hi - lo, CeilSeconds(len) + 1);
  }

  lemma MulMonotone(k: nat, a: int, b: int)
    requires a <= b
    ensures k * a <= k * b
  {
  }

  // ---------------------------------------------------------------- the bound is attained

  function Burst(tenant: string, at: nat, n: nat): (r: seq<Request>)
    ensures |r| == n && forall i :: 0 <= i < n ==> r[i] == Timed(at, Call(tenant, true))
  {
    seq(n, _ => Timed(at, Call(tenant, true)))
  }

  lemma {:induction false} RequestsInBurst(rs: seq<Request>, tenant: string, at: nat, n: nat, w: nat)
    ensures Requests(rs + Burst(tenant, at, n), tenant, w)
         == Requests(rs, tenant, w) + if at / WINDOW_MS == w then n else 0
  {
    if n == 0 {
      assert rs + Burst(tenant, at, 0) == rs;
    } else {
      RequestsInBurst(rs, tenant, at, n - 1, w);
      var all, less := rs + Burst(tenant, at, n), rs + Burst(tenant, at, n - 1);
      assert all[..|all| - 1] == less && all[|all| - 1] == Timed(at, Call(tenant, true));
    }
  }

  lemma {:induction false} SameRequestsCounted(rps: nat, rs: seq<Request>, tenant: string, a: nat, b: nat, c: nat, d: nat)
    requires forall i :: 0 <= i < |rs| ==> (a <= rs[i].at < b <==> c <= rs[i].at < d)
    ensures PassedIn(rps, rs, tenant, a, b) == PassedIn(rps, rs, tenant, c, d)
  {
    if rs != [] {
      SameRequestsCounted(rps, rs[..|rs| - 1], tenant, a, b, c, d);
    }
  }

  lemma BurstsAroundBoundary(rps: nat, tenant: string, w: nat)
    requires w <= 1
    ensures Requests(Burst(tenant, 999, rps) + Burst(tenant, 1000, rps), tenant, w) == rps
  {
    var e: seq<Request> := [];
    assert e + Burst(tenant, 999, rps) == Burst(tenant, 999, rps);
    RequestsInBurst(e, tenant, 999, rps, w);
    RequestsInBurst(Burst(tenant, 999, rps), tenant, 1000, rps, w);
  }

  /** It is no sliding window: a burst on each side of a boundary lets twice the limit through within one second. */
  lemma TwiceTheLimit(limits: Limits, tenant: string)
    ensures var rs := Burst(tenant, 999, limits.rps) + Burst(tenant, 1000, limits.rps);
      Monotone(rs) && AllowedIn(limits, rs, tenant, 999, 1999) == 2 * limits.rps
  {
    var rs := Burst(tenant, 999, limits.rps) + Burst(tenant, 1000, limits.rps);
    TwicePasses(limits.rps, tenant);
    AllowedParts(limits, rs, tenant, 999, 1999);
    NoOutages(rs, tenant, 999, 1999);
  }

  lemma {:induction false} NoOutages(rs: seq<Request>, tenant: string, a: nat, b: nat)
    requires forall i :: 0 <= i < |rs| ==> rs[i].op.up
    ensures OutagesIn(rs, tenant, a, b) == 0
  {
    if rs != [] {
      NoOutages(rs[..|rs| - 1], tenant, a, b);
    }
  }

  lemma TwicePasses(rps: nat, tenant: string)
    ensures var rs := Burst(tenant, 999, rps) + Burst(tenant, 1000, rps);
      Monotone(rs) && PassedIn(rps, rs, tenant, 999, 1999) == 2 * rps
  {
    var rs := Burst(tenant, 999, rps) + Burst(tenant, 1000, rps);
    assert forall i :: 0 <= i < |rs| ==> rs[i].at == if i < rps then 999 else 1000;
    BurstsAroundBoundary(rps, tenant, 0);
    BurstsAroundBoundary(rps, tenant, 1);
    WindowPasses(rps, rs, tenant, 0);
    WindowPasses(rps, rs, tenant, 1);
    PassedSplit(rps, rs, tenant, 0, 1000, 2000);
    SameRequestsCounted(rps, rs, tenant, 999, 1999, 0, 2000);
  }
}
