/**
 The in-memory cache: a bounded map of entries that expire. When it is full it drops the
 expired entries and then, if it is still full, any one entry; which one is left open.
 */
module MemoryCache {
  import opened Common

  datatype Entry<T> = Entry(value: T, expiresAt: nat)
  {
    predicate IsExpired(now: nat) {
      now > expiresAt
    }
  }

  type Entries<T> = map<string, Entry<T>>

  function Live<T>(m: Entries<T>, now: nat): (r: Entries<T>)
    ensures r.Keys <= m.Keys
  {
    map k | k in m && !m[k].IsExpired(now) :: m[k]
  }

  function Lookup<T>(m: Entries<T>, key: string, now: nat): Option<T> {
    if key in m && !m[key].IsExpired(now) then Some(m[key].value) else None
  }

  /** What a set may leave behind. */
  ghost predicate SetStep<T>(m: Entries<T>, m': Entries<T>, max: nat, key: string, e: Entry<T>, now: nat) {
    if |m| < max then m' == m[key := e]
    else
      var l := Live(m, now);
      if |l| < max || l == map[] then m' == l[key := e]
      else exists victim :: victim in l && m' == (l - {victim})[key := e]
  }

  class Cache<T> {
    const maxEntries: nat
    var entries: Entries<T>

    constructor (maxEntries: nat)
      ensures this.maxEntries == maxEntries && entries == map[]
    {
      this.maxEntries, entries := maxEntries, map[];
    }

    method Get(key: string, now: nat) returns (r: Option<T>)
      ensures r == Lookup(entries, key, now)
      ensures r.Some? <==> key in entries && now <= entries[key].expiresAt
      ensures r.Some? ==> r.value == entries[key].value
    {
      if key in entries && !entries[key].IsExpired(now) {
        return Some(entries[key].value);
      }
      r := None;
    }

    method Set(key: string, value: T, ttl: nat, now: nat)
      modifies this
      ensures SetStep(old(entries), entries, maxEntries, key, Entry(value, now + ttl), now)
    {
      if |entries| >= maxEntries {
        entries := Live(entries, now);
        if |entries| >= maxEntries && entries != map[] {
          var first :| first in entries;
          entries := entries - {first};
        }
      }
      entries := entries[key := Entry(value, now + ttl)];
    }

    method Remove(key: string)
      modifies this
      ensures entries == old(entries) - {key}
    {
      entries := entries - {key};
    }

    method Clear()
      modifies this
      ensures entries == map[]
    {
      entries := map[];
    }

    method Cleanup(now: nat)
      modifies this
      ensures entries == Live(old(entries), now)
      ensures forall k :: k in entries <==> k in old(entries) && now <= old(entries)[k].expiresAt
      ensures forall k :: k in entries ==> entries[k] == old(entries)[k]
    {
      entries := Live(entries, now);
    }
  }

  // ---------------------------------------------------------------- runs

  datatype Op<T> = DoSet(key: string, value: T, ttl: nat) | DoRemove(key: string) | DoClear | DoCleanup

  type Event<T> = Timed<nat, Op<T>>

  ghost predicate Step<T>(m: Entries<T>, m': Entries<T>, max: nat, e: Event<T>) {
    match e.op
    case DoSet(key, value, ttl) => SetStep(m, m', max, key, Entry(value, e.at + ttl), e.at)
    case DoRemove(key) => m' == m - {key}
    case DoClear => m' == map[]
    case DoCleanup => m' == Live(m, e.at)
  }

  /** A cache that may have come to hold m through the events, whatever it evicted on the way. */
  ghost predicate Reaches<T>(evs: seq<Event<T>>, max: nat, states: seq<Entries<T>>) {
    && |states| == |evs| + 1 && states[0] == map[]
    && forall i :: 0 <= i < |evs| ==> Step(states[i], states[i + 1], max, evs[i])
  }

  /** The map without bound: it forgets only what is removed or cleared. */
  function Ideal<T>(evs: seq<Event<T>>): Entries<T> {
    if evs == [] then map[]
    else
      var m, e := Ideal(evs[..|evs| - 1]), evs[|evs| - 1];
      match e.op
      case DoSet(key, value, ttl) => m[key := Entry(value, e.at + ttl)]
      case DoRemove(key) => m - {key}
      case DoClear => map[]
      case DoCleanup => m
  }

  ghost predicate Within<T>(m: Entries<T>, n: Entries<T>) {
    forall k :: k in m ==> k in n && m[k] == n[k]
  }

  lemma RemovedSize<T>(m: Entries<T>, k: string)
    requires k in m
    ensures |m - {k}| == |m| - 1
  {
    assert (m - {k}).Keys == m.Keys - {k};
  }

  lemma AddedSize<T>(m: Entries<T>, k: string, e: Entry<T>)
    ensures |m[k := e]| <= |m| + 1
  {
    assert m[k := e].Keys == m.Keys + {k};
  }

  lemma SubsetSize<T>(m: Entries<T>, n: Entries<T>)
    requires m.Keys <= n.Keys
    ensures |m| <= |n|
  {
    SubsetCard(m.Keys, n.Keys);
  }

  lemma SubsetCard<K>(a: set<K>, b: set<K>)
    requires a <= b
    ensures |a| <= |b|
  {
    assert b == a + (b - a);
  }

  lemma SetStepBound<T>(m: Entries<T>, m': Entries<T>, max: nat, key: string, e: Entry<T>, now: nat)
    requires SetStep(m, m', max, key, e, now) && |m| <= Max(1, max)
    ensures |m'| <= Max(1, max)
  {
    var l := Live(m, now);
    SubsetSize(l, m);
    if |m| < max {
      AddedSize(m, key, e);
    } else if |l| < max || l == map[] {
      AddedSize(l, key, e);
    } else {
      var victim :| victim in l && m' == (l - {victim})[key := e];
      RemovedSize(l, victim);
      AddedSize(l - {victim}, key, e);
    }
  }

  lemma StepBound<T>(m: Entries<T>, m': Entries<T>, max: nat, e: Event<T>)
    requires Step(m, m', max, e) && |m| <= Max(1, max)
    ensures |m'| <= Max(1, max)
  {
    match e.op
    case DoSet(key, value, ttl) =>
      SetStepBound(m, m', max, key, Entry(value, e.at + ttl), e.at);
    case _ =>
      SubsetSize(m', m);
  }

  lemma SetStepWithin<T>(m: Entries<T>, m': Entries<T>, n: Entries<T>, max: nat, key: string, e: Entry<T>, now: nat)
    requires SetStep(m, m', max, key, e, now) && Within(m, n)
    ensures Within(m', n[key := e])
  {
  }

  lemma StepWithin<T>(m: Entries<T>, m': Entries<T>, max: nat, evs: seq<Event<T>>)
    requires evs != [] && Step(m, m', max, evs[|evs| - 1])
    requires Within(m, Ideal(evs[..|evs| - 1]))
    ensures Within(m', Ideal(evs))
  {
    var n, e := Ideal(evs[..|evs| - 1]), evs[|evs| - 1];
    match e.op
    case DoSet(key, value, ttl) =>
      SetStepWithin(m, m', n, max, key, Entry(value, e.at + ttl), e.at);
    case _ =>
  }

  lemma {:induction false} ReachedInvariant<T>(evs: seq<Event<T>>, max: nat, states: seq<Entries<T>>)
    requires Reaches(evs, max, states)
    ensures Within(states[|evs|], Ideal(evs)) && |states[|evs|]| <= Max(1, max)
  {
    if evs != [] {
      ReachedInvariant(evs[..|evs| - 1], max, states[..|evs|]);
      StepWithin(states[|evs| - 1], states[|evs|], max, evs);
      StepBound(states[|evs| - 1], states[|evs|], max, evs[|evs| - 1]);
    }
  }

  /** A set: what, when, and for how long. */
  datatype Stored<T> = Stored(value: T, at: nat, ttl: nat)

  /** The last set of a key, unless the key was removed or everything was cleared after it. */
  function LastSet<T>(evs: seq<Event<T>>, key: string): Option<Stored<T>> {
    if evs == [] then None
    else
      var e, before := evs[|evs| - 1], LastSet(evs[..|evs| - 1], key);
      match e.op
      case DoSet(k, value, ttl) => if k == key then Some(Stored(value, e.at, ttl)) else before
      case DoRemove(k) => if k == key then None else before
      case DoClear => None
      case DoCleanup => before
  }

  lemma {:induction false} IdealIsHistory<T>(evs: seq<Event<T>>, key: string)
    ensures key in Ideal(evs) <==> LastSet(evs, key).Some?
    ensures key in Ideal(evs) ==>
      var s := LastSet(evs, key).value; Ideal(evs)[key] == Entry(s.value, s.at + s.ttl)
  {
    if evs != [] {
      IdealIsHistory(evs[..|evs| - 1], key);
    }
  }

  /**
   On every run a lookup gives a value only if the last set of the key gave it, and not longer ago
   than its time to live; and the cache never holds more than its bound (or one entry, when the
   bound is zero).
   */
  lemma NeverWrong<T>(evs: seq<Event<T>>, max: nat, states: seq<Entries<T>>, key: string, now: nat)
    requires Reaches(evs, max, states)
    ensures var r, s := Lookup(states[|evs|], key, now), LastSet(evs, key);
      r.Some? ==> s.Some? && r.value == s.value.value && now <= s.value.at + s.value.ttl
    ensures |states[|evs|]| <= Max(1, max)
  {
    ReachedInvariant(evs, max, states);
    IdealIsHistory(evs, key);
  }

  /** After a cleanup exactly those keys of before it remain that were last set no longer ago than their time to live. */
  lemma {:induction false} CleanupExactly<T>(evs: seq<Event<T>>, max: nat, states: seq<Entries<T>>, key: string)
    requires Reaches(evs, max, states) && evs != [] && evs[|evs| - 1].op.DoCleanup?
    ensures var now, s := evs[|evs| - 1].at, LastSet(evs, key);
      key in states[|evs|] <==> key in states[|evs| - 1] && s.Some? && now <= s.value.at + s.value.ttl
  {
    var init, e, m := evs[..|evs| - 1], evs[|evs| - 1], states[|evs| - 1];
    assert Step(m, states[|evs|], max, e);
    ReachedInvariant(init, max, states[..|evs|]);
    IdealIsHistory(init, key);
  }

  // ---------------------------------------------------------------- when nothing is lost

  /** The keys set since the last clear. */
  function KeysSet<T>(evs: seq<Event<T>>): set<string> {
    if evs == [] then {}
    else
      var ks, e := KeysSet(evs[..|evs| - 1]), evs[|evs| - 1];
      match e.op
      case DoSet(key, _, _) => ks + {key}
      case DoClear => {}
      case _ => ks
  }

  /** The cache holds every entry of the unbounded map that has not expired. */
  ghost predicate Complete<T>(m: Entries<T>, ideal: Entries<T>, now: nat) {
    forall k :: k in ideal && !ideal[k].IsExpired(now) ==> k in m && m[k] == ideal[k]
  }

  lemma SetStaysComplete<T>(m: Entries<T>, m': Entries<T>, ideal: Entries<T>, max: nat, key: string,
                            e: Entry<T>, before: nat, now: nat)
    requires SetStep(m, m', max, key, e, now) && |m| < max && Complete(m, ideal, before) && before <= now
    ensures Complete(m', ideal[key := e], now)
  {
  }

  lemma StepStaysComplete<T>(m: Entries<T>, m': Entries<T>, max: nat, evs: seq<Event<T>>, before: nat)
    requires evs != [] && Step(m, m', max, evs[|evs| - 1]) && |m| < max && before <= evs[|evs| - 1].at
    requires Complete(m, Ideal(evs[..|evs| - 1]), before)
    ensures Complete(m', Ideal(evs), evs[|evs| - 1].at)
  {
    var n, e := Ideal(evs[..|evs| - 1]), evs[|evs| - 1];
    match e.op
    case DoSet(key, value, ttl) =>
      SetStaysComplete(m, m', n, max, key, Entry(value, e.at + ttl), before, e.at);
    case _ =>
  }

  lemma StepKeys<T>(m: Entries<T>, m': Entries<T>, max: nat, evs: seq<Event<T>>)
    requires evs != [] && Step(m, m', max, evs[|evs| - 1]) && m.Keys <= KeysSet(evs[..|evs| - 1])
    ensures m'.Keys <= KeysSet(evs)
  {
  }

  lemma {:induction false} CompleteInvariant<T>(evs: seq<Event<T>>, max: nat, states: seq<Entries<T>>)
    requires Reaches(evs, max, states) && Monotone(evs) && |KeysSet(evs)| < max
    ensures states[|evs|].Keys <= KeysSet(evs) && Complete(states[|evs|], Ideal(evs), LastInstant(evs))
  {
    if evs != [] && !evs[|evs| - 1].op.DoClear? {
      var init, m, m' := evs[..|evs| - 1], states[|evs| - 1], states[|evs|];
      SubsetCard(KeysSet(init), KeysSet(evs));
      CompleteInvariant(init, max, states[..|evs|]);
      SubsetCard(m.Keys, KeysSet(init));
      StepKeys(m, m', max, evs);
      StepStaysComplete(m, m', max, evs, LastInstant(init));
    }
  }

  /**
   While fewer keys than the bound have been set since the last clear, a lookup gives exactly the value
   last set, up to the end of its time to live.
   */
  lemma ExactBelowBound<T>(evs: seq<Event<T>>, max: nat, states: seq<Entries<T>>, key: string, now: nat)
    requires Reaches(evs, max, states) && Monotone(evs) && |KeysSet(evs)| < max && LastInstant(evs) <= now
    ensures var s := LastSet(evs, key);
      Lookup(states[|evs|], key, now)
      == if s.Some? && now <= s.value.at + s.value.ttl then Some(s.value.value) else None
  {
    CompleteInvariant(evs, max, states);
    ReachedInvariant(evs, max, states);
    IdealIsHistory(evs, key);
  }

  /** Every outcome of a set keeps the other keys exactly when fewer than max entries are live, or none but the key's own. */
  lemma SetKeepsOthersExactly<T(!new)>(m: Entries<T>, max: nat, key: string, e: Entry<T>, now: nat)
    ensures (forall m', k :: SetStep(m, m', max, key, e, now) && k != key ==> Lookup(m', k, now) == Lookup(m, k, now))
       <==> |Live(m, now)| < max || Live(m, now).Keys <= {key}
  {
    var l := Live(m, now);
    SubsetSize(l, m);
    if !(|l| < max || l.Keys <= {key}) {
      var victim :| victim in l && victim != key;
      var m' := (l - {victim})[key := e];
      assert SetStep(m, m', max, key, e, now);
      assert Lookup(m', victim, now) != Lookup(m, victim, now);
    } else {
      forall m', k | SetStep(m, m', max, key, e, now) && k != key
        ensures Lookup(m', k, now) == Lookup(m, k, now)
      {
      }
    }
  }

  lemma IdealSnoc<T>(evs: seq<Event<T>>, at: nat, key: string, value: T, ttl: nat)
    ensures var more := evs + [Timed(at, DoSet(key, value, ttl))];
      Ideal(more) == Ideal(evs)[key := Entry(value, at + ttl)] && KeysSet(more) == KeysSet(evs) + {key}
  {
    var more := evs + [Timed(at, DoSet(key, value, ttl))];
    assert more[..|more| - 1] == evs;
  }

  ghost predicate DifferentKeys(keys: seq<string>) {
    forall i, j :: 0 <= i < j < |keys| ==> keys[i] != keys[j]
  }

  /** Setting the first n keys, one after the other. */
  function FillRun(keys: seq<string>, v: int, n: nat): (r: seq<Event<int>>)
    requires n <= |keys|
    ensures |r| == n && forall i :: 0 <= i < n ==> r[i] == Timed(0, DoSet(keys[i], v, 9))
  {
    if n == 0 then [] else FillRun(keys, v, n - 1) + [Timed(0, DoSet(keys[n - 1], v, 9))]
  }

  function Filled(keys: seq<string>, v: int, n: nat): Entries<int>
    requires n <= |keys|
  {
    if n == 0 then map[] else Filled(keys, v, n - 1)[keys[n - 1] := Entry(v, 9)]
  }

  lemma {:induction false} FilledHolds(keys: seq<string>, v: int, n: nat, i: nat)
    requires n <= |keys| && i < |keys| && DifferentKeys(keys)
    ensures keys[i] in Filled(keys, v, n) <==> i < n
  {
    if n > 0 {
      FilledHolds(keys, v, n - 1, i);
    }
  }

  ghost predicate AllOf(m: Entries<int>, e: Entry<int>) {
    forall k :: k in m ==> m[k] == e
  }

  lemma OneMoreOf(m: Entries<int>, k: string, e: Entry<int>)
    requires AllOf(m, e) && k !in m
    ensures |m[k := e]| == |m| + 1 && AllOf(m[k := e], e)
  {
    assert m[k := e].Keys == m.Keys + {k};
  }

  lemma {:induction false} FilledSize(keys: seq<string>, v: int, n: nat)
    requires n <= |keys| && DifferentKeys(keys)
    ensures |Filled(keys, v, n)| == n && AllOf(Filled(keys, v, n), Entry(v, 9))
  {
    if n > 0 {
      FilledSize(keys, v, n - 1);
      FilledHolds(keys, v, n - 1, n - 1);
      OneMoreOf(Filled(keys, v, n - 1), keys[n - 1], Entry(v, 9));
    }
  }

  lemma {:induction false} FilledIsIdeal(keys: seq<string>, v: int, n: nat)
    requires n <= |keys|
    ensures Ideal(FillRun(keys, v, n)) == Filled(keys, v, n) && KeysSet(FillRun(keys, v, n)) == Filled(keys, v, n).Keys
  {
    if n > 0 {
      FilledIsIdeal(keys, v, n - 1);
      IdealSnoc(FillRun(keys, v, n - 1), 0, keys[n - 1], v, 9);
    }
  }

  lemma {:induction false} FilledIsReached(keys: seq<string>, v: int, n: nat) returns (states: seq<Entries<int>>)
    requires n <= |keys| && DifferentKeys(keys)
    ensures Reaches(FillRun(keys, v, n), |keys|, states) && states[n] == Filled(keys, v, n)
  {
    if n == 0 {
      states := [map[]];
    } else {
      var before := FilledIsReached(keys, v, n - 1);
      FilledSize(keys, v, n - 1);
      ReachesSnoc(FillRun(keys, v, n - 1), Timed(0, DoSet(keys[n - 1], v, 9)), |keys|, before, Filled(keys, v, n));
      states := before + [Filled(keys, v, n)];
    }
  }

  /** In a full cache of live entries, setting one of them again may drop any other. */
  lemma OverwriteStep(m: Entries<int>, max: nat, a: string, b: string, e: Entry<int>)
    requires |m| == max && AllOf(m, e) && b in m && !e.IsExpired(0)
    ensures SetStep(m, (m - {b})[a := e], max, a, e, 0)
  {
    assert Live(m, 0) == m;
  }

  lemma Overwritten(m: Entries<int>, a: string, b: string, e: Entry<int>)
    requires AllOf(m, e) && a in m && b in m && a != b && !e.IsExpired(0)
    ensures m[a := e] == m && Lookup(m, b, 0) == Some(e.value) && Lookup((m - {b})[a := e], b, 0) == None
  {
  }

  /** Setting all keys, and then the i-th once more. */
  function OverwriteRun(keys: seq<string>, v: int, i: nat): seq<Event<int>>
    requires i < |keys|
  {
    FillRun(keys, v, |keys|) + [Timed(0, DoSet(keys[i], v, 9))]
  }

  lemma OverwriteIdeal(keys: seq<string>, v: int, i: nat)
    requires i < |keys| && DifferentKeys(keys)
    ensures var evs, m := OverwriteRun(keys, v, i), Filled(keys, v, |keys|);
      Monotone(evs) && Ideal(evs) == m && KeysSet(evs) == m.Keys
  {
    var m := Filled(keys, v, |keys|);
    FilledIsIdeal(keys, v, |keys|);
    FilledSize(keys, v, |keys|);
    FilledHolds(keys, v, |keys|, i);
    IdealSnoc(FillRun(keys, v, |keys|), 0, keys[i], v, 9);
    assert m[keys[i] := Entry(v, 9)] == m && m.Keys + {keys[i]} == m.Keys;
  }

  lemma OverwriteReached(keys: seq<string>, v: int, i: nat, m': Entries<int>)
    returns (states: seq<Entries<int>>)
    requires i < |keys| && DifferentKeys(keys)
    requires SetStep(Filled(keys, v, |keys|), m', |keys|, keys[i], Entry(v, 9), 0)
    ensures Reaches(OverwriteRun(keys, v, i), |keys|, states) && states[|keys| + 1] == m'
  {
    var before := FilledIsReached(keys, v, |keys|);
    ReachesSnoc(FillRun(keys, v, |keys|), Timed(0, DoSet(keys[i], v, 9)), |keys|, before, m');
    states := before + [m'];
  }

  /**
   With as many keys as the bound the guarantee is gone, for every bound from two on and any keys:
   overwriting one key may drop any other.
   */
  lemma OverwriteAtBoundEvicts(keys: seq<string>, v: int, i: nat, j: nat)
    returns (states: seq<Entries<int>>)
    requires DifferentKeys(keys) && i < |keys| && j < |keys| && i != j
    ensures var evs := OverwriteRun(keys, v, i);
      && Reaches(evs, |keys|, states) && Monotone(evs) && |KeysSet(evs)| == |keys|
      && Lookup(states[|keys| + 1], keys[j], 0) == None && Lookup(Ideal(evs), keys[j], 0) == Some(v)
  {
    var m, e := Filled(keys, v, |keys|), Entry(v, 9);
    FilledSize(keys, v, |keys|);
    FilledHolds(keys, v, |keys|, i);
    FilledHolds(keys, v, |keys|, j);
    OverwriteStep(m, |keys|, keys[i], keys[j], e);
    Overwritten(m, keys[i], keys[j], e);
    OverwriteIdeal(keys, v, i);
    states := OverwriteReached(keys, v, i, (m - {keys[j]})[keys[i] := e]);
  }

  // ---------------------------------------------------------------- cleaning up is not observable

  function WithoutCleanups<T>(evs: seq<Event<T>>): seq<Event<T>> {
    if evs == [] then []
    else
      var init, e := WithoutCleanups(evs[..|evs| - 1]), evs[|evs| - 1];
      if e.op.DoCleanup? then init else init + [e]
  }

  ghost predicate SameLive<T>(m: Entries<T>, n: Entries<T>, now: nat) {
    Live(m, now) == Live(n, now)
  }

  lemma LiveLater<T>(m: Entries<T>, n: Entries<T>, now: nat, later: nat)
    requires SameLive(m, n, now) && now <= later
    ensures SameLive(m, n, later)
  {
    assert Live(m, later) == Live(Live(m, now), later);
    assert Live(n, later) == Live(Live(n, now), later);
  }

  lemma LiveOfLive<T>(m: Entries<T>, now: nat)
    ensures SameLive(Live(m, now), m, now)
  {
  }

  lemma LivePutOne<T>(m: Entries<T>, key: string, e: Entry<T>, now: nat)
    ensures Live(m[key := e], now) == if e.IsExpired(now) then Live(m, now) - {key} else Live(m, now)[key := e]
  {
  }

  lemma LivePut<T>(m: Entries<T>, n: Entries<T>, key: string, e: Entry<T>, now: nat)
    requires SameLive(m, n, now)
    ensures SameLive(m[key := e], n[key := e], now)
  {
    LivePutOne(m, key, e, now);
    LivePutOne(n, key, e, now);
  }

  /** A set on one cache can be answered by a set on any cache with the same live entries. */
  lemma SetSimulates<T>(m: Entries<T>, m': Entries<T>, n: Entries<T>, max: nat, key: string, e: Entry<T>, now: nat)
    returns (n': Entries<T>)
    requires SetStep(m, m', max, key, e, now) && SameLive(m, n, now)
    ensures SetStep(n, n', max, key, e, now) && SameLive(m', n', now)
  {
    var l := Live(m, now);
    SubsetSize(l, m);
    SubsetSize(l, n);
    LiveOfLive(m, now);
    LiveOfLive(n, now);
    if |m| >= max && |l| >= max && l != map[] {
      n' := m';
    } else {
      n' := if |n| < max then n[key := e] else l[key := e];
      LivePut(m, n, key, e, now);
      LivePut(l, n, key, e, now);
      LivePut(l, m, key, e, now);
    }
  }

  lemma LiveRemove<T>(m: Entries<T>, n: Entries<T>, key: string, now: nat)
    requires SameLive(m, n, now)
    ensures SameLive(m - {key}, n - {key}, now)
  {
    assert Live(m - {key}, now) == Live(m, now) - {key};
    assert Live(n - {key}, now) == Live(n, now) - {key};
  }

  lemma StepSimulates<T>(m: Entries<T>, m': Entries<T>, n: Entries<T>, max: nat, e: Event<T>) returns (n': Entries<T>)
    requires Step(m, m', max, e) && SameLive(m, n, e.at) && !e.op.DoCleanup?
    ensures Step(n, n', max, e) && SameLive(m', n', e.at)
  {
    match e.op
    case DoSet(key, value, ttl) =>
      n' := SetSimulates(m, m', n, max, key, Entry(value, e.at + ttl), e.at);
    case DoRemove(key) =>
      n' := n - {key};
      LiveRemove(m, n, key, e.at);
    case DoClear =>
      n' := map[];
  }

  /**
   Cleaning up changes no lookup: every run with cleanups is matched by a run without them
   that ends with the same live entries, even though a cleanup changes when the cache is full.
   */
  lemma {:induction false} CleanupUnobservable<T>(evs: seq<Event<T>>, max: nat, states: seq<Entries<T>>)
    returns (others: seq<Entries<T>>)
    requires Reaches(evs, max, states) && Monotone(evs)
    ensures Reaches(WithoutCleanups(evs), max, others)
    ensures forall key, now :: now >= LastInstant(evs) ==>
      Lookup(others[|others| - 1], key, now) == Lookup(states[|evs|], key, now)
    ensures SameLive(states[|evs|], others[|others| - 1], LastInstant(evs))
  {
    if evs == [] {
      others := states;
    } else {
      var init, e, m, m' := evs[..|evs| - 1], evs[|evs| - 1], states[|evs| - 1], states[|evs|];
      others := CleanupUnobservable(init, max, states[..|evs|]);
      var n := others[|others| - 1];
      LiveLater(m, n, LastInstant(init), e.at);
      if e.op.DoCleanup? {
        LiveOfLive(m, e.at);
      } else {
        var n' := StepSimulates(m, m', n, max, e);
        ReachesSnoc(WithoutCleanups(init), e, max, others, n');
        others := others + [n'];
      }
      SameLookups(m', others[|others| - 1], e.at);
    }
  }

  lemma ReachesSnoc<T>(evs: seq<Event<T>>, e: Event<T>, max: nat, before: seq<Entries<T>>, n: Entries<T>)
    requires Reaches(evs, max, before) && Step(before[|evs|], n, max, e)
    ensures Reaches(evs + [e], max, before + [n])
  {
  }

  lemma DropLast<T>(init: seq<Event<T>>, e: Event<T>, max: nat, others: seq<Entries<T>>)
    requires !e.op.DoCleanup? && Reaches(WithoutCleanups(init + [e]), max, others)
    ensures |others| >= 2 && Reaches(WithoutCleanups(init), max, others[..|others| - 1])
    ensures Step(others[|others| - 2], others[|others| - 1], max, e)
  {
    assert (init + [e])[..|init|] == init;
    assert WithoutCleanups(init + [e]) == WithoutCleanups(init) + [e];
  }

  /** The next state of a run that has the same live entries as another cache, which cleans up or not. */
  lemma NextLive<T>(m: Entries<T>, m': Entries<T>, n: Entries<T>, max: nat, e: Event<T>, before: nat)
    returns (n': Entries<T>)
    requires SameLive(m, n, before) && before <= e.at
    requires if e.op.DoCleanup? then m' == m else Step(m, m', max, e)
    ensures Step(n, n', max, e) && SameLive(m', n', e.at)
  {
    LiveLater(m, n, before, e.at);
    if e.op.DoCleanup? {
      n' := Live(n, e.at);
      LiveOfLive(n, e.at);
    } else {
      n' := StepSimulates(m, m', n, max, e);
    }
  }

  lemma AppendNext<T>(init: seq<Event<T>>, e: Event<T>, max: nat, m: Entries<T>, m': Entries<T>,
                      before: seq<Entries<T>>)
    returns (states: seq<Entries<T>>)
    requires if e.op.DoCleanup? then m' == m else Step(m, m', max, e)
    requires Reaches(init, max, before) && SameLive(m, before[|init|], LastInstant(init)) && LastInstant(init) <= e.at
    ensures Reaches(init + [e], max, states) && SameLive(m', states[|init| + 1], e.at)
  {
    var n' := NextLive(m, m', before[|init|], max, e, LastInstant(init));
    states := before + [n'];
    ReachesSnoc(init, e, max, before, n');
  }

  lemma {:induction false} PutCleanupsBack<T>(evs: seq<Event<T>>, max: nat, others: seq<Entries<T>>)
    returns (states: seq<Entries<T>>)
    requires Reaches(WithoutCleanups(evs), max, others) && Monotone(evs)
    ensures Reaches(evs, max, states)
    ensures SameLive(others[|others| - 1], states[|evs|], LastInstant(evs))
    decreases |evs|, 1
  {
    if evs == [] {
      states := others;
    } else {
      var init, e := evs[..|evs| - 1], evs[|evs| - 1];
      assert init + [e] == evs;
      if e.op.DoCleanup? {
        states := PutCleanupsBack(init, max, others);
        states := AppendNext(init, e, max, others[|others| - 1], others[|others| - 1], states);
      } else {
        states := PutBackBefore(init, e, max, others);
      }
    }
  }

  lemma {:induction false} PutBackBefore<T>(init: seq<Event<T>>, e: Event<T>, max: nat, others: seq<Entries<T>>)
    returns (states: seq<Entries<T>>)
    requires !e.op.DoCleanup? && Reaches(WithoutCleanups(init + [e]), max, others)
    requires Monotone(init) && LastInstant(init) <= e.at
    ensures Reaches(init + [e], max, states)
    ensures SameLive(others[|others| - 1], states[|init| + 1], e.at)
    decreases |init| + 1, 0
  {
    DropLast(init, e, max, others);
    var prev := others[..|others| - 1];
    states := PutCleanupsBack(init, max, prev);
    states := AppendNext(init, e, max, prev[|prev| - 1], others[|others| - 1], states);
  }

  /** Nor does it add any: every run without cleanups is matched by one with them. */
  lemma {:induction false} CleanupsCanBeAdded<T>(evs: seq<Event<T>>, max: nat, others: seq<Entries<T>>)
    returns (states: seq<Entries<T>>)
    requires Reaches(WithoutCleanups(evs), max, others) && Monotone(evs)
    ensures Reaches(evs, max, states)
    ensures forall key, now :: now >= LastInstant(evs) ==>
      Lookup(states[|evs|], key, now) == Lookup(others[|others| - 1], key, now)
  {
    states := PutCleanupsBack(evs, max, others);
    SameLookups(others[|others| - 1], states[|evs|], LastInstant(evs));
  }

  lemma SameLookups<T>(m: Entries<T>, n: Entries<T>, now: nat)
    requires SameLive(m, n, now)
    ensures forall key, t :: t >= now ==> Lookup(n, key, t) == Lookup(m, key, t)
  {
    forall key, t | t >= now
      ensures Lookup(n, key, t) == Lookup(m, key, t)
    {
      LiveLater(m, n, now, t);
      assert key in Live(m, t) <==> key in Live(n, t);
      assert key in Live(m, t) ==> Live(m, t)[key] == Live(n, t)[key];
    }
  }
}
