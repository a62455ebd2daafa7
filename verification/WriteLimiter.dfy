/** The rolling-window limiter of the admin API: an evicting queue of timestamps per bucket
    decides like a count over everything ever admitted. */
module WriteLimiter {

  /** How many of the logged times lie strictly within the last window. */
  function Recent(log: seq<real>, window: real, now: real): nat {
    if log == [] then 0
    else Recent(log[..|log| - 1], window, now) + (if now - log[|log| - 1] < window then 1 else 0)
  }

  function Events(log: map<string, seq<real>>, bucket: string): seq<real> {
    if bucket in log then log[bucket] else []
  }

  ghost predicate Sorted(times: seq<real>) {
    forall i, j :: 0 <= i <= j < |times| ==> times[i] <= times[j]
  }

  /** The decision over the full log. */
  predicate Permits(limit: int, window: real, log: map<string, seq<real>>, bucket: string, now: real) {
    limit <= 0 || Recent(Events(log, bucket), window, now) < limit
  }

  /** The log after one call; with the limit switched off nothing is recorded. */
  function Logged(limit: int, window: real, log: map<string, seq<real>>, bucket: string, now: real)
    : map<string, seq<real>>
  {
    if limit > 0 && Permits(limit, window, log, bucket, now)
    then log[bucket := Events(log, bucket) + [now]]
    else log
  }

  class WriteActionRateLimiter {
    const limit: int
    const window: real
    var events: map<string, seq<real>>
    ghost var log: map<string, seq<real>>  // every admitted time of every bucket
    ghost var latest: real                 // the last reading of the clock

    ghost predicate Valid()
      reads this
    {
      AllTrack(window, log, events, latest)
    }

    constructor (limitPerMinute: int, windowSeconds: real, start: real)
      ensures Valid() && log == map[] && latest == start
      ensures limit == limitPerMinute && window == windowSeconds
    {
      limit, window, events := limitPerMinute, windowSeconds, map[];
      log, latest := map[], start;
    }

    /** now is the reading of the monotonic clock. */
    method Allow(bucket: string, now: real) returns (allowed: bool)
      requires Valid() && now >= latest
      modifies this
      ensures Valid() && latest == now
      ensures allowed == Permits(limit, window, old(log), bucket, now)
      ensures log == Logged(limit, window, old(log), bucket, now)
    {
      TrackLater(window, log, events, latest, now);
      latest := now;
      if limit <= 0 {
        return true;
      }
      var slots := Events(events, bucket);
      ghost var all := Events(log, bucket);
      assert Tracks(window, all, slots, now);
      while slots != [] && now - slots[0] >= window
        invariant Tracks(window, all, slots, now)
      {
        slots := slots[1..];
      }
      RecentOfQueue(window, all, slots, now);
      if |slots| >= limit {
        TrackRefusal(window, log, events, now, bucket, slots);
        events := events[bucket := slots];
        return false;
      }
      TrackAdmission(window, log, events, now, bucket, slots);
      events := events[bucket := slots + [now]];
      log := log[bucket := all + [now]];
      allowed := true;
    }
  }

  /** The queue is the log of the bucket without a prefix that had left the window. */
  ghost predicate Tracks(window: real, all: seq<real>, slots: seq<real>, latest: real) {
    && Sorted(all)
    && (forall i :: 0 <= i < |all| ==> all[i] <= latest)
    && Suffix(slots, all)
    && (forall i :: 0 <= i < |all| - |slots| ==> latest - all[i] >= window)
  }

  ghost predicate AllTrack(window: real, log: map<string, seq<real>>, events: map<string, seq<real>>,
                           latest: real)
  {
    forall b :: Tracks(window, Events(log, b), Events(events, b), latest)
  }

  lemma TrackLater(window: real, log: map<string, seq<real>>, events: map<string, seq<real>>,
                   latest: real, now: real)
    requires AllTrack(window, log, events, latest) && latest <= now
    ensures AllTrack(window, log, events, now)
  {
    forall b ensures Tracks(window, Events(log, b), Events(events, b), now) {
      assert Tracks(window, Events(log, b), Events(events, b), latest);
    }
  }

  /** m' holds times for the bucket and what m holds for the others. */
  ghost predicate ChangedAt(m: map<string, seq<real>>, m': map<string, seq<real>>, bucket: string, times: seq<real>) {
    forall b :: Events(m', b) == if b == bucket then times else Events(m, b)
  }

  lemma SetChanges(m: map<string, seq<real>>, bucket: string, times: seq<real>)
    ensures ChangedAt(m, m[bucket := times], bucket, times)
    ensures ChangedAt(m, m, bucket, Events(m, bucket))
  {
  }

  lemma TrackRefusal(window: real, log: map<string, seq<real>>, events: map<string, seq<real>>,
                     now: real, bucket: string, slots: seq<real>)
    requires AllTrack(window, log, events, now) && Tracks(window, Events(log, bucket), slots, now)
    ensures AllTrack(window, log, events[bucket := slots], now)
  {
    var all := Events(log, bucket);
    SetChanges(log, bucket, all);
    SetChanges(events, bucket, slots);
    TrackUpdate(window, log, log, events, events[bucket := slots], now, bucket, all, slots);
  }

  lemma TrackAdmission(window: real, log: map<string, seq<real>>, events: map<string, seq<real>>,
                       now: real, bucket: string, slots: seq<real>)
    requires AllTrack(window, log, events, now) && Tracks(window, Events(log, bucket), slots, now)
    ensures AllTrack(window, log[bucket := Events(log, bucket) + [now]], events[bucket := slots + [now]], now)
  {
    var all := Events(log, bucket);
    SetChanges(log, bucket, all + [now]);
    SetChanges(events, bucket, slots + [now]);
    TrackAppend(window, all, slots, now);
    TrackUpdate(window, log, log[bucket := all + [now]], events, events[bucket := slots + [now]], now,
                bucket, all + [now], slots + [now]);
  }

  lemma TrackUpdate(window: real, log: map<string, seq<real>>, log': map<string, seq<real>>,
                    events: map<string, seq<real>>, events': map<string, seq<real>>,
                    now: real, bucket: string, all: seq<real>, slots: seq<real>)
    requires AllTrack(window, log, events, now) && Tracks(window, all, slots, now)
    requires ChangedAt(log, log', bucket, all) && ChangedAt(events, events', bucket, slots)
    ensures AllTrack(window, log', events', now)
  {
    forall b ensures Tracks(window, Events(log', b), Events(events', b), now) {
      assert Tracks(window, Events(log, b), Events(events, b), now);
    }
  }

  lemma SortedAppend(all: seq<real>, now: real)
    requires Sorted(all) && forall i :: 0 <= i < |all| ==> all[i] <= now
    ensures Sorted(all + [now])
    ensures forall i :: 0 <= i < |all + [now]| ==> (all + [now])[i] <= now
  {
  }

  lemma SuffixAppend(slots: seq<real>, all: seq<real>, now: real)
    requires Suffix(slots, all)
    ensures Suffix(slots + [now], all + [now])
  {
    var cut := |all| - |slots|;
    assert (all + [now])[cut..] == all[cut..] + [now];
  }

  lemma TrackAppend(window: real, all: seq<real>, slots: seq<real>, now: real)
    requires Tracks(window, all, slots, now)
    ensures Tracks(window, all + [now], slots + [now], now)
  {
    SortedAppend(all, now);
    SuffixAppend(slots, all, now);
    forall i | 0 <= i < |all + [now]| - |slots + [now]| ensures now - (all + [now])[i] >= window {
      assert (all + [now])[i] == all[i];
    }
  }

  ghost predicate Suffix(slots: seq<real>, all: seq<real>) {
    |slots| <= |all| && slots == all[|all| - |slots|..]
  }

  lemma {:induction false} RecentNone(log: seq<real>, window: real, now: real)
    requires forall i :: 0 <= i < |log| ==> now - log[i] >= window
    ensures Recent(log, window, now) == 0
  {
    if log == [] {
    } else {
      RecentNone(log[..|log| - 1], window, now);
    }
  }

  lemma {:induction false} RecentAll(log: seq<real>, window: real, now: real)
    requires forall i :: 0 <= i < |log| ==> now - log[i] < window
    ensures Recent(log, window, now) == |log|
  {
    if log == [] {
    } else {
      RecentAll(log[..|log| - 1], window, now);
    }
  }

  lemma {:induction false} RecentConcat(xs: seq<real>, ys: seq<real>, window: real, now: real)
    ensures Recent(xs + ys, window, now) == Recent(xs, window, now) + Recent(ys, window, now)
    decreases |ys|
  {
    if ys == [] {
      assert xs + ys == xs;
    } else {
      assert (xs + ys)[..|xs + ys| - 1] == xs + ys[..|ys| - 1];
      RecentConcat(xs, ys[..|ys| - 1], window, now);
    }
  }

  /** After eviction the length of the queue is the count over the full log. */
  lemma RecentOfQueue(window: real, all: seq<real>, slots: seq<real>, now: real)
    requires Tracks(window, all, slots, now)
    requires slots != [] ==> now - slots[0] < window
    ensures Recent(all, window, now) == |slots|
  {
    var cut := |all| - |slots|;
    assert all == all[..cut] + slots;
    RecentNone(all[..cut], window, now);
    forall i | 0 <= i < |slots| ensures now - slots[i] < window {
      assert slots[0] == all[cut] <= all[cut + i] == slots[i];
    }
    RecentAll(slots, window, now);
    RecentConcat(all[..cut], slots, window, now);
  }

  // ---------- runs ----------

  datatype Attempt = Attempt(bucket: string, now: real)

  ghost predicate Timely(calls: seq<Attempt>) {
    forall i, j :: 0 <= i <= j < |calls| ==> calls[i].now <= calls[j].now
  }

  /** The log after a run from a fresh limiter. */
  function RunLog(limit: int, window: real, calls: seq<Attempt>): map<string, seq<real>> {
    if calls == [] then map[]
    else
      var c := calls[|calls| - 1];
      Logged(limit, window, RunLog(limit, window, calls[..|calls| - 1]), c.bucket, c.now)
  }

  function Allowed(limit: int, window: real, calls: seq<Attempt>, i: nat): bool
    requires i < |calls|
  {
    Permits(limit, window, RunLog(limit, window, calls[..i]), calls[i].bucket, calls[i].now)
  }

  /** Of any limit + 1 consecutive admissions of a bucket, the last is a window after the first. */
  ghost predicate Spaced(limit: nat, window: real, times: seq<real>) {
    forall i :: limit <= i < |times| ==> times[i] - times[i - limit] >= window
  }

  lemma {:induction false} FewRecentMeansOld(limit: nat, window: real, times: seq<real>, now: real)
    requires limit >= 1 && Sorted(times) && |times| >= limit
    requires Recent(times, window, now) < limit
    ensures now - times[|times| - limit] >= window
  {
    var cut := |times| - limit;
    if now - times[cut] < window {
      var tail := times[cut..];
      assert times == times[..cut] + tail;
      forall i | 0 <= i < |tail| ensures now - tail[i] < window {
        assert times[cut] <= times[cut + i];
      }
      RecentAll(tail, window, now);
      RecentConcat(times[..cut], tail, window, now);
    }
  }

  ghost predicate WellSpaced(limit: nat, window: real, times: seq<real>, latest: real) {
    && Sorted(times) && Spaced(limit, window, times)
    && (forall i :: 0 <= i < |times| ==> times[i] <= latest)
  }

  lemma AdmissionIsSpaced(limit: nat, window: real, times: seq<real>, now: real)
    requires limit >= 1 && WellSpaced(limit, window, times, now) && Recent(times, window, now) < limit
    ensures WellSpaced(limit, window, times + [now], now)
  {
    if |times| >= limit {
      FewRecentMeansOld(limit, window, times, now);
    }
  }

  lemma {:induction false} RunIsSpaced(limit: int, window: real, calls: seq<Attempt>, bucket: string)
    requires limit >= 1 && Timely(calls)
    ensures calls == [] ==> Events(RunLog(limit, window, calls), bucket) == []
    ensures calls != [] ==>
              WellSpaced(limit, window, Events(RunLog(limit, window, calls), bucket), calls[|calls| - 1].now)
    decreases |calls|
  {
    if calls == [] {
    } else {
      var before, c := calls[..|calls| - 1], calls[|calls| - 1];
      RunIsSpaced(limit, window, before, bucket);
      var log := RunLog(limit, window, before);
      var times := Events(log, bucket);
      assert before != [] ==> before[|before| - 1].now <= c.now;
      assert WellSpaced(limit, window, times, c.now);
      if c.bucket == bucket && Permits(limit, window, log, bucket, c.now) {
        AdmissionIsSpaced(limit, window, times, c.now);
      } else {
        assert Events(RunLog(limit, window, calls), bucket) == times;
      }
    }
  }

  /** The positions of a sorted log that fall into a half-open interval. */
  function InInterval(times: seq<real>, from: real, to: real): set<nat> {
    set i: nat | i < |times| && from <= times[i] < to
  }

  lemma CardinalityOfRange(s: set<nat>, low: nat, n: nat)
    requires forall i :: i in s ==> low <= i < low + n
    ensures |s| <= n
    decreases n
  {
    if n > 0 {
      CardinalityOfRange(s - {low + n - 1}, low, n - 1);
    } else {
      assert s == {};
    }
  }

  lemma LowestElement(s: set<nat>) returns (low: nat)
    requires s != {}
    ensures low in s && forall i :: i in s ==> low <= i
  {
    var any :| any in s;
    low := any;
    if s - {any} == {} {
    } else {
      var other := LowestElement(s - {any});
      low := if other < any then other else any;
    }
    assert forall i :: i in s ==> i == any || i in s - {any};
  }

  lemma SpacedApart(limit: nat, window: real, times: seq<real>, low: nat, i: nat)
    requires Sorted(times) && Spaced(limit, window, times) && low <= i < |times|
    ensures i >= low + limit ==> times[i] - times[low] >= window
  {
    if i >= low + limit {
      assert times[low] <= times[i - limit];
    }
  }

  /** Never too many: on any run of a forward clock, no half-open interval of one window holds
      more than limit admissions of a bucket. */
  lemma AtMostLimitPerWindow(limit: int, window: real, calls: seq<Attempt>, bucket: string, from: real)
    requires limit >= 1 && Timely(calls)
    ensures |InInterval(Events(RunLog(limit, window, calls), bucket), from, from + window)| <= limit
  {
    var times := Events(RunLog(limit, window, calls), bucket);
    var s := InInterval(times, from, from + window);
    RunIsSpaced(limit, window, calls, bucket);
    if s != {} {
      var low := LowestElement(s);
      forall i | i in s ensures low <= i < low + limit {
        SpacedApart(limit, window, times, low, i);
      }
      CardinalityOfRange(s, low, limit);
    }
  }

  // ---------- the exact decision ----------

  /** How many of the first n calls were of this bucket, admitted, and less than one window before now. */
  function CountWithin(limit: int, window: real, calls: seq<Attempt>, n: nat, bucket: string, now: real): nat
    requires n <= |calls|
  {
    if n == 0 then 0
    else
      CountWithin(limit, window, calls, n - 1, bucket, now)
      + (if calls[n - 1].bucket == bucket && Allowed(limit, window, calls, n - 1) && now - calls[n - 1].now < window
         then 1 else 0)
  }

  /** The log of a bucket is extended by its admitted calls and by nothing else. */
  lemma LogStep(limit: int, window: real, calls: seq<Attempt>, n: nat, bucket: string)
    requires limit >= 1 && 0 < n <= |calls|
    ensures Events(RunLog(limit, window, calls[..n]), bucket)
            == Events(RunLog(limit, window, calls[..n - 1]), bucket)
               + (if calls[n - 1].bucket == bucket && Allowed(limit, window, calls, n - 1)
                  then [calls[n - 1].now] else [])
  {
    assert calls[..n][..n - 1] == calls[..n - 1];
  }

  lemma RecentStep(times: seq<real>, more: seq<real>, window: real, now: real)
    requires |more| <= 1
    ensures Recent(times + more, window, now)
            == Recent(times, window, now) + (if more != [] && now - more[0] < window then 1 else 0)
  {
    RecentConcat(times, more, window, now);
    if more != [] {
      assert more[..|more| - 1] == [];
    }
  }

  lemma {:induction false} RecentIsCount(limit: int, window: real, calls: seq<Attempt>, n: nat, bucket: string, now: real)
    requires limit >= 1 && n <= |calls|
    ensures Recent(Events(RunLog(limit, window, calls[..n]), bucket), window, now)
            == CountWithin(limit, window, calls, n, bucket, now)
    decreases n
  {
    if n == 0 {
    } else {
      RecentIsCount(limit, window, calls, n - 1, bucket, now);
      var c := calls[n - 1];
      var times := Events(RunLog(limit, window, calls[..n - 1]), bucket);
      LogStep(limit, window, calls, n, bucket);
      RecentStep(times, if c.bucket == bucket && Allowed(limit, window, calls, n - 1) then [c.now] else [], window, now);
    }
  }

  lemma {:induction false} LaterSeesFewer(limit: int, window: real, calls: seq<Attempt>, n: nat, bucket: string,
                                          now: real, later: real)
    requires n <= |calls| && now <= later
    ensures CountWithin(limit, window, calls, n, bucket, later) <= CountWithin(limit, window, calls, n, bucket, now)
    decreases n
  {
    if n == 0 {
    } else {
      LaterSeesFewer(limit, window, calls, n - 1, bucket, now, later);
    }
  }

  lemma AllowedByCount(limit: int, window: real, calls: seq<Attempt>, i: nat)
    requires i < |calls|
    ensures Allowed(limit, window, calls, i)
            <==> limit <= 0 || CountWithin(limit, window, calls, i, calls[i].bucket, calls[i].now) < limit
  {
    if limit >= 1 {
      RecentIsCount(limit, window, calls, i, calls[i].bucket, calls[i].now);
    }
  }

  lemma {:induction false} AtMostLimitWithin(limit: int, window: real, calls: seq<Attempt>, n: nat,
                                             bucket: string, now: real)
    requires limit >= 1 && n <= |calls| && forall j :: 0 <= j < n ==> calls[j].now <= now
    ensures CountWithin(limit, window, calls, n, bucket, now) <= limit
    decreases n
  {
    if n == 0 {
    } else {
      AtMostLimitWithin(limit, window, calls, n - 1, bucket, now);
      var c := calls[n - 1];
      if c.bucket == bucket && Allowed(limit, window, calls, n - 1) {
        AllowedByCount(limit, window, calls, n - 1);
        LaterSeesFewer(limit, window, calls, n - 1, bucket, c.now, now);
      }
    }
  }

  /** The calls of a bucket among the first n that were admitted in the window up to now. */
  function AdmittedWithin(limit: int, window: real, calls: seq<Attempt>, n: nat, bucket: string, now: real): set<nat>
    requires n <= |calls|
  {
    set j: nat | j < n && calls[j].bucket == bucket && Allowed(limit, window, calls, j) && now - window < calls[j].now
  }

  function Trues(flags: seq<bool>): nat {
    if flags == [] then 0 else Trues(flags[..|flags| - 1]) + (if flags[|flags| - 1] then 1 else 0)
  }

  function TruesAt(flags: seq<bool>): set<nat> {
    set j: nat | j < |flags| && flags[j]
  }

  lemma {:induction false} TruesIsSize(flags: seq<bool>)
    ensures Trues(flags) == |TruesAt(flags)|
    decreases |flags|
  {
    if flags == [] {
    } else {
      var n := |flags| - 1;
      TruesIsSize(flags[..n]);
      assert TruesAt(flags) == TruesAt(flags[..n]) + (if flags[n] then {n} else {});
    }
  }

  function IsWithin(limit: int, window: real, calls: seq<Attempt>, bucket: string, now: real, j: nat): bool
    requires j < |calls|
  {
    calls[j].bucket == bucket && Allowed(limit, window, calls, j) && now - window < calls[j].now
  }

  function Flags(limit: int, window: real, calls: seq<Attempt>, n: nat, bucket: string, now: real): seq<bool>
    requires n <= |calls|
  {
    seq(n, j requires 0 <= j < n => IsWithin(limit, window, calls, bucket, now, j))
  }

  lemma {:induction false} CountIsTrues(limit: int, window: real, calls: seq<Attempt>, n: nat, bucket: string, now: real)
    requires n <= |calls|
    ensures CountWithin(limit, window, calls, n, bucket, now) == Trues(Flags(limit, window, calls, n, bucket, now))
    decreases n
  {
    if n == 0 {
    } else {
      CountIsTrues(limit, window, calls, n - 1, bucket, now);
      assert Flags(limit, window, calls, n, bucket, now)[..n - 1] == Flags(limit, window, calls, n - 1, bucket, now);
    }
  }

  lemma CountIsSize(limit: int, window: real, calls: seq<Attempt>, n: nat, bucket: string, now: real)
    requires n <= |calls|
    ensures CountWithin(limit, window, calls, n, bucket, now)
            == |AdmittedWithin(limit, window, calls, n, bucket, now)|
  {
    var flags := Flags(limit, window, calls, n, bucket, now);
    CountIsTrues(limit, window, calls, n, bucket, now);
    TruesIsSize(flags);
    assert AdmittedWithin(limit, window, calls, n, bucket, now) == TruesAt(flags);
  }

  /** The exact decision, for every run: with the limit switched off every call is admitted;
      else exactly if fewer than limit calls of the bucket were admitted less than one window
      before it. A forward clock refuses a call only when exactly limit were. */
  lemma AllowedIff(limit: int, window: real, calls: seq<Attempt>, i: nat)
    requires i < |calls|
    ensures var n := |AdmittedWithin(limit, window, calls, i, calls[i].bucket, calls[i].now)|;
            && (Allowed(limit, window, calls, i) <==> limit <= 0 || n < limit)
            && (Timely(calls) && !Allowed(limit, window, calls, i) ==> n == limit)
  {
    AllowedByCount(limit, window, calls, i);
    CountIsSize(limit, window, calls, i, calls[i].bucket, calls[i].now);
    if limit >= 1 && Timely(calls) {
      AtMostLimitWithin(limit, window, calls, i, calls[i].bucket, calls[i].now);
    }
  }

  // ---------- buckets are independent ----------

  function Only(calls: seq<Attempt>, bucket: string): seq<Attempt> {
    if calls == [] then []
    else Only(calls[..|calls| - 1], bucket)
         + (if calls[|calls| - 1].bucket == bucket then [calls[|calls| - 1]] else [])
  }

  lemma {:induction false} BucketSeesOwnCalls(limit: int, window: real, calls: seq<Attempt>, bucket: string)
    ensures Events(RunLog(limit, window, calls), bucket)
            == Events(RunLog(limit, window, Only(calls, bucket)), bucket)
    decreases |calls|
  {
    if calls == [] {
    } else {
      var before, c := calls[..|calls| - 1], calls[|calls| - 1];
      BucketSeesOwnCalls(limit, window, before, bucket);
      var own := Only(calls, bucket);
      if c.bucket == bucket {
        assert own[..|own| - 1] == Only(before, bucket) && own[|own| - 1] == c;
      } else {
        assert own == Only(before, bucket);
      }
    }
  }

  /** Whatever other buckets do, a call is decided as if only its own bucket had called. */
  lemma BucketsAreIndependent(limit: int, window: real, calls: seq<Attempt>, i: nat)
    requires i < |calls|
    ensures var own := Only(calls[..i + 1], calls[i].bucket);
            && |own| > 0 && own[|own| - 1] == calls[i]
            && Allowed(limit, window, calls, i) == Allowed(limit, window, own, |own| - 1)
  {
    var bucket := calls[i].bucket;
    var prefix := calls[..i + 1];
    assert prefix[..|prefix| - 1] == calls[..i];
    var own := Only(prefix, bucket);
    assert own[..|own| - 1] == Only(calls[..i], bucket);
    BucketSeesOwnCalls(limit, window, calls[..i], bucket);
  }
}
