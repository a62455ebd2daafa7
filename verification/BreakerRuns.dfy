/** Results about whole runs of the circuit breaker: the open flag shields the upstream,
    the keys clean themselves up, and the bound on overlapping probes is attained. */
module BreakerRuns {
  import opened Wrappers
  import opened BreakerKeys
  import opened BreakerProtocol
  import opened BreakerSafety

  // ---------- the open flag ----------

  /** Past the open check and not yet answered. */
  predicate IsPastCheck(pc: Pc) {
    !pc.Checking? && !pc.ReadingTtl? && !pc.Finished?
  }

  function PastCheck(s: Sys): set<nat> {
    set r | r in s.pcs && IsPastCheck(s.pcs[r])
  }

  /** Not checked yet, or on its way to the 503 answer with a usable Retry-After. */
  predicate Shielded(cfg: Config, pc: Pc) {
    match pc
    case Checking => true
    case ReadingTtl => true
    case Finished(CircuitOpen(retryAfter)) => 1 <= retryAfter <= cfg.Recovery()
    case _ => false
  }

  lemma StepUnderOpenFlag(cfg: Config, s: Sys, step: Step)
    requires cfg.Valid() && DeadlinesBounded(cfg, s.keys) && Enabled(s, step)
    requires s.keys.open.Some? && Apply(cfg, s, step).keys.now < s.keys.open.value
    ensures var t := Apply(cfg, s, step);
            && t.keys.open.Some? && t.keys.open.value >= s.keys.open.value
            && PastCheck(t) <= PastCheck(s)
            && (forall r :: r in s.pcs ==> r in t.pcs)
            && (forall r :: r in t.pcs && (r in s.pcs ==> Shielded(cfg, s.pcs[r])) ==>
                  Shielded(cfg, t.pcs[r]))
  {
  }

  lemma TimeMovesForward(cfg: Config, s: Sys, steps: seq<Step>, t: Sys)
    requires Runs(cfg, s, steps, t)
    ensures s.keys.now <= t.keys.now
    decreases |steps|
  {
    if steps == [] {
    } else {
      TimeMovesForward(cfg, Apply(cfg, s, steps[0]), steps[1..], t);
    }
  }

  /** While the open flag lives, whatever else happens: its deadline never moves back, the
      requests past the check only become fewer, and every request that had not passed the
      check when the run began is still unchecked or gets the 503 answer. */
  lemma {:induction false} OpenFlagShields(cfg: Config, s: Sys, steps: seq<Step>, t: Sys)
    requires cfg.Valid() && DeadlinesBounded(cfg, s.keys) && Runs(cfg, s, steps, t)
    requires s.keys.open.Some? && t.keys.now < s.keys.open.value
    ensures t.keys.open.Some? && t.keys.open.value >= s.keys.open.value
    ensures PastCheck(t) <= PastCheck(s)
    ensures forall r :: r in t.pcs && (r in s.pcs ==> Shielded(cfg, s.pcs[r])) ==>
              Shielded(cfg, t.pcs[r])
    decreases |steps|
  {
    if steps == [] {
    } else {
      var u := Apply(cfg, s, steps[0]);
      TimeMovesForward(cfg, u, steps[1..], t);
      StepUnderOpenFlag(cfg, s, steps[0]);
      StepBoundsDeadlines(cfg, s, steps[0]);
      OpenFlagShields(cfg, u, steps[1..], t);
    }
  }

  /** A trip or a failed probe keeps every request that has not passed the check away from
      the upstream for the whole recovery time. */
  lemma TripShields(cfg: Config, s: Sys, r: nat, steps: seq<Step>, t: Sys)
    requires cfg.Valid() && Reachable(cfg, s) && r in s.pcs
    requires s.pcs[r].Tripping? || s.pcs[r].Reopening?
    requires Runs(cfg, Resume(cfg, s, r), steps, t)
    requires t.keys.now < s.keys.now + cfg.Recovery() as real
    ensures t.keys.open.Some? && t.keys.open.value >= s.keys.now + cfg.Recovery() as real
    ensures PastCheck(t) <= PastCheck(s)
    ensures forall q :: q in t.pcs && (q in s.pcs ==> s.pcs[q].Checking?) ==>
              Shielded(cfg, t.pcs[q])
  {
    ReachableInvariant(cfg, s);
    StepKeepsInvariant(cfg, s, Advance(r));
    var u := Resume(cfg, s, r);
    OpenFlagShields(cfg, u, steps, t);
    assert PastCheck(u) <= PastCheck(s);
  }

  // ---------- self-recovery ----------

  ghost predicate OnlyWaits(steps: seq<Step>) {
    forall i :: 0 <= i < |steps| ==> steps[i].Pass?
  }

  lemma {:induction false} WaitingOnlyDropsKeys(cfg: Config, s: Sys, waits: seq<Step>, t: Sys)
    requires OnlyWaits(waits) && Runs(cfg, s, waits, t)
    requires s.keys == KeptUntil(s.keys, s.keys.now)
    ensures t.pcs == s.pcs && s.keys.now <= t.keys.now
    ensures t.keys == KeptUntil(s.keys, t.keys.now)
    decreases |waits|
  {
    if waits == [] {
    } else {
      WaitingOnlyDropsKeys(cfg, Apply(cfg, s, waits[0]), waits[1..], t);
    }
  }

  /** Seconds after which no key with a deadline can be left. */
  function SettleSeconds(cfg: Config): int {
    var m := if cfg.window > cfg.Recovery() then cfg.window else cfg.Recovery();
    if m > LOCK_SECONDS then m else LOCK_SECONDS
  }

  /** After enough time without traffic all keys are gone, exactly if the counter had a
      deadline; and it had one if no request stopped between its INCR and its EXPIRE. */
  lemma SelfRecovery(cfg: Config, s: Sys, waits: seq<Step>, t: Sys)
    requires cfg.Valid() && Reachable(cfg, s)
    requires OnlyWaits(waits) && Runs(cfg, s, waits, t)
    requires t.keys.now >= s.keys.now + SettleSeconds(cfg) as real
    ensures t.keys == NoKeys(t.keys.now) <==>
            (s.keys.fails.Some? ==> s.keys.fails.value.deadline.Some?)
    ensures !SomeExpiring(s) ==> t.keys == NoKeys(t.keys.now)
  {
    ReachableInvariant(cfg, s);
    WaitingOnlyDropsKeys(cfg, s, waits, t);
  }

  /** With no keys left, the next request calls the upstream as an ordinary one. */
  lemma NextRequestIsOrdinary(cfg: Config, s: Sys, r: nat, t: Sys)
    requires cfg.Valid() && s.keys == NoKeys(s.keys.now)
    requires Runs(cfg, s, [Arrive(r), Advance(r), Advance(r)], t)
    ensures r in t.pcs && t.pcs[r] == Calling(false) && t.keys == s.keys
  {
    var steps := [Arrive(r), Advance(r), Advance(r)];
    var u := Apply(cfg, s, steps[0]);
    assert steps[1..][1..] == [Advance(r)] && steps[1..][1..][1..] == [];
    var v := Apply(cfg, u, steps[1..][0]);
    assert Runs(cfg, v, [Advance(r)], t);
    assert Runs(cfg, Apply(cfg, v, Advance(r)), [], t) by {
      assert [Advance(r)][1..] == [];
    }
  }

  // ---------- probes that outlive the lock ----------

  /** No probe in flight took the lock d seconds or longer ago. */
  ghost predicate Young(s: Sys, d: real) {
    forall r :: r in Probes(s) ==> r in s.past.taken && s.keys.now < s.past.taken[r] + d
  }

  /** In no state of the run was a probe in flight for d seconds or longer. */
  ghost predicate AlwaysYoung(cfg: Config, s: Sys, steps: seq<Step>, d: real)
    decreases |steps|
  {
    && Young(s, d)
    && (steps != [] ==> Enabled(s, steps[0]) && AlwaysYoung(cfg, Apply(cfg, s, steps[0]), steps[1..], d))
  }

  /** As long as the lock never expired under a probe, the lock is the one the probe took. */
  ghost predicate LockIsTheProbes(s: Sys) {
    s.past.underProbe == 0 ==>
      forall r :: r in Probes(s) ==>
        r in s.past.taken && s.keys.lock == Some(s.past.taken[r] + LOCK_SECONDS as real)
  }

  lemma AtMostOne(s: Sys)
    requires ProbesBounded(s) && s.past.underProbe == 0
    ensures s.keys.lock.None? ==> Probes(s) == {}
    ensures forall p, q :: p in Probes(s) && q in Probes(s) ==> p == q
  {
    forall p, q | p in Probes(s) && q in Probes(s) ensures p == q {
      assert q in Probes(s) - {p} || q == p;
      assert |Probes(s) - {p}| < 1;
    }
  }

  lemma ResumeKeepsLock(cfg: Config, s: Sys, r: nat)
    requires Enabled(s, Advance(r)) && ProbesBounded(s) && LockIsTheProbes(s)
    ensures LockIsTheProbes(Resume(cfg, s, r))
  {
    var t := Resume(cfg, s, r);
    if t.past.underProbe == 0 {
      AtMostOne(s);
      forall q | q in Probes(t)
        ensures q in t.past.taken && t.keys.lock == Some(t.past.taken[q] + LOCK_SECONDS as real)
      {
        assert q != r ==> q in Probes(s);
        assert s.pcs[r].Unlocking? ==> r in Probes(s);
      }
    }
  }

  lemma StepKeepsLock(cfg: Config, s: Sys, step: Step)
    requires Enabled(s, step) && ProbesBounded(s) && LockIsTheProbes(s)
    ensures LockIsTheProbes(Apply(cfg, s, step))
    ensures Apply(cfg, s, step).past.underProbe >= s.past.underProbe
    ensures s.past.underProbe == 0 && Young(Apply(cfg, s, step), LOCK_SECONDS as real) ==>
              Apply(cfg, s, step).past.underProbe == 0
  {
    var t := Apply(cfg, s, step);
    if step.Advance? {
      ResumeKeepsLock(cfg, s, step.r);
    } else {
      assert forall q :: q in Probes(t) ==> q in Probes(s);
      if step.Pass? {
        assert Probes(t) == Probes(s);
        assert s.past.underProbe == 0 && t.past.underProbe > 0 ==> exists q :: q in Probes(s);
      }
    }
  }

  lemma YoungWhileLocked(cfg: Config, s: Sys)
    requires DeadlinesBounded(cfg, s.keys) && LockIsTheProbes(s) && s.past.underProbe == 0
    ensures Young(s, LOCK_SECONDS as real)
  {
  }

  lemma {:induction false} ShortProbesOnly(cfg: Config, s: Sys, steps: seq<Step>, t: Sys)
    requires cfg.Valid() && Invariant(cfg, s) && LockIsTheProbes(s) && Runs(cfg, s, steps, t)
    ensures s.past.underProbe <= t.past.underProbe
    ensures t.past.underProbe == 0 ==> AlwaysYoung(cfg, s, steps, LOCK_SECONDS as real)
    ensures s.past.underProbe == 0 && AlwaysYoung(cfg, s, steps, LOCK_SECONDS as real) ==> t.past.underProbe == 0
    decreases |steps|
  {
    if s.past.underProbe == 0 {
      YoungWhileLocked(cfg, s);
    }
    if steps == [] {
    } else {
      StepKeepsInvariant(cfg, s, steps[0]);
      StepKeepsLock(cfg, s, steps[0]);
      var u := Apply(cfg, s, steps[0]);
      assert AlwaysYoung(cfg, u, steps[1..], LOCK_SECONDS as real) ==> Young(u, LOCK_SECONDS as real);
      ShortProbesOnly(cfg, u, steps[1..], t);
    }
  }

  /** When the lock does its work: on any run from empty keys, it expired under a live probe
      if and only if some probe was in flight for LOCK_SECONDS or longer; and on a run where
      none was, probes exclude each other and a live probe implies the lock. */
  lemma ProbesExclusiveWhileShort(cfg: Config, now: real, steps: seq<Step>, t: Sys)
    requires cfg.Valid() && Runs(cfg, Start(now), steps, t)
    ensures t.past.underProbe == 0 <==> AlwaysYoung(cfg, Start(now), steps, LOCK_SECONDS as real)
    ensures AlwaysYoung(cfg, Start(now), steps, LOCK_SECONDS as real) ==>
              && (forall p, q :: p in Probes(t) && q in Probes(t) ==> p == q)
              && (Probes(t) != {} ==> t.keys.lock.Some?)
  {
    StartInvariant(cfg, now);
    assert Probes(Start(now)) == {};
    ShortProbesOnly(cfg, Start(now), steps, t);
    RunKeepsInvariant(cfg, Start(now), steps, t);
    if t.past.underProbe == 0 {
      AtMostOne(t);
    }
  }

  // ---------- overlapping probes ----------

  /** A new request while the circuit is closed and below the threshold, up to its failure. */
  lemma CallFails(cfg: Config, s: Sys, r: nat) returns (t: Sys)
    requires cfg.Valid() && Reachable(cfg, s) && r !in s.pcs && s.keys == NoKeys(s.keys.now)
    ensures Reachable(cfg, t)
    ensures t == s.(pcs := s.pcs[r := Counting(Raised)])
  {
    t := s;
    ReachableStep(cfg, t, Arrive(r));
    t := Apply(cfg, t, Arrive(r));
    ReachableStep(cfg, t, Advance(r));
    t := Apply(cfg, t, Advance(r));
    ReachableStep(cfg, t, Advance(r));
    t := Apply(cfg, t, Advance(r));
    assert t == s.(pcs := s.pcs[r := Calling(false)]);
    ReachableStep(cfg, t, Return(r, Raised));
    t := Apply(cfg, t, Return(r, Raised));
    assert t.pcs == s.pcs[r := Counting(Raised)];
  }

  /** n requests have failed and none has been counted. */
  lemma {:induction false} CallsFail(cfg: Config, n: nat) returns (s: Sys)
    requires cfg.Valid()
    ensures Reachable(cfg, s) && s.keys == NoKeys(0.0)
    ensures s.past == Start(0.0).past
    ensures forall r: nat :: r in s.pcs <==> r < n
    ensures forall r: nat :: r < n ==> s.pcs[r] == Counting(Raised)
  {
    if n == 0 {
      s := Start(0.0);
      assert Runs(cfg, Start(0.0), [], s);
    } else {
      s := CallsFail(cfg, n - 1);
      s := CallFails(cfg, s, n - 1);
    }
  }

  /** The first j of n failed requests are counted; request 0 is stuck before its EXPIRE. */
  ghost predicate Counted(s: Sys, n: nat, j: nat) {
    && s.keys == NoKeys(0.0).(fails := Some(Counter(j, None)))
    && s.past.lapses == s.past.underProbe == 0
    && |s.past.births| == 1 && s.past.taken == map[]
    && (forall r: nat :: r in s.pcs <==> r < n)
    && (forall r: nat :: r < n ==>
          if r == 0 then s.pcs[r].Expiring?
          else if r < j then s.pcs[r].Finished?
          else s.pcs[r] == Counting(Raised))
  }

  lemma {:induction false} FailuresCounted(cfg: Config, n: nat, j: nat) returns (s: Sys)
    requires cfg.Valid() && 1 <= j <= n && (j == 1 || j < cfg.threshold)
    ensures Reachable(cfg, s) && Counted(s, n, j)
    decreases j
  {
    var t: Sys;
    if j == 1 {
      t := CallsFail(cfg, n);
    } else {
      t := FailuresCounted(cfg, n, j - 1);
    }
    ReachableStep(cfg, t, Advance(j - 1));
    s := Apply(cfg, t, Advance(j - 1));
  }

  /** Requests that it takes to trip while the first one is stuck before its EXPIRE. */
  function TripSize(cfg: Config): nat
    requires cfg.Valid()
  {
    if cfg.threshold == 1 then 2 else cfg.threshold
  }

  /** Everyone is done but request 0, which is stuck before its EXPIRE. */
  ghost predicate OnlyFirstStuck(s: Sys, n: nat) {
    && (forall r: nat :: r in s.pcs <==> r < n)
    && (forall r: nat :: r < n ==> if r == 0 then s.pcs[r].Expiring? else s.pcs[r].Finished?)
    && s.past.lapses == s.past.underProbe == 0 && 0 in s.past.tripped && s.past.taken == map[]
  }

  lemma LastFailureCounted(cfg: Config, n: nat) returns (s: Sys)
    requires cfg.Valid() && n == TripSize(cfg)
    ensures Reachable(cfg, s) && n - 1 in s.pcs && s.pcs[n - 1] == Tripping(Raised, 0)
    ensures s.keys == NoKeys(0.0).(fails := Some(Counter(n, None)))
    ensures s.past.lapses == s.past.underProbe == 0 && s.past.taken == map[]
    ensures forall r: nat :: r in s.pcs <==> r < n
    ensures forall r: nat :: r < n - 1 ==> if r == 0 then s.pcs[r].Expiring? else s.pcs[r].Finished?
  {
    var u := FailuresCounted(cfg, n, n - 1);
    ReachableStep(cfg, u, Advance(n - 1));
    s := Resume(cfg, u, n - 1);
  }

  lemma Trips(cfg: Config, n: nat) returns (s: Sys)
    requires cfg.Valid() && n == TripSize(cfg)
    ensures Reachable(cfg, s) && OnlyFirstStuck(s, n)
    ensures s.keys == SetOpen(NoKeys(0.0).(fails := Some(Counter(n, None))), cfg.Recovery())
  {
    var u := LastFailureCounted(cfg, n);
    ReachableStep(cfg, u, Advance(n - 1));
    s := Resume(cfg, u, n - 1);
  }

  /** The circuit tripped, the recovery time passed, and the counter is still there because
      request 0 is stuck before its EXPIRE. */
  lemma TripsAndRecovers(cfg: Config) returns (s: Sys)
    requires cfg.Valid()
    ensures Reachable(cfg, s) && OnlyFirstStuck(s, TripSize(cfg)) && Probes(s) == {}
    ensures s.keys == NoKeys(cfg.Recovery() as real).(fails := Some(Counter(TripSize(cfg), None)))
  {
    var u := Trips(cfg, TripSize(cfg));
    var wait := Pass(cfg.Recovery() as real);
    ReachableStep(cfg, u, wait);
    s := Apply(cfg, u, wait);
  }

  /** The counter is full and stays, n probes are in flight, and the last one just began. */
  ghost predicate Overlapping(cfg: Config, s: Sys, n: nat)
    requires cfg.Valid()
  {
    && s.keys.open.None?
    && s.keys.fails == Some(Counter(TripSize(cfg), None))
    && s.keys.lock == Some(s.keys.now + LOCK_SECONDS as real)
    && (forall r: nat :: r in s.pcs <==> r < TripSize(cfg) + n)
    && |Probes(s)| == n
    && s.past.underProbe == s.past.lapses == n - 1
  }

  /** A request arrives and finds no open key and a full counter. */
  lemma ProbeDecides(cfg: Config, s: Sys, r: nat) returns (t: Sys)
    requires Reachable(cfg, s) && r !in s.pcs
    requires s.keys.open.None? && Count(s.keys) >= cfg.threshold
    ensures Reachable(cfg, t) && t.keys == s.keys && t.past == s.past
    ensures t.pcs == s.pcs[r := Locking]
  {
    ReachableStep(cfg, s, Arrive(r));
    t := Apply(cfg, s, Arrive(r));
    ReachableStep(cfg, t, Advance(r));
    t := Apply(cfg, t, Advance(r));
    assert t == s.(pcs := s.pcs[r := ReadingFails]);
    ReachableStep(cfg, t, Advance(r));
    t := Apply(cfg, t, Advance(r));
    assert t.pcs == s.pcs[r := Locking];
  }

  lemma LockTaken(cfg: Config, s: Sys, r: nat)
    requires r in s.pcs && s.pcs[r] == Locking && s.keys.lock.None?
    ensures Resume(cfg, s, r)
            == Sys(TakeLock(s.keys), s.pcs[r := Calling(true)], s.past.(taken := s.past.taken[r := s.keys.now]))
  {
  }

  lemma ProbeAdded(s: Sys, t: Sys, r: nat)
    requires r !in s.pcs && t.pcs == s.pcs[r := Calling(true)]
    ensures Probes(t) == Probes(s) + {r} && |Probes(t)| == |Probes(s)| + 1
  {
    ProbesAfterGoto(s, t, r, Calling(true));
  }

  /** Then it takes the free lock. */
  lemma ProbeStarts(cfg: Config, s: Sys, r: nat) returns (t: Sys)
    requires Reachable(cfg, s) && r !in s.pcs
    requires s.keys.open.None? && s.keys.lock.None? && Count(s.keys) >= cfg.threshold
    ensures Reachable(cfg, t)
    ensures t.pcs == s.pcs[r := Calling(true)]
    ensures t.keys == s.keys.(lock := Some(s.keys.now + LOCK_SECONDS as real))
    ensures t.past == s.past.(taken := s.past.taken[r := s.keys.now])
    ensures Probes(t) == Probes(s) + {r} && |Probes(t)| == |Probes(s)| + 1
  {
    var u := ProbeDecides(cfg, s, r);
    assert u.pcs[r := Calling(true)] == s.pcs[r := Calling(true)];
    ReachableStep(cfg, u, Advance(r));
    LockTaken(cfg, u, r);
    t := Resume(cfg, u, r);
    ProbeAdded(s, t, r);
  }

  /** Waiting for the lock to expire under the probes of s. */
  lemma LockExpires(cfg: Config, s: Sys, n: nat) returns (t: Sys)
    requires cfg.Valid() && n >= 1 && Reachable(cfg, s) && Overlapping(cfg, s, n)
    ensures Reachable(cfg, t) && t.pcs == s.pcs && |Probes(t)| == n
    ensures t.keys == NoKeys(t.keys.now).(fails := s.keys.fails)
    ensures t.past.underProbe == t.past.lapses == n
    ensures t.past.taken == s.past.taken && t.keys.now == s.keys.now + LOCK_SECONDS as real
  {
    var wait := Pass(LOCK_SECONDS as real);
    ReachableStep(cfg, s, wait);
    t := Apply(cfg, s, wait);
    assert Probes(t) == Probes(s);
    assert Probes(s) != {};
  }

  lemma FirstProbe(cfg: Config) returns (s: Sys)
    requires cfg.Valid()
    ensures Reachable(cfg, s) && Overlapping(cfg, s, 1)
    ensures s.past.taken == map[TripSize(cfg) := s.keys.now] && Probes(s) == {TripSize(cfg)}
  {
    var u := TripsAndRecovers(cfg);
    s := ProbeStarts(cfg, u, TripSize(cfg));
  }

  lemma NextProbe(cfg: Config, s: Sys, n: nat) returns (t: Sys)
    requires cfg.Valid() && n >= 1 && Reachable(cfg, s) && Overlapping(cfg, s, n)
    ensures Reachable(cfg, t) && Overlapping(cfg, t, n + 1)
  {
    var u := LockExpires(cfg, s, n);
    t := ProbeStarts(cfg, u, TripSize(cfg) + n);
  }

  lemma {:induction false} OverlappingReachable(cfg: Config, n: nat) returns (s: Sys)
    requires cfg.Valid() && n >= 1
    ensures Reachable(cfg, s) && Overlapping(cfg, s, n)
    decreases n
  {
    if n == 1 {
      s := FirstProbe(cfg);
    } else {
      s := OverlappingReachable(cfg, n - 1);
      s := NextProbe(cfg, s, n - 1);
    }
  }

  /** The lock alone does not make probes exclusive: for every valid configuration and every n
      there is a run in which n probes are in flight after n - 1 expiries of the lock, so the
      bound of ProbeExclusion is attained. */
  lemma ProbesCanOverlap(cfg: Config, n: nat) returns (s: Sys)
    requires cfg.Valid() && n >= 1
    ensures Reachable(cfg, s)
    ensures |Probes(s)| == n && s.past.underProbe == s.past.lapses == n - 1
  {
    s := OverlappingReachable(cfg, n);
  }

  // ---------- how short a probe has to be ----------

  /** Two probes in flight, the first for exactly LOCK_SECONDS and the second not at all. */
  lemma TwoProbes(cfg: Config) returns (s: Sys)
    requires cfg.Valid()
    ensures var p := TripSize(cfg);
            && Reachable(cfg, s) && p in Probes(s) && p + 1 in Probes(s)
            && s.past.taken == map[p := s.keys.now - LOCK_SECONDS as real, p + 1 := s.keys.now]
  {
    var p := TripSize(cfg);
    var u := FirstProbe(cfg);
    var v := LockExpires(cfg, u, 1);
    assert Probes(v) == Probes(u);
    s := ProbeStarts(cfg, v, p + 1);
  }

  /** No request took the lock d seconds or longer ago. */
  ghost predicate AllTakenWithin(s: Sys, d: real) {
    forall r :: r in s.past.taken ==> s.keys.now < s.past.taken[r] + d
  }

  lemma StepKeepsTaken(cfg: Config, s: Sys, step: Step, r: nat)
    requires Invariant(cfg, s) && Enabled(s, step) && r in s.past.taken
    ensures var t := Apply(cfg, s, step);
            r in t.past.taken && t.past.taken[r] == s.past.taken[r] && t.keys.now >= s.keys.now
  {
    assert PcConsistent(cfg, s.past, r, s.pcs[r]);
  }

  /** Looking back from the end of a run, every probe was younger. */
  lemma {:induction false} YoungBefore(cfg: Config, s: Sys, steps: seq<Step>, t: Sys, d: real)
    requires cfg.Valid() && Invariant(cfg, s) && Runs(cfg, s, steps, t) && AllTakenWithin(t, d)
    ensures AllTakenWithin(s, d) && AlwaysYoung(cfg, s, steps, d)
    decreases |steps|
  {
    if steps == [] {
    } else {
      StepKeepsInvariant(cfg, s, steps[0]);
      YoungBefore(cfg, Apply(cfg, s, steps[0]), steps[1..], t, d);
      forall r | r in s.past.taken ensures s.keys.now < s.past.taken[r] + d {
        StepKeepsTaken(cfg, s, steps[0], r);
      }
    }
    forall r | r in Probes(s) ensures r in s.past.taken {
      assert PcConsistent(cfg, s.past, r, s.pcs[r]);
    }
  }

  lemma {:induction false} YoungerStill(cfg: Config, s: Sys, steps: seq<Step>, d: real, d': real)
    requires AlwaysYoung(cfg, s, steps, d) && d <= d'
    ensures AlwaysYoung(cfg, s, steps, d')
    decreases |steps|
  {
    if steps == [] {
    } else {
      YoungerStill(cfg, Apply(cfg, s, steps[0]), steps[1..], d, d');
    }
  }

  ghost predicate ExclusiveIfYoung(cfg: Config, now: real, steps: seq<Step>, t: Sys, d: real) {
    Runs(cfg, Start(now), steps, t) && AlwaysYoung(cfg, Start(now), steps, d) ==>
      forall p, q :: p in Probes(t) && q in Probes(t) ==> p == q
  }

  /** How short probes have to be: probes exclude each other on every run whose probes are
      shorter than d seconds, if and only if d is at most 10. */
  lemma ProbesExclusiveIff(cfg: Config, d: real)
    requires cfg.Valid()
    ensures (forall now, steps, t :: ExclusiveIfYoung(cfg, now, steps, t, d)) <==> d <= 10.0
  {
    if d <= 10.0 {
      forall now, steps, t ensures ExclusiveIfYoung(cfg, now, steps, t, d) {
        if Runs(cfg, Start(now), steps, t) && AlwaysYoung(cfg, Start(now), steps, d) {
          YoungerStill(cfg, Start(now), steps, d, LOCK_SECONDS as real);
          ProbesExclusiveWhileShort(cfg, now, steps, t);
        }
      }
    } else {
      var t := TwoProbes(cfg);
      var now, steps :| Runs(cfg, Start(now), steps, t);
      StartInvariant(cfg, now);
      YoungBefore(cfg, Start(now), steps, t, d);
      assert !ExclusiveIfYoung(cfg, now, steps, t, d);
    }
  }

  /** In every valid configuration, a request that stops between its INCR and its EXPIRE can
      leave a circuit that tripped and recovered with a full counter that no waiting removes:
      the keys show HALF_OPEN however long the traffic pauses. */
  lemma CounterCanStick(cfg: Config) returns (s: Sys)
    requires cfg.Valid()
    ensures Reachable(cfg, s) && s.past.tripped != {}
    ensures forall waits, t :: OnlyWaits(waits) && Runs(cfg, s, waits, t) ==>
              Count(t.keys) >= cfg.threshold && t.keys.open.None? && t.pcs == s.pcs
  {
    s := TripsAndRecovers(cfg);
    forall waits, t | OnlyWaits(waits) && Runs(cfg, s, waits, t)
      ensures Count(t.keys) >= cfg.threshold && t.keys.open.None? && t.pcs == s.pcs
    {
      WaitingOnlyDropsKeys(cfg, s, waits, t);
    }
  }
}
