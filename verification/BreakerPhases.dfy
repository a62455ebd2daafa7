/** With requests served one at a time, the Redis keys implement the three-state machine
    CLOSED, OPEN, HALF_OPEN, extended by one edge to CLOSED when the failure window lapses. */
module BreakerPhases {
  import opened Wrappers
  import opened BreakerKeys
  import opened BreakerProtocol
  import opened BreakerSafety
  import opened BreakerRuns

  datatype Phase = Closed | Open | HalfOpen

  /** The phase the keys show when no request is in flight. */
  function PhaseOf(cfg: Config, k: Keys): Phase {
    if k.open.Some? then Open
    else if Count(k) >= cfg.threshold then HalfOpen
    else Closed
  }

  datatype Event = Trip | ProbeSucceeded | ProbeFailed | RecoveryElapsed | WindowLapsed | Internal

  /** The edges of the machine. */
  predicate Edge(a: Phase, e: Event, b: Phase) {
    match e
    case Trip => a == Closed && b == Open
    case ProbeSucceeded => a == HalfOpen && b == Closed
    case ProbeFailed => a == HalfOpen && b == Open
    case RecoveryElapsed => a == Open && b == HalfOpen
    case WindowLapsed => a != Closed && b == Closed
    case Internal => a == b
  }

  // ---------- one request at a time ----------

  /** cur is the only request in flight, if there is one. */
  ghost predicate Serves(s: Sys, cur: Option<nat>) {
    && (forall r :: r in s.pcs && !s.pcs[r].Finished? ==> cur == Some(r))
    && (cur.Some? ==> cur.value in s.pcs && !s.pcs[cur.value].Finished?)
  }

  function CurrentPc(s: Sys, cur: Option<nat>): Option<Pc>
    requires cur.Some? ==> cur.value in s.pcs
  {
    if cur.None? then None else Some(s.pcs[cur.value])
  }

  /** A request whose read of the counter has decided that it probes, up to the command
      that settles the outcome. */
  predicate DecidedToProbe(pc: Pc) {
    pc.Locking? || pc == Calling(true) || pc.Clearing? || pc.Reopening?
  }

  /** The phase while a request may be in flight. A pending trip still counts as CLOSED, and
      a probe under way as HALF_OPEN even if the counter lapses meanwhile. */
  function Abstract(cfg: Config, k: Keys, pc: Option<Pc>): Phase {
    if k.open.Some? then Open
    else if pc.Some? && DecidedToProbe(pc.value) then HalfOpen
    else if pc.Some? && (pc.value.Tripping? || (pc.value.Expiring? && 1 >= cfg.threshold)) then Closed
    else PhaseOf(cfg, k)
  }

  /** What a single request in flight knows about the keys. */
  ghost predicate SerialOk(cfg: Config, k: Keys, cur: Option<Pc>) {
    && (k.lock.Some? ==> cur.Some? && IsProbing(cur.value))
    && (cur.Some? ==>
          var pc := cur.value;
          && (IsPastOpenCheck(pc) ==> k.open.None?)
          && (pc == Calling(false) || pc.Counting? ==> Count(k) < cfg.threshold)
          && (pc.Expiring? ==> Count(k) <= 1))
  }

  predicate IsPastOpenCheck(pc: Pc) {
    !pc.Checking? && !pc.ReadingTtl? && !pc.Unlocking? && !pc.Finished?
  }

  /** What an outside observer sees of one step. */
  function EventOf(cfg: Config, k: Keys, pc: Option<Pc>, step: Step): Event {
    if step.Advance? && pc.Some? && pc.value.Tripping? then Trip
    else if step.Advance? && pc.Some? && pc.value.Clearing? then ProbeSucceeded
    else if step.Advance? && pc.Some? && pc.value.Reopening? then ProbeFailed
    else if step.Pass? then
      var later := Elapse(k, step.dt);
      if k.open.Some? && later.open.None? then
        (if Count(later) >= cfg.threshold then RecoveryElapsed else WindowLapsed)
      else if Abstract(cfg, k, pc) == HalfOpen && !(pc.Some? && DecidedToProbe(pc.value))
              && Count(later) < cfg.threshold then WindowLapsed
      else Internal
    else Internal
  }

  function NextCurrent(s: Sys, t: Sys, cur: Option<nat>, step: Step): Option<nat>
    requires cur.Some? ==> cur.value in t.pcs
  {
    if step.Arrive? then Some(step.r)
    else if cur.Some? && t.pcs[cur.value].Finished? then None
    else cur
  }

  ghost predicate SerialState(cfg: Config, s: Sys, cur: Option<nat>) {
    && DeadlinesBounded(cfg, s.keys)
    && Serves(s, cur)
    && SerialOk(cfg, s.keys, CurrentPc(s, cur))
  }

  /** The steps lead from s to t and start a request only when none is in flight. */
  ghost predicate SerialRuns(cfg: Config, s: Sys, cur: Option<nat>, steps: seq<Step>,
                             t: Sys, cur': Option<nat>)
    requires cur.Some? ==> cur.value in s.pcs
    decreases |steps|
  {
    if steps == [] then s == t && cur == cur'
    else
      && Enabled(s, steps[0]) && (steps[0].Arrive? ==> cur.None?)
      && var u := Apply(cfg, s, steps[0]);
      SerialRuns(cfg, u, NextCurrent(s, u, cur, steps[0]), steps[1..], t, cur')
  }

  lemma SerialResume(cfg: Config, k: Keys, pc: Pc, gen: nat)
    requires cfg.Valid() && DeadlinesBounded(cfg, k) && SerialOk(cfg, k, Some(pc))
    requires !pc.Calling? && !pc.Finished?
    ensures var pc' := NextPc(cfg, k, pc, gen);
            var cur' := if pc'.Finished? then None else Some(pc');
            && SerialOk(cfg, Command(cfg, k, pc), cur')
            && Edge(Abstract(cfg, k, Some(pc)),
                    EventOf(cfg, k, Some(pc), Advance(0)),
                    Abstract(cfg, Command(cfg, k, pc), cur'))
  {
  }

  lemma SerialReturn(cfg: Config, k: Keys, probe: bool, o: Outcome)
    requires SerialOk(cfg, k, Some(Calling(probe)))
    ensures var pc' := AfterCall(probe, o);
            var cur' := if pc'.Finished? then None else Some(pc');
            && SerialOk(cfg, k, cur')
            && Abstract(cfg, k, Some(Calling(probe))) == Abstract(cfg, k, cur')
  {
  }

  lemma SerialPass(cfg: Config, k: Keys, cur: Option<Pc>, dt: real)
    requires cfg.Valid() && DeadlinesBounded(cfg, k) && SerialOk(cfg, k, cur) && dt > 0.0
    ensures SerialOk(cfg, Elapse(k, dt), cur)
    ensures Edge(Abstract(cfg, k, cur),
                 EventOf(cfg, k, cur, Pass(dt)),
                 Abstract(cfg, Elapse(k, dt), cur))
  {
  }

  /** Every step of a serial run takes an edge of the machine, and a request is treated as
      the phase at that moment demands. */
  lemma SerialStepIsAnEdge(cfg: Config, s: Sys, cur: Option<nat>, step: Step)
    requires cfg.Valid() && SerialState(cfg, s, cur) && Enabled(s, step)
    requires step.Arrive? ==> cur.None?
    ensures var t := Apply(cfg, s, step);
            cur.Some? ==> cur.value in t.pcs
    ensures var t := Apply(cfg, s, step);
            var cur' := NextCurrent(s, t, cur, step);
            && SerialState(cfg, t, cur')
            && Edge(Abstract(cfg, s.keys, CurrentPc(s, cur)),
                    EventOf(cfg, s.keys, CurrentPc(s, cur), step),
                    Abstract(cfg, t.keys, CurrentPc(t, cur')))
  {
    StepBoundsDeadlines(cfg, s, step);
    var t := Apply(cfg, s, step);
    match step
    case Arrive(r) =>
    case Advance(r) =>
      SerialResume(cfg, s.keys, s.pcs[r], Generation(t.past.births));
    case Return(r, o) =>
      SerialReturn(cfg, s.keys, s.pcs[r].probe, o);
    case Pass(dt) =>
      SerialPass(cfg, s.keys, CurrentPc(s, cur), dt);
  }

  lemma {:induction false} SerialRunKeepsState(cfg: Config, s: Sys, cur: Option<nat>, steps: seq<Step>,
                                               t: Sys, cur': Option<nat>)
    requires cfg.Valid() && SerialState(cfg, s, cur)
    requires SerialRuns(cfg, s, cur, steps, t, cur')
    ensures SerialState(cfg, t, cur')
    decreases |steps|
  {
    if steps == [] {
    } else {
      var u := Apply(cfg, s, steps[0]);
      SerialStepIsAnEdge(cfg, s, cur, steps[0]);
      SerialRunKeepsState(cfg, u, NextCurrent(s, u, cur, steps[0]), steps[1..], t, cur');
    }
  }

  /** Refinement: whatever serial run from empty keys came before, the next step takes an
      edge of the machine, and between requests the phase is read off the keys. */
  lemma SerialRefinement(cfg: Config, now: real, steps: seq<Step>, s: Sys, cur: Option<nat>, step: Step)
    requires cfg.Valid() && SerialRuns(cfg, Start(now), None, steps, s, cur)
    requires Enabled(s, step) && (step.Arrive? ==> cur.None?)
    ensures cur.Some? ==> cur.value in s.pcs && cur.value in Apply(cfg, s, step).pcs
    ensures var t := Apply(cfg, s, step);
            Edge(Abstract(cfg, s.keys, CurrentPc(s, cur)),
                 EventOf(cfg, s.keys, CurrentPc(s, cur), step),
                 Abstract(cfg, t.keys, CurrentPc(t, NextCurrent(s, t, cur, step))))
    ensures cur.None? ==> Abstract(cfg, s.keys, CurrentPc(s, cur)) == PhaseOf(cfg, s.keys)
  {
    SerialRunKeepsState(cfg, Start(now), None, steps, s, cur);
    SerialStepIsAnEdge(cfg, s, cur, step);
  }

  /** How a serial request is served: rejected exactly in OPEN, probing exactly in HALF_OPEN
      (the lock is then free), ordinary exactly in CLOSED. */
  lemma ServedByPhase(cfg: Config, now: real, steps: seq<Step>, s: Sys, r: nat)
    requires cfg.Valid() && SerialRuns(cfg, Start(now), None, steps, s, Some(r))
    ensures r in s.pcs
    ensures s.pcs[r].Checking? ==>
              (Resume(cfg, s, r).pcs[r].ReadingTtl? <==> PhaseOf(cfg, s.keys) == Open)
    ensures s.pcs[r].ReadingFails? ==>
              && (Resume(cfg, s, r).pcs[r].Locking? <==> PhaseOf(cfg, s.keys) == HalfOpen)
              && (Resume(cfg, s, r).pcs[r] == Calling(false) <==> PhaseOf(cfg, s.keys) == Closed)
    ensures s.pcs[r].Locking? ==> Resume(cfg, s, r).pcs[r] == Calling(true)
  {
    SerialRunKeepsState(cfg, Start(now), None, steps, s, Some(r));
  }

  // ---------- when HALF_OPEN follows OPEN ----------

  /** When the open flag lapses, HALF_OPEN follows exactly if a full counter is still alive;
      the header comment of the plugin promises it always. */
  lemma HalfOpenFollowsOpenIff(cfg: Config, k: Keys, dt: real)
    requires cfg.Valid() && DeadlinesBounded(cfg, k)
    requires k.open.Some? && k.open.value <= k.now + dt
    ensures PhaseOf(cfg, Elapse(k, dt)) != Open
    ensures PhaseOf(cfg, Elapse(k, dt)) == HalfOpen <==>
              && Count(k) >= cfg.threshold
              && (k.fails.value.deadline.Some? ==> k.now + dt < k.fails.value.deadline.value)
  {
  }

  /** The open key of a tripped generation outlives its counter. */
  ghost predicate TripCovers(cfg: Config, k: Keys, h: History) {
    k.fails.Some? && |h.births| > 0 && |h.births| - 1 in h.tripped ==>
      k.open.Some? && k.open.value >= h.births[|h.births| - 1] + cfg.window as real
  }

  lemma TrippedIsBorn(cfg: Config, s: Sys, gen: nat)
    requires cfg.Valid() && Invariant(cfg, s) && gen in s.past.tripped
    ensures gen < |s.past.births|
  {
    assert TripsExactly(cfg, s, gen);
    assert |CountedIn(s.past, gen)| >= 1;
    var r :| r in CountedIn(s.past, gen);
    assert s.past.counted[r].gen < |s.past.births|;
  }

  lemma CommandKeepsCover(cfg: Config, k: Keys, h: History, r: nat, pc: Pc)
    requires cfg.Valid() && cfg.window <= cfg.Recovery()
    requires DeadlinesBounded(cfg, k) && BornBy(h.births, k.now) && TripCovers(cfg, k, h)
    requires k.fails.Some? ==> |h.births| > 0
    requires |h.births| !in h.tripped
    ensures TripCovers(cfg, Command(cfg, k, pc), Note(k, h, r, pc))
  {
  }

  lemma StepKeepsCover(cfg: Config, s: Sys, step: Step)
    requires cfg.Valid() && cfg.window <= cfg.Recovery() && Invariant(cfg, s) && Enabled(s, step)
    requires Apply(cfg, s, step).past.prompt && TripCovers(cfg, s.keys, s.past)
    ensures TripCovers(cfg, Apply(cfg, s, step).keys, Apply(cfg, s, step).past)
  {
    if step.Advance? {
      if |s.past.births| in s.past.tripped {
        TrippedIsBorn(cfg, s, |s.past.births|);
      }
      CommandKeepsCover(cfg, s.keys, s.past, step.r, s.pcs[step.r]);
    }
  }

  lemma PromptBefore(cfg: Config, s: Sys, step: Step)
    requires Enabled(s, step) && Apply(cfg, s, step).past.prompt
    ensures s.past.prompt
  {
  }

  lemma {:induction false} RunPromptBefore(cfg: Config, s: Sys, steps: seq<Step>, t: Sys)
    requires Runs(cfg, s, steps, t) && t.past.prompt
    ensures s.past.prompt
    decreases |steps|
  {
    if steps == [] {
    } else {
      RunPromptBefore(cfg, Apply(cfg, s, steps[0]), steps[1..], t);
      PromptBefore(cfg, s, steps[0]);
    }
  }

  lemma {:induction false} RunKeepsCover(cfg: Config, s: Sys, steps: seq<Step>, t: Sys)
    requires cfg.Valid() && cfg.window <= cfg.Recovery() && Invariant(cfg, s)
    requires Runs(cfg, s, steps, t) && t.past.prompt && TripCovers(cfg, s.keys, s.past)
    ensures TripCovers(cfg, t.keys, t.past)
    decreases |steps|
  {
    if steps == [] {
    } else {
      var u := Apply(cfg, s, steps[0]);
      RunPromptBefore(cfg, u, steps[1..], t);
      StepKeepsInvariant(cfg, s, steps[0]);
      StepKeepsCover(cfg, s, steps[0]);
      RunKeepsCover(cfg, u, steps[1..], t);
    }
  }

  /** With a failure window no longer than the recovery time and no pause between INCR and
      EXPIRE, no interleaving of any number of requests shows HALF_OPEN after a trip: a full
      counter without an open key is one whose trip is still about to be written. */
  lemma ShortWindowSkipsHalfOpen(cfg: Config, s: Sys)
    requires cfg.Valid() && Reachable(cfg, s) && s.past.prompt
    requires cfg.window <= cfg.Recovery()
    requires PhaseOf(cfg, s.keys) == HalfOpen
    ensures |s.past.births| > 0
    ensures |s.past.births| - 1 !in s.past.tripped
    ensures SomeWillTrip(cfg, s, |s.past.births| - 1)
  {
    var now, steps :| Runs(cfg, Start(now), steps, s);
    StartInvariant(cfg, now);
    RunKeepsCover(cfg, Start(now), steps, s);
    ReachableInvariant(cfg, s);
    TripsAreExact(cfg, s, |s.past.births| - 1);
  }

  /** The first j of n failed requests are counted, the window began with the first, and the
      one that reached the threshold is about to trip. */
  ghost predicate PromptlyCounted(cfg: Config, s: Sys, n: nat, j: nat) {
    && s.keys == NoKeys(0.0).(fails := Some(Counter(j, Some(cfg.window as real))))
    && s.past.prompt && |s.past.births| == 1 && s.past.tripped == {}
    && (forall r: nat :: r in s.pcs <==> r < n)
    && (forall r: nat :: r < n ==>
          if r >= j then s.pcs[r] == Counting(Raised)
          else if r == j - 1 && j >= cfg.threshold then s.pcs[r] == Tripping(Raised, 0)
          else s.pcs[r].Finished?)
  }

  /** The first failure is counted and its EXPIRE sent at once. */
  lemma FirstCountedPromptly(cfg: Config, n: nat) returns (s: Sys)
    requires cfg.Valid() && n >= 1
    ensures Reachable(cfg, s) && PromptlyCounted(cfg, s, n, 1)
  {
    var t := CallsFail(cfg, n);
    ReachableStep(cfg, t, Advance(0));
    var u := Resume(cfg, t, 0);
    assert u.pcs == t.pcs[0 := Expiring(Raised, 0)];
    ReachableStep(cfg, u, Advance(0));
    s := Resume(cfg, u, 0);
  }

  lemma {:induction false} AllCountedPromptly(cfg: Config, n: nat, j: nat) returns (s: Sys)
    requires cfg.Valid() && 1 <= j <= n <= cfg.threshold
    ensures Reachable(cfg, s) && PromptlyCounted(cfg, s, n, j)
    decreases j
  {
    if j == 1 {
      s := FirstCountedPromptly(cfg, n);
    } else {
      var t := AllCountedPromptly(cfg, n, j - 1);
      ReachableStep(cfg, t, Advance(j - 1));
      s := Resume(cfg, t, j - 1);
    }
  }

  lemma TripsPromptly(cfg: Config) returns (s: Sys)
    requires cfg.Valid()
    ensures Reachable(cfg, s) && s.past.prompt && |s.past.births| == 1 && 0 in s.past.tripped
    ensures forall r :: r in s.pcs ==> s.pcs[r].Finished?
    ensures s.keys
            == SetOpen(NoKeys(0.0).(fails := Some(Counter(cfg.threshold, Some(cfg.window as real)))), cfg.Recovery())
  {
    var n: nat := cfg.threshold;
    var t := AllCountedPromptly(cfg, n, n);
    ReachableStep(cfg, t, Advance(n - 1));
    s := Resume(cfg, t, n - 1);
    assert s.pcs == t.pcs[n - 1 := Finished(Forwarded(Raised))];
  }

  /** In every valid configuration the circuit can trip, all requests end, and the open flag
      lapse, with no pause at all between the commands: then HALF_OPEN shows if the window is
      longer than the recovery time, and CLOSED if it is not. */
  lemma AfterTheRecoveryTime(cfg: Config) returns (s: Sys)
    requires cfg.Valid()
    ensures Reachable(cfg, s) && s.past.prompt && |s.past.births| == 1 && 0 in s.past.tripped
    ensures forall r :: r in s.pcs ==> s.pcs[r].Finished?
    ensures PhaseOf(cfg, s.keys) == if cfg.window > cfg.Recovery() then HalfOpen else Closed
  {
    var u := TripsPromptly(cfg);
    var wait := Pass(cfg.Recovery() as real);
    ReachableStep(cfg, u, wait);
    s := Apply(cfg, u, wait);
  }

  /** Reached with no pause between any INCR and its EXPIRE, s shows HALF_OPEN by the counter
      of a generation whose trip was written. */
  ghost predicate HalfOpenAfterTrip(cfg: Config, s: Sys) {
    && Reachable(cfg, s) && s.past.prompt && PhaseOf(cfg, s.keys) == HalfOpen
    && |s.past.births| > 0 && |s.past.births| - 1 in s.past.tripped
  }

  /** HALF_OPEN after a trip is possible at all, in any interleaving, if and only if the
      failure window is longer than the recovery time. */
  lemma HalfOpenAfterTripIff(cfg: Config)
    requires cfg.Valid()
    ensures (exists s :: HalfOpenAfterTrip(cfg, s)) <==> cfg.window as real > cfg.recoveryTimeout
  {
    if cfg.window > cfg.Recovery() {
      var s := AfterTheRecoveryTime(cfg);
      assert HalfOpenAfterTrip(cfg, s);
    } else if s :| HalfOpenAfterTrip(cfg, s) {
      ShortWindowSkipsHalfOpen(cfg, s);
      assert false;
    }
  }
}
