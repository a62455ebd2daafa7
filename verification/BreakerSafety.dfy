/** What every interleaving of the circuit breaker keeps. */
module BreakerSafety {
  import opened Wrappers
  import opened BreakerKeys
  import opened BreakerProtocol

  // ---------- deadlines ----------

  lemma CommandBoundsDeadlines(cfg: Config, k: Keys, pc: Pc)
    requires cfg.Valid() && DeadlinesBounded(cfg, k)
    ensures DeadlinesBounded(cfg, Command(cfg, k, pc))
  {
  }

  lemma StepBoundsDeadlines(cfg: Config, s: Sys, step: Step)
    requires cfg.Valid() && DeadlinesBounded(cfg, s.keys) && Enabled(s, step)
    ensures DeadlinesBounded(cfg, Apply(cfg, s, step).keys)
  {
    if step.Advance? {
      CommandBoundsDeadlines(cfg, s.keys, s.pcs[step.r]);
    }
  }

  // ---------- probes ----------

  function Held(s: Sys): nat {
    if s.keys.lock.Some? then 1 else 0
  }

  /** Probes in flight exceed the lock by at most the expiries that hit a live probe. */
  ghost predicate ProbesBounded(s: Sys) {
    |Probes(s)| <= Held(s) + s.past.underProbe && s.past.underProbe <= s.past.lapses
  }

  lemma ProbesChange(s: Sys, t: Sys, r: nat, pc: Pc)
    requires t.pcs == s.pcs[r := pc]
    ensures Probes(t) == if IsProbing(pc) then Probes(s) + {r} else Probes(s) - {r}
  {
    forall q ensures q in Probes(t) <==> (if q == r then IsProbing(pc) else q in Probes(s)) {
      assert q in t.pcs <==> q == r || q in s.pcs;
    }
  }

  lemma OneMoreOrLess(xs: set<nat>, r: nat)
    ensures |xs + {r}| == |xs| + (if r in xs then 0 else 1)
    ensures |xs - {r}| == |xs| - (if r in xs then 1 else 0)
  {
    if r in xs {
      assert xs + {r} == xs;
    } else {
      assert xs - {r} == xs;
    }
  }

  lemma ProbesAfterGoto(s: Sys, t: Sys, r: nat, pc: Pc)
    requires t.pcs == s.pcs[r := pc]
    ensures Probes(t) == if IsProbing(pc) then Probes(s) + {r} else Probes(s) - {r}
    ensures |Probes(t)| == |Probes(s)|
                           + (if IsProbing(pc) && r !in Probes(s) then 1 else 0)
                           - (if !IsProbing(pc) && r in Probes(s) then 1 else 0)
  {
    ProbesChange(s, t, r, pc);
    OneMoreOrLess(Probes(s), r);
  }

  lemma LockingBoundsProbes(cfg: Config, s: Sys, r: nat)
    requires r in s.pcs && s.pcs[r].Locking? && ProbesBounded(s)
    ensures ProbesBounded(Resume(cfg, s, r))
  {
    ProbesAfterGoto(s, Resume(cfg, s, r), r, Resume(cfg, s, r).pcs[r]);
  }

  lemma UnlockingBoundsProbes(cfg: Config, s: Sys, r: nat)
    requires r in s.pcs && s.pcs[r].Unlocking? && ProbesBounded(s)
    ensures ProbesBounded(Resume(cfg, s, r))
  {
    ProbesAfterGoto(s, Resume(cfg, s, r), r, Resume(cfg, s, r).pcs[r]);
  }

  /** All other commands leave the lock and the counts of expiries alone and start no probe. */
  lemma OthersKeepLock(cfg: Config, k: Keys, h: History, r: nat, pc: Pc, gen: nat)
    requires !pc.Locking? && !pc.Unlocking? && !pc.Calling?
    ensures Command(cfg, k, pc).lock == k.lock
    ensures Note(k, h, r, pc).lapses == h.lapses && Note(k, h, r, pc).underProbe == h.underProbe
    ensures IsProbing(NextPc(cfg, k, pc, gen)) ==> IsProbing(pc)
  {
  }

  lemma ResumeBoundsProbes(cfg: Config, s: Sys, r: nat)
    requires Enabled(s, Advance(r)) && ProbesBounded(s)
    ensures ProbesBounded(Resume(cfg, s, r))
  {
    var pc := s.pcs[r];
    if pc.Locking? {
      LockingBoundsProbes(cfg, s, r);
    } else if pc.Unlocking? {
      UnlockingBoundsProbes(cfg, s, r);
    } else {
      var t := Resume(cfg, s, r);
      OthersKeepLock(cfg, s.keys, s.past, r, pc, Generation(t.past.births));
      GotoBoundsProbes(s, r, t.pcs[r]);
      assert Probes(t) == Probes(s.(pcs := t.pcs));
    }
  }

  lemma GotoBoundsProbes(s: Sys, r: nat, pc: Pc)
    requires ProbesBounded(s) && (IsProbing(pc) ==> r in Probes(s))
    ensures ProbesBounded(s.(pcs := s.pcs[r := pc]))
  {
    ProbesAfterGoto(s, s.(pcs := s.pcs[r := pc]), r, pc);
  }

  lemma PassBoundsProbes(s: Sys, dt: real)
    requires ProbesBounded(s)
    ensures ProbesBounded(PassTime(s, dt))
  {
    assert Probes(PassTime(s, dt)) == Probes(s);
  }

  lemma StepBoundsProbes(cfg: Config, s: Sys, step: Step)
    requires Enabled(s, step) && ProbesBounded(s)
    ensures ProbesBounded(Apply(cfg, s, step))
  {
    match step
    case Advance(r) => ResumeBoundsProbes(cfg, s, r);
    case Pass(dt) => PassBoundsProbes(s, dt);
    case Arrive(r) => GotoBoundsProbes(s, r, Checking);
    case Return(r, o) => GotoBoundsProbes(s, r, AfterCall(s.pcs[r].probe, o));
  }

  // ---------- the failure counter ----------

  function CountedIn(h: History, gen: nat): set<nat> {
    set r | r in h.counted && h.counted[r].gen == gen
  }

  /** A request that is past its INCR, after a failed call. */
  predicate CountedFailure(pc: Pc) {
    match pc
    case Expiring(o, _) => Failed(o)
    case Tripping(o, _) => Failed(o)
    case Finished(Forwarded(o)) => Failed(o)
    case _ => false
  }

  predicate BeforeLock(pc: Pc) {
    pc.Checking? || pc.ReadingTtl? || pc.ReadingFails? || pc.Locking?
  }

  /** A control point that a request cannot reach after taking the probe lock. */
  predicate Lockless(pc: Pc) {
    BeforeLock(pc) || pc == Calling(false) || pc.Counting? || pc.Expiring? || pc.Tripping?
  }

  /** The control point of one request agrees with the history. */
  ghost predicate PcConsistent(cfg: Config, h: History, r: nat, pc: Pc) {
    && (Lockless(pc) ==> r !in h.taken)
    && (IsProbing(pc) ==> r in h.taken)
    && (pc.Counting? ==> Failed(pc.o))
    && (BeforeLock(pc) || pc.Calling? || pc.Counting? || IsProbing(pc) ==> r !in h.counted)
    && (pc.Expiring? || pc.Tripping? ==>
          r in h.counted && h.counted[r].gen == pc.gen && Failed(pc.o))
    && (pc.Tripping? ==> |CountedIn(h, pc.gen)| >= cfg.threshold)
    && (r in h.counted ==>
          r !in h.taken && CountedFailure(pc) && h.counted[r].gen < |h.births|)
  }

  ghost predicate CounterMatches(k: Keys, h: History) {
    k.fails.Some? ==>
      && |h.births| > 0
      && k.fails.value.count == |CountedIn(h, |h.births| - 1)|
      && k.fails.value.count >= 1
  }

  ghost predicate CounterExact(cfg: Config, s: Sys) {
    && (forall r :: r in s.pcs ==> PcConsistent(cfg, s.past, r, s.pcs[r]))
    && (forall r :: r in s.past.counted || r in s.past.taken ==> r in s.pcs)
    && (forall r :: r in s.past.counted ==> s.past.counted[r].gen < |s.past.births|)
    && CounterMatches(s.keys, s.past)
  }

  lemma CountedAfterNote(k: Keys, h: History, r: nat, pc: Pc)
    requires CounterMatches(k, h)
    requires forall q :: q in h.counted ==> h.counted[q].gen < |h.births|
    requires r !in h.counted && pc.Counting?
    ensures var h' := Note(k, h, r, pc);
            var now := Generation(h'.births);
            && now == |h'.births| - 1
            && CountedIn(h', now) == CountedIn(h, now) + {r}
            && |CountedIn(h', now)| == Count(k) + 1
            && (forall g: nat :: g != now ==> CountedIn(h', g) == CountedIn(h, g))
  {
    var h' := Note(k, h, r, pc);
    var now := Generation(h'.births);
    assert CountedIn(h', now) == CountedIn(h, now) + {r};
    if k.fails.None? {
      assert CountedIn(h, now) == {};
    }
    forall g: nat | g != now ensures CountedIn(h', g) == CountedIn(h, g) {
    }
  }

  /** Only one request's entry changes, and no generation loses a failure. */
  ghost predicate Extends(h: History, h': History, r: nat) {
    && |h.births| <= |h'.births|
    && (forall q :: q != r ==> (q in h'.counted <==> q in h.counted) && (q in h'.taken <==> q in h.taken))
    && (forall q :: q != r && q in h.counted ==> h'.counted[q] == h.counted[q])
    && (forall g: nat :: |CountedIn(h, g)| <= |CountedIn(h', g)|)
  }

  lemma NoteExtends(cfg: Config, k: Keys, h: History, r: nat, pc: Pc)
    requires CounterMatches(k, h) && PcConsistent(cfg, h, r, pc)
    requires forall q :: q in h.counted ==> h.counted[q].gen < |h.births|
    ensures Extends(h, Note(k, h, r, pc), r)
  {
    if pc.Counting? {
      CountedAfterNote(k, h, r, pc);
    } else {
      assert forall g: nat :: CountedIn(h, g) == CountedIn(Note(k, h, r, pc), g);
    }
  }

  lemma CountingKeepsPc(cfg: Config, k: Keys, h: History, r: nat, pc: Pc)
    requires cfg.Valid() && CounterMatches(k, h) && PcConsistent(cfg, h, r, pc) && pc.Counting?
    requires forall q :: q in h.counted ==> h.counted[q].gen < |h.births|
    ensures var h' := Note(k, h, r, pc);
            PcConsistent(cfg, h', r, NextPc(cfg, k, pc, Generation(h'.births)))
  {
    CountedAfterNote(k, h, r, pc);
  }

  lemma ExpiringKeepsPc(cfg: Config, h: History, r: nat, pc: Pc)
    requires PcConsistent(cfg, h, r, pc) && pc.Expiring?
    ensures PcConsistent(cfg, h, r, if 1 >= cfg.threshold then Tripping(pc.o, pc.gen) else Finished(Forwarded(pc.o)))
  {
    assert r in CountedIn(h, pc.gen);
    assert |CountedIn(h, pc.gen)| >= 1;
  }

  lemma LockingKeepsPc(cfg: Config, k: Keys, h: History, r: nat, gen: nat)
    requires PcConsistent(cfg, h, r, Locking)
    ensures PcConsistent(cfg, Note(k, h, r, Locking), r, NextPc(cfg, k, Locking, gen))
  {
  }

  lemma TrippingKeepsPc(cfg: Config, k: Keys, h: History, r: nat, pc: Pc)
    requires PcConsistent(cfg, h, r, pc) && pc.Tripping?
    ensures PcConsistent(cfg, Note(k, h, r, pc), r, Finished(Forwarded(pc.o)))
  {
  }

  lemma OtherKeepsPc(cfg: Config, k: Keys, h: History, r: nat, pc: Pc, gen: nat)
    requires PcConsistent(cfg, h, r, pc)
    requires !pc.Calling? && !pc.Finished? && !pc.Counting? && !pc.Expiring? && !pc.Locking? && !pc.Tripping?
    ensures PcConsistent(cfg, Note(k, h, r, pc), r, NextPc(cfg, k, pc, gen))
  {
  }

  lemma ResumeKeepsPc(cfg: Config, k: Keys, h: History, r: nat, pc: Pc)
    requires cfg.Valid() && CounterMatches(k, h) && PcConsistent(cfg, h, r, pc)
    requires forall q :: q in h.counted ==> h.counted[q].gen < |h.births|
    requires !pc.Calling? && !pc.Finished?
    ensures var h' := Note(k, h, r, pc);
            PcConsistent(cfg, h', r, NextPc(cfg, k, pc, Generation(h'.births)))
  {
    var gen := Generation(Note(k, h, r, pc).births);
    match pc
    case Counting(_) => CountingKeepsPc(cfg, k, h, r, pc);
    case Expiring(_, _) => ExpiringKeepsPc(cfg, h, r, pc);
    case Locking => LockingKeepsPc(cfg, k, h, r, gen);
    case Tripping(_, _) => TrippingKeepsPc(cfg, k, h, r, pc);
    case _ => OtherKeepsPc(cfg, k, h, r, pc, gen);
  }

  lemma ResumeKeepsCounter(cfg: Config, k: Keys, h: History, r: nat, pc: Pc)
    requires CounterMatches(k, h) && PcConsistent(cfg, h, r, pc)
    requires forall q :: q in h.counted ==> h.counted[q].gen < |h.births|
    ensures CounterMatches(Command(cfg, k, pc), Note(k, h, r, pc))
    ensures forall q :: q in Note(k, h, r, pc).counted ==>
              Note(k, h, r, pc).counted[q].gen < |Note(k, h, r, pc).births|
  {
    if pc.Counting? {
      CountedAfterNote(k, h, r, pc);
    } else {
      assert forall g: nat :: CountedIn(h, g) == CountedIn(Note(k, h, r, pc), g);
    }
  }

  lemma ResumeCountsExactly(cfg: Config, s: Sys, r: nat)
    requires cfg.Valid() && Enabled(s, Advance(r)) && CounterExact(cfg, s)
    ensures CounterExact(cfg, Resume(cfg, s, r))
  {
    var pc := s.pcs[r];
    var t := Resume(cfg, s, r);
    assert PcConsistent(cfg, s.past, r, pc);
    NoteExtends(cfg, s.keys, s.past, r, pc);
    ResumeKeepsPc(cfg, s.keys, s.past, r, pc);
    ResumeKeepsCounter(cfg, s.keys, s.past, r, pc);
    forall q | q in t.pcs ensures PcConsistent(cfg, t.past, q, t.pcs[q]) {
      assert q != r ==> PcConsistent(cfg, s.past, q, s.pcs[q]);
    }
  }

  lemma StepCountsExactly(cfg: Config, s: Sys, step: Step)
    requires cfg.Valid() && Enabled(s, step) && CounterExact(cfg, s)
    ensures CounterExact(cfg, Apply(cfg, s, step))
  {
    if step.Advance? {
      ResumeCountsExactly(cfg, s, step.r);
    } else {
      var t := Apply(cfg, s, step);
      assert forall g: nat :: CountedIn(s.past, g) == CountedIn(t.past, g);
      forall q | q in t.pcs ensures PcConsistent(cfg, t.past, q, t.pcs[q]) {
        assert q in s.pcs ==> PcConsistent(cfg, s.past, q, s.pcs[q]);
      }
    }
  }

  /** A counter without a deadline has a request about to send its EXPIRE. */
  ghost predicate ExpiryPending(s: Sys) {
    s.keys.fails.Some? && s.keys.fails.value.deadline.None? ==> SomeExpiring(s)
  }

  lemma StepKeepsExpiryPending(cfg: Config, s: Sys, step: Step)
    requires Enabled(s, step) && CounterExact(cfg, s) && ExpiryPending(s)
    ensures ExpiryPending(Apply(cfg, s, step))
  {
    var t := Apply(cfg, s, step);
    if SomeExpiring(s) {
      var e :| e in s.pcs && s.pcs[e].Expiring?;
      assert e in t.pcs;
      assert step != Advance(e) ==> t.pcs[e].Expiring?;
    }
    if step.Advance? && s.pcs[step.r].Counting? && s.keys.fails.None? {
      assert t.pcs[step.r].Expiring?;
    }
  }

  /** A request that will write the open key for generation gen. */
  predicate WillTrip(cfg: Config, pc: Pc, gen: nat) {
    (pc.Tripping? && pc.gen == gen) || (pc.Expiring? && pc.gen == gen && 1 >= cfg.threshold)
  }

  ghost predicate SomeWillTrip(cfg: Config, s: Sys, gen: nat) {
    exists r :: r in s.pcs && WillTrip(cfg, s.pcs[r], gen)
  }

  /** A generation has written the open key, or a request is about to, exactly if it counted
      at least threshold failures. */
  ghost predicate TripsExactly(cfg: Config, s: Sys, gen: nat) {
    gen in s.past.tripped || SomeWillTrip(cfg, s, gen) <==> |CountedIn(s.past, gen)| >= cfg.threshold
  }

  ghost predicate AllTripExactly(cfg: Config, s: Sys) {
    forall gen: nat :: TripsExactly(cfg, s, gen)
  }

  lemma WillTripCounted(cfg: Config, s: Sys, gen: nat)
    requires CounterExact(cfg, s) && SomeWillTrip(cfg, s, gen)
    ensures |CountedIn(s.past, gen)| >= cfg.threshold
  {
    var r :| r in s.pcs && WillTrip(cfg, s.pcs[r], gen);
    assert PcConsistent(cfg, s.past, r, s.pcs[r]);
    assert r in CountedIn(s.past, gen);
    assert |CountedIn(s.past, gen)| >= 1;
  }

  /** One step neither forgets a pending trip nor a written one. */
  lemma StepKeepsTrip(cfg: Config, s: Sys, step: Step, gen: nat)
    requires Enabled(s, step)
    requires gen in s.past.tripped || SomeWillTrip(cfg, s, gen)
    ensures var t := Apply(cfg, s, step);
            gen in t.past.tripped || SomeWillTrip(cfg, t, gen)
  {
    var t := Apply(cfg, s, step);
    if gen !in t.past.tripped {
      var e :| e in s.pcs && WillTrip(cfg, s.pcs[e], gen);
      assert e in t.pcs && WillTrip(cfg, t.pcs[e], gen);
    }
  }

  /** The step that brings a generation to the threshold leaves a request about to trip. */
  lemma CountingTrips(cfg: Config, s: Sys, r: nat, gen: nat)
    requires cfg.Valid() && CounterExact(cfg, s) && Enabled(s, Advance(r)) && s.pcs[r].Counting?
    requires |CountedIn(s.past, gen)| < cfg.threshold
    requires |CountedIn(Resume(cfg, s, r).past, gen)| >= cfg.threshold
    ensures SomeWillTrip(cfg, Resume(cfg, s, r), gen)
  {
    var t := Resume(cfg, s, r);
    assert PcConsistent(cfg, s.past, r, s.pcs[r]);
    CountedAfterNote(s.keys, s.past, r, s.pcs[r]);
    assert gen == Generation(t.past.births);
    assert WillTrip(cfg, t.pcs[r], gen);
  }

  lemma StepTripsExactly(cfg: Config, s: Sys, step: Step, gen: nat)
    requires cfg.Valid() && Enabled(s, step) && CounterExact(cfg, s)
    requires CounterExact(cfg, Apply(cfg, s, step)) && TripsExactly(cfg, s, gen)
    ensures TripsExactly(cfg, Apply(cfg, s, step), gen)
  {
    var t := Apply(cfg, s, step);
    CountedGrows(cfg, s, step, gen);
    if gen in s.past.tripped || SomeWillTrip(cfg, s, gen) {
      StepKeepsTrip(cfg, s, step, gen);
    } else if |CountedIn(t.past, gen)| >= cfg.threshold {
      CountingTrips(cfg, s, step.r, gen);
    } else if SomeWillTrip(cfg, t, gen) {
      WillTripCounted(cfg, t, gen);
    } else if gen in t.past.tripped {
      TrippedWasPending(cfg, s, step, gen);
    }
  }

  /** A step counts a failure only at INCR, and never forgets one. */
  lemma CountedGrows(cfg: Config, s: Sys, step: Step, gen: nat)
    requires Enabled(s, step) && CounterExact(cfg, s)
    ensures var t := Apply(cfg, s, step);
            && |CountedIn(t.past, gen)| >= |CountedIn(s.past, gen)|
            && (!(step.Advance? && s.pcs[step.r].Counting?) ==> CountedIn(t.past, gen) == CountedIn(s.past, gen))
  {
    if step.Advance? {
      assert PcConsistent(cfg, s.past, step.r, s.pcs[step.r]);
      NoteExtends(cfg, s.keys, s.past, step.r, s.pcs[step.r]);
      assert |CountedIn(s.past, gen)| <= |CountedIn(Note(s.keys, s.past, step.r, s.pcs[step.r]), gen)|;
    }
  }

  lemma TrippedWasPending(cfg: Config, s: Sys, step: Step, gen: nat)
    requires Enabled(s, step) && gen in Apply(cfg, s, step).past.tripped && gen !in s.past.tripped
    ensures SomeWillTrip(cfg, s, gen)
  {
    assert step.Advance? && WillTrip(cfg, s.pcs[step.r], gen);
  }

  // ---------- the failure window ----------

  ghost predicate Ordered(births: seq<real>) {
    forall i, j :: 0 <= i <= j < |births| ==> births[i] <= births[j]
  }

  ghost predicate BornBy(births: seq<real>, now: real) {
    Ordered(births) && forall i :: 0 <= i < |births| ==> births[i] <= now
  }

  /** The present counter ends within one window of its creation. */
  ghost predicate CounterConfined(cfg: Config, k: Keys, births: seq<real>) {
    k.fails.Some? && |births| > 0 ==>
      var born := births[|births| - 1];
      if k.fails.value.deadline.None? then born == k.now
      else k.fails.value.deadline.value <= born + cfg.window as real
  }

  ghost predicate JustBorn(k: Keys, births: seq<real>, pc: Pc) {
    pc.Expiring? ==> pc.gen < |births| && births[pc.gen] == k.now
  }

  ghost predicate RecordConfined(cfg: Config, births: seq<real>, e: Record) {
    e.gen < |births| && births[e.gen] <= e.at < births[e.gen] + cfg.window as real
  }

  /** While no time passes between an INCR and its EXPIRE, each generation is confined to
      one window from its creation. */
  ghost predicate WindowKept(cfg: Config, s: Sys) {
    && BornBy(s.past.births, s.keys.now)
    && (s.past.prompt ==>
          && CounterConfined(cfg, s.keys, s.past.births)
          && (forall r :: r in s.pcs ==> JustBorn(s.keys, s.past.births, s.pcs[r]))
          && (forall r :: r in s.past.counted ==>
                RecordConfined(cfg, s.past.births, s.past.counted[r])))
  }

  lemma CommandConfines(cfg: Config, k: Keys, births: seq<real>, pc: Pc)
    requires BornBy(births, k.now) && JustBorn(k, births, pc)
    requires CounterConfined(cfg, k, births) && (k.fails.Some? ==> |births| > 0)
    ensures CounterConfined(cfg, Command(cfg, k, pc), BirthsAfter(k, births, pc))
  {
    if pc.Expiring? {
      assert births[pc.gen] <= births[|births| - 1];
    }
  }

  lemma NoteConfines(cfg: Config, k: Keys, h: History, r: nat, pc: Pc)
    requires cfg.Valid() && DeadlinesBounded(cfg, k)
    requires BornBy(h.births, k.now) && CounterConfined(cfg, k, h.births)
    requires k.fails.Some? ==> |h.births| > 0
    requires forall q :: q in h.counted ==> RecordConfined(cfg, h.births, h.counted[q])
    ensures var h' := Note(k, h, r, pc);
            forall q :: q in h'.counted ==> RecordConfined(cfg, h'.births, h'.counted[q])
  {
    var h' := Note(k, h, r, pc);
    forall q | q in h'.counted ensures RecordConfined(cfg, h'.births, h'.counted[q]) {
      if q in h.counted {
        assert RecordConfined(cfg, h.births, h.counted[q]);
      }
    }
  }

  lemma ResumeKeepsJustBorn(cfg: Config, s: Sys, r: nat)
    requires Enabled(s, Advance(r)) && CounterExact(cfg, s)
    requires forall q :: q in s.pcs ==> JustBorn(s.keys, s.past.births, s.pcs[q])
    ensures var t := Resume(cfg, s, r);
            forall q :: q in t.pcs ==> JustBorn(t.keys, t.past.births, t.pcs[q])
  {
    var pc, t := s.pcs[r], Resume(cfg, s, r);
    assert t.past.births == BirthsAfter(s.keys, s.past.births, pc);
    assert t.keys.now == s.keys.now;
    assert CounterMatches(s.keys, s.past);
    forall q | q in t.pcs ensures JustBorn(t.keys, t.past.births, t.pcs[q]) {
      if q != r {
        assert JustBorn(s.keys, s.past.births, s.pcs[q]);
      } else if pc.Counting? && s.keys.fails.Some? {
        assert !t.pcs[q].Expiring?;
      }
    }
  }

  lemma ResumeKeepsWindow(cfg: Config, s: Sys, r: nat)
    requires cfg.Valid() && Enabled(s, Advance(r))
    requires DeadlinesBounded(cfg, s.keys) && CounterExact(cfg, s) && WindowKept(cfg, s)
    ensures WindowKept(cfg, Resume(cfg, s, r))
  {
    var pc := s.pcs[r];
    if s.past.prompt {
      assert JustBorn(s.keys, s.past.births, pc);
      CommandConfines(cfg, s.keys, s.past.births, pc);
      NoteConfines(cfg, s.keys, s.past, r, pc);
      ResumeKeepsJustBorn(cfg, s, r);
    }
    assert Note(s.keys, s.past, r, pc).births == BirthsAfter(s.keys, s.past.births, pc);
  }

  lemma StepKeepsWindow(cfg: Config, s: Sys, step: Step)
    requires cfg.Valid() && Enabled(s, step)
    requires DeadlinesBounded(cfg, s.keys) && CounterExact(cfg, s)
    requires ExpiryPending(s) && WindowKept(cfg, s)
    ensures WindowKept(cfg, Apply(cfg, s, step))
  {
    if step.Advance? {
      ResumeKeepsWindow(cfg, s, step.r);
    }
  }

  // ---------- every reachable state ----------

  ghost predicate Invariant(cfg: Config, s: Sys) {
    && DeadlinesBounded(cfg, s.keys)
    && ProbesBounded(s)
    && CounterExact(cfg, s)
    && ExpiryPending(s)
    && AllTripExactly(cfg, s)
    && WindowKept(cfg, s)
  }

  lemma StepKeepsInvariant(cfg: Config, s: Sys, step: Step)
    requires cfg.Valid() && Invariant(cfg, s) && Enabled(s, step)
    ensures Invariant(cfg, Apply(cfg, s, step))
  {
    StepBoundsDeadlines(cfg, s, step);
    StepBoundsProbes(cfg, s, step);
    StepCountsExactly(cfg, s, step);
    StepKeepsExpiryPending(cfg, s, step);
    forall gen: nat ensures TripsExactly(cfg, Apply(cfg, s, step), gen) {
      StepTripsExactly(cfg, s, step, gen);
    }
    StepKeepsWindow(cfg, s, step);
  }

  lemma {:induction false} RunKeepsInvariant(cfg: Config, s: Sys, steps: seq<Step>, t: Sys)
    requires cfg.Valid() && Invariant(cfg, s) && Runs(cfg, s, steps, t)
    ensures Invariant(cfg, t)
    decreases |steps|
  {
    if steps == [] {
    } else {
      StepKeepsInvariant(cfg, s, steps[0]);
      RunKeepsInvariant(cfg, Apply(cfg, s, steps[0]), steps[1..], t);
    }
  }

  lemma StartInvariant(cfg: Config, now: real)
    requires cfg.Valid()
    ensures Invariant(cfg, Start(now))
  {
    assert Probes(Start(now)) == {};
    forall gen: nat ensures TripsExactly(cfg, Start(now), gen) {
      assert CountedIn(Start(now).past, gen) == {};
    }
  }

  lemma ReachableInvariant(cfg: Config, s: Sys)
    requires cfg.Valid() && Reachable(cfg, s)
    ensures Invariant(cfg, s)
  {
    var now, steps :| Runs(cfg, Start(now), steps, s);
    StartInvariant(cfg, now);
    RunKeepsInvariant(cfg, Start(now), steps, s);
  }

  // ---------- main results ----------

  /** Probes overlap only as often as the lock expired under a live probe; without such an
      expiry at most one probe is in flight, and while it is, the lock is held. */
  lemma ProbeExclusion(cfg: Config, s: Sys)
    requires cfg.Valid() && Reachable(cfg, s)
    ensures |Probes(s)| <= 1 + s.past.underProbe <= 1 + s.past.lapses
    ensures s.past.underProbe == 0 ==>
              && (forall p, q :: p in Probes(s) && q in Probes(s) ==> p == q)
              && (Probes(s) != {} ==> s.keys.lock.Some?)
  {
    ReachableInvariant(cfg, s);
    if s.past.underProbe == 0 && Probes(s) != {} {
      forall p, q | p in Probes(s) && q in Probes(s) ensures p == q {
        assert q in Probes(s) - {p} || q == p;
        assert |Probes(s) - {p}| < 1;
      }
    }
  }

  /** Before an ordinary trip, at least threshold different requests failed upstream without
      probing and were counted in one generation of the counter; when no time passed between
      an INCR and its EXPIRE, all of them within one window. */
  lemma TripIsJustified(cfg: Config, s: Sys, r: nat)
    requires cfg.Valid() && Reachable(cfg, s) && r in s.pcs && s.pcs[r].Tripping?
    ensures r in CountedIn(s.past, s.pcs[r].gen)
    ensures |CountedIn(s.past, s.pcs[r].gen)| >= cfg.threshold
    ensures forall q :: q in CountedIn(s.past, s.pcs[r].gen) ==>
              q in s.pcs && q !in s.past.taken && CountedFailure(s.pcs[q])
    ensures s.past.prompt ==>
              forall p, q :: p in CountedIn(s.past, s.pcs[r].gen) && q in CountedIn(s.past, s.pcs[r].gen) ==>
                s.past.counted[p].at < s.past.counted[q].at + cfg.window as real
  {
    ReachableInvariant(cfg, s);
  }

  /** Trips are exactly the full generations: for every counter generation, alive, expired or
      deleted, the open key was written for it or a request is about to write it, if and only
      if at least threshold failures were counted in it. The counter that is alive shows
      exactly the failures of its generation. */
  lemma TripsAreExact(cfg: Config, s: Sys, gen: nat)
    requires cfg.Valid() && Reachable(cfg, s)
    ensures gen in s.past.tripped || SomeWillTrip(cfg, s, gen) <==> |CountedIn(s.past, gen)| >= cfg.threshold
    ensures s.keys.fails.Some? ==>
              |s.past.births| > 0 && Count(s.keys) == |CountedIn(s.past, |s.past.births| - 1)|
  {
    ReachableInvariant(cfg, s);
    assert TripsExactly(cfg, s, gen);
  }
}
