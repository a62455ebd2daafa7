/** Which failures share a counter, in every interleaving: a generation of the counter that no
    successful probe deletes lives for at least one window, so the failures counted in that
    time are its own and trip the circuit if they are enough. */
module BreakerGenerations {
  import opened Wrappers
  import opened BreakerKeys
  import opened BreakerProtocol
  import opened BreakerSafety

  /** One window from the creation of generation g. */
  function WindowEnd(cfg: Config, births: seq<real>, g: nat): real
    requires g < |births|
  {
    births[g] + cfg.window as real
  }

  /** The present counter, unless a probe deletes it, lasts to the end of its window. */
  ghost predicate LastLives(cfg: Config, k: Keys, h: History) {
    |h.births| > 0 ==>
      var last := |h.births| - 1;
      if k.fails.Some? then
        && last !in h.cleared
        && (k.fails.value.deadline.Some? ==> k.fails.value.deadline.value >= WindowEnd(cfg, h.births, last))
      else last in h.cleared || k.now >= WindowEnd(cfg, h.births, last)
  }

  /** The next generation begins after that. */
  ghost predicate LivesAWindow(cfg: Config, h: History, g: nat)
    requires g + 1 < |h.births|
  {
    g in h.cleared || h.births[g + 1] >= WindowEnd(cfg, h.births, g)
  }

  /** A failure is counted while its generation is the present one. */
  ghost predicate RecordInTime(births: seq<real>, now: real, e: Record) {
    && e.gen < |births| && births[e.gen] <= e.at <= now
    && (e.gen + 1 < |births| ==> e.at <= births[e.gen + 1])
  }

  ghost predicate Generations(cfg: Config, k: Keys, h: History) {
    && LastLives(cfg, k, h)
    && (forall g: nat :: g + 1 < |h.births| ==> LivesAWindow(cfg, h, g))
    && (forall g :: g in h.cleared ==> g < |h.births|)
    && (forall r :: r in h.counted ==> RecordInTime(h.births, k.now, h.counted[r]))
  }

  lemma CommandKeepsLastLiving(cfg: Config, k: Keys, h: History, r: nat, pc: Pc)
    requires cfg.Valid() && BornBy(h.births, k.now) && Generations(cfg, k, h)
    requires k.fails.Some? ==> |h.births| > 0
    ensures LastLives(cfg, Command(cfg, k, pc), Note(k, h, r, pc))
  {
    if pc.Counting? && k.fails.None? {
      assert |h.births| !in h.cleared;
    }
  }

  lemma NoteKeepsGenerations(cfg: Config, k: Keys, h: History, r: nat, pc: Pc)
    requires cfg.Valid() && BornBy(h.births, k.now) && Generations(cfg, k, h)
    requires k.fails.Some? ==> |h.births| > 0
    ensures var h' := Note(k, h, r, pc);
            forall g: nat :: g + 1 < |h'.births| ==> LivesAWindow(cfg, h', g)
  {
    var h' := Note(k, h, r, pc);
    forall g: nat | g + 1 < |h'.births| ensures LivesAWindow(cfg, h', g) {
      if g + 1 < |h.births| {
        assert LivesAWindow(cfg, h, g);
      }
    }
  }

  lemma NoteKeepsRecords(cfg: Config, k: Keys, h: History, r: nat, pc: Pc)
    requires BornBy(h.births, k.now) && (k.fails.Some? ==> |h.births| > 0)
    requires forall q :: q in h.counted ==> RecordInTime(h.births, k.now, h.counted[q])
    ensures var h' := Note(k, h, r, pc);
            forall q :: q in h'.counted ==> RecordInTime(h'.births, k.now, h'.counted[q])
  {
    var h' := Note(k, h, r, pc);
    forall q | q in h'.counted ensures RecordInTime(h'.births, k.now, h'.counted[q]) {
      if q in h.counted {
        assert RecordInTime(h.births, k.now, h.counted[q]);
      }
    }
  }

  lemma NoteKeepsCleared(k: Keys, h: History, r: nat, pc: Pc)
    requires k.fails.Some? ==> |h.births| > 0
    requires forall g :: g in h.cleared ==> g < |h.births|
    ensures forall g :: g in Note(k, h, r, pc).cleared ==> g < |Note(k, h, r, pc).births|
  {
  }

  lemma CommandKeepsTime(cfg: Config, k: Keys, pc: Pc)
    ensures Command(cfg, k, pc).now == k.now
  {
  }

  lemma CommandKeepsGenerations(cfg: Config, k: Keys, h: History, r: nat, pc: Pc)
    requires cfg.Valid() && BornBy(h.births, k.now) && Generations(cfg, k, h)
    requires k.fails.Some? ==> |h.births| > 0
    ensures Generations(cfg, Command(cfg, k, pc), Note(k, h, r, pc))
  {
    CommandKeepsLastLiving(cfg, k, h, r, pc);
    NoteKeepsGenerations(cfg, k, h, r, pc);
    NoteKeepsCleared(k, h, r, pc);
    NoteKeepsRecords(cfg, k, h, r, pc);
    CommandKeepsTime(cfg, k, pc);
  }

  lemma PassKeepsGenerations(cfg: Config, s: Sys, dt: real)
    requires Generations(cfg, s.keys, s.past) && dt > 0.0
    ensures Generations(cfg, PassTime(s, dt).keys, PassTime(s, dt).past)
  {
    var t := PassTime(s, dt);
    forall g: nat | g + 1 < |t.past.births| ensures LivesAWindow(cfg, t.past, g) {
      assert LivesAWindow(cfg, s.past, g);
    }
    forall r | r in t.past.counted ensures RecordInTime(t.past.births, t.keys.now, t.past.counted[r]) {
      assert RecordInTime(s.past.births, s.keys.now, s.past.counted[r]);
    }
  }

  lemma {:induction false} RunKeepsGenerations(cfg: Config, s: Sys, steps: seq<Step>, t: Sys)
    requires cfg.Valid() && Invariant(cfg, s) && Generations(cfg, s.keys, s.past) && Runs(cfg, s, steps, t)
    ensures Generations(cfg, t.keys, t.past)
    decreases |steps|
  {
    if steps == [] {
    } else {
      match steps[0] {
        case Advance(r) => CommandKeepsGenerations(cfg, s.keys, s.past, r, s.pcs[r]);
        case Pass(dt) => PassKeepsGenerations(cfg, s, dt);
        case _ =>
      }
      StepKeepsInvariant(cfg, s, steps[0]);
      RunKeepsGenerations(cfg, Apply(cfg, s, steps[0]), steps[1..], t);
    }
  }

  lemma ReachableGenerations(cfg: Config, s: Sys)
    requires cfg.Valid() && Reachable(cfg, s)
    ensures Invariant(cfg, s) && Generations(cfg, s.keys, s.past)
  {
    var now, steps :| Runs(cfg, Start(now), steps, s);
    StartInvariant(cfg, now);
    RunKeepsGenerations(cfg, Start(now), steps, s);
    ReachableInvariant(cfg, s);
  }

  // ---------- main results ----------

  /** The failures counted since generation g began and before one window passed. */
  function InWindow(cfg: Config, h: History, g: nat): set<nat>
    requires g < |h.births|
  {
    set r | r in h.counted && h.counted[r].gen >= g && h.counted[r].at < WindowEnd(cfg, h.births, g)
  }

  lemma LaterIsAfterTheWindow(cfg: Config, s: Sys, g: nat, r: nat)
    requires Invariant(cfg, s) && Generations(cfg, s.keys, s.past)
    requires g < |s.past.births| && g !in s.past.cleared && r in s.past.counted
    ensures s.past.counted[r].gen > g ==> s.past.counted[r].at >= WindowEnd(cfg, s.past.births, g)
    ensures s.past.counted[r].gen < g ==> s.past.counted[r].at <= s.past.births[g]
  {
    var e := s.past.counted[r];
    assert RecordInTime(s.past.births, s.keys.now, e);
    if e.gen > g {
      assert LivesAWindow(cfg, s.past, g);
      assert s.past.births[g + 1] <= s.past.births[e.gen];
    } else if e.gen < g {
      assert s.past.births[e.gen + 1] <= s.past.births[g];
    }
  }

  /** In every interleaving, the failures counted while the window of a generation lasts belong
      to it, unless a successful probe deleted it; when no time passes between an INCR and its
      EXPIRE, no others do. */
  lemma WindowIsTheGeneration(cfg: Config, s: Sys, g: nat)
    requires cfg.Valid() && Reachable(cfg, s) && g < |s.past.births| && g !in s.past.cleared
    ensures InWindow(cfg, s.past, g) <= CountedIn(s.past, g)
    ensures s.past.prompt ==> InWindow(cfg, s.past, g) == CountedIn(s.past, g)
    ensures forall r :: r in s.past.counted && s.past.births[g] < s.past.counted[r].at < WindowEnd(cfg, s.past.births, g)
              ==> s.past.counted[r].gen == g
  {
    ReachableGenerations(cfg, s);
    forall r | r in s.past.counted
      ensures s.past.counted[r].gen > g ==> s.past.counted[r].at >= WindowEnd(cfg, s.past.births, g)
      ensures s.past.counted[r].gen < g ==> s.past.counted[r].at <= s.past.births[g]
      ensures s.past.prompt && s.past.counted[r].gen == g ==> s.past.counted[r].at < WindowEnd(cfg, s.past.births, g)
    {
      LaterIsAfterTheWindow(cfg, s, g, r);
    }
  }

  lemma Fewer(xs: set<nat>, ys: set<nat>)
    requires xs <= ys
    ensures |xs| <= |ys|
  {
    assert ys == xs + (ys - xs);
  }

  /** The window over all interleavings: threshold failures counted in one window, with no
      successful probe in between, open the circuit; and with prompt EXPIREs nothing else opens
      it, so a generation trips or is about to if and only if its window holds that many. */
  lemma TripsIffTheWindowFills(cfg: Config, s: Sys, g: nat)
    requires cfg.Valid() && Reachable(cfg, s) && g < |s.past.births| && g !in s.past.cleared
    ensures |InWindow(cfg, s.past, g)| >= cfg.threshold ==> g in s.past.tripped || SomeWillTrip(cfg, s, g)
    ensures s.past.prompt ==>
              (g in s.past.tripped || SomeWillTrip(cfg, s, g) <==> |InWindow(cfg, s.past, g)| >= cfg.threshold)
  {
    WindowIsTheGeneration(cfg, s, g);
    Fewer(InWindow(cfg, s.past, g), CountedIn(s.past, g));
    TripsAreExact(cfg, s, g);
  }
}
