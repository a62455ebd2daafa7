/** The circuit breaker as a transition system: any number of requests, run by any
    number of gateways, interleave their Redis commands on one route's keys.
    Every await of the plugin is one control point. A request that is cancelled or whose
    gateway dies is a request that takes no further step. */
module BreakerProtocol {
  import opened Wrappers
  import opened BreakerKeys

  /** What the rest of the chain did: returned a response or raised an exception. */
  datatype Outcome = Response(status: int) | Raised

  predicate Failed(o: Outcome) {
    o.Raised? || o.status >= 500
  }

  /** How a request leaves the plugin. */
  datatype Reply =
    | CircuitOpen(retryAfter: int)
    | Recovering
    | Forwarded(outcome: Outcome)

  /** The command a request sends next. */
  datatype Pc =
    | Checking                            // EXISTS open
    | ReadingTtl                          // TTL open
    | ReadingFails                        // GET fails
    | Locking                             // SET lock NX EX 10
    | Calling(probe: bool)                // inside the rest of the chain
    | Counting(o: Outcome)                // INCR fails
    | Expiring(o: Outcome, gen: nat)      // EXPIRE fails, after INCR returned 1
    | Tripping(o: Outcome, gen: nat)      // SET open, after INCR reached the threshold
    | Clearing(o: Outcome)                // DEL fails, after a successful probe
    | Reopening(o: Outcome)               // SET open, after a failed probe
    | Unlocking(o: Outcome)               // DEL lock
    | Finished(reply: Reply)

  /** One counted failure: the counter generation and the time of its INCR. */
  datatype Record = Record(gen: nat, at: real)

  /** What happened so far; no step reads it. */
  datatype History = History(
    births: seq<real>,          // creation time of each counter generation
    counted: map<nat, Record>,  // the requests whose failure was counted
    taken: map<nat, real>,      // when each request that ever took the probe lock took it
    tripped: set<nat>,          // the generations that wrote the open key
    cleared: set<nat>,          // the generations that a successful probe deleted
    lapses: nat,                // how often the probe lock expired
    underProbe: nat,            // how often it expired while a probe was in flight
    prompt: bool)               // no time passed between any INCR and its EXPIRE

  /** The shared keys, the control point of every request, and the history. */
  datatype Sys = Sys(keys: Keys, pcs: map<nat, Pc>, past: History)

  datatype Step =
    | Arrive(r: nat)
    | Advance(r: nat)
    | Return(r: nat, o: Outcome)
    | Pass(dt: real)

  function Start(now: real): Sys {
    Sys(NoKeys(now), map[], History([], map[], map[], {}, {}, 0, 0, true))
  }

  predicate IsProbing(pc: Pc) {
    pc == Calling(true) || pc.Clearing? || pc.Reopening? || pc.Unlocking?
  }

  /** The probes in flight: from taking the lock to deleting it. */
  function Probes(s: Sys): set<nat> {
    set r | r in s.pcs && IsProbing(s.pcs[r])
  }

  ghost predicate Enabled(s: Sys, step: Step) {
    match step
    case Arrive(r) => r !in s.pcs
    case Advance(r) => r in s.pcs && !s.pcs[r].Calling? && !s.pcs[r].Finished?
    case Return(r, _) => r in s.pcs && s.pcs[r].Calling?
    case Pass(dt) => dt > 0.0
  }

  /** The command a request sends at pc. */
  function Command(cfg: Config, k: Keys, pc: Pc): Keys {
    match pc
    case Locking => TakeLock(k)
    case Counting(_) => Incr(k)
    case Expiring(_, _) => ExpireFails(k, cfg.window)
    case Tripping(_, _) => SetOpen(k, cfg.Recovery())
    case Clearing(_) => DeleteFails(k)
    case Reopening(_) => SetOpen(k, cfg.Recovery())
    case Unlocking(_) => DeleteLock(k)
    case _ => k
  }

  /** Where a request goes with the answer to the command it sends at pc; gen is the
      generation of the counter after the command. */
  function NextPc(cfg: Config, k: Keys, pc: Pc, gen: nat): Pc {
    match pc
    case Checking => if k.open.Some? then ReadingTtl else ReadingFails
    case ReadingTtl => Finished(CircuitOpen(if OpenTtl(k) > 1 then OpenTtl(k) else 1))
    case ReadingFails => if Count(k) >= cfg.threshold then Locking else Calling(false)
    case Locking => if k.lock.None? then Calling(true) else Finished(Recovering)
    case Counting(o) =>
      if Count(k) + 1 == 1 then Expiring(o, gen)
      else if Count(k) + 1 >= cfg.threshold then Tripping(o, gen)
      else Finished(Forwarded(o))
    case Expiring(o, g) => if 1 >= cfg.threshold then Tripping(o, g) else Finished(Forwarded(o))
    case Tripping(o, _) => Finished(Forwarded(o))
    case Clearing(o) => Unlocking(o)
    case Reopening(o) => Unlocking(o)
    case Unlocking(o) => Finished(Forwarded(o))
    case _ => pc
  }

  /** The generation of the present counter, or of the next one when there is none. */
  function Generation(births: seq<real>): nat {
    if births == [] then 0 else |births| - 1
  }

  function BirthsAfter(k: Keys, births: seq<real>, pc: Pc): seq<real> {
    if pc.Counting? && k.fails.None? then births + [k.now] else births
  }

  function Note(k: Keys, h: History, r: nat, pc: Pc): History {
    match pc
    case Locking => if k.lock.None? then h.(taken := h.taken[r := k.now]) else h
    case Counting(_) =>
      var births := BirthsAfter(k, h.births, pc);
      h.(births := births, counted := h.counted[r := Record(Generation(births), k.now)])
    case Tripping(_, gen) => h.(tripped := h.tripped + {gen})
    case Clearing(_) => if k.fails.Some? then h.(cleared := h.cleared + {Generation(h.births)}) else h
    case _ => h
  }

  function Resume(cfg: Config, s: Sys, r: nat): Sys
    requires r in s.pcs
  {
    var pc := s.pcs[r];
    var past := Note(s.keys, s.past, r, pc);
    Sys(Command(cfg, s.keys, pc),
        s.pcs[r := NextPc(cfg, s.keys, pc, Generation(past.births))],
        past)
  }

  function AfterCall(probe: bool, o: Outcome): Pc {
    if Failed(o) then (if probe then Reopening(o) else Counting(o))
    else if probe then Clearing(o)
    else Finished(Forwarded(o))
  }

  ghost predicate SomeExpiring(s: Sys) {
    exists r :: r in s.pcs && s.pcs[r].Expiring?
  }

  ghost function PassTime(s: Sys, dt: real): Sys {
    var keys := Elapse(s.keys, dt);
    var lapsed := s.keys.lock.Some? && keys.lock.None?;
    Sys(keys,
        s.pcs,
        s.past.(
          lapses := if lapsed then s.past.lapses + 1 else s.past.lapses,
          underProbe := if lapsed && Probes(s) != {} then s.past.underProbe + 1 else s.past.underProbe,
          prompt := s.past.prompt && !SomeExpiring(s)))
  }

  ghost function Apply(cfg: Config, s: Sys, step: Step): Sys
    requires Enabled(s, step)
  {
    match step
    case Arrive(r) => s.(pcs := s.pcs[r := Checking])
    case Advance(r) => Resume(cfg, s, r)
    case Return(r, o) => s.(pcs := s.pcs[r := AfterCall(s.pcs[r].probe, o)])
    case Pass(dt) => PassTime(s, dt)
  }

  /** The steps lead from s to t. */
  ghost predicate Runs(cfg: Config, s: Sys, steps: seq<Step>, t: Sys)
    decreases |steps|
  {
    if steps == [] then s == t
    else Enabled(s, steps[0]) && Runs(cfg, Apply(cfg, s, steps[0]), steps[1..], t)
  }

  ghost predicate Reachable(cfg: Config, s: Sys) {
    exists now, steps :: Runs(cfg, Start(now), steps, s)
  }

  lemma {:induction false} RunsExtend(cfg: Config, s: Sys, steps: seq<Step>, t: Sys, step: Step)
    requires Runs(cfg, s, steps, t) && Enabled(t, step)
    ensures Runs(cfg, s, steps + [step], Apply(cfg, t, step))
    decreases |steps|
  {
    if steps == [] {
      assert [step][1..] == [];
    } else {
      RunsExtend(cfg, Apply(cfg, s, steps[0]), steps[1..], t, step);
      assert (steps + [step])[1..] == steps[1..] + [step];
    }
  }

  lemma ReachableStep(cfg: Config, s: Sys, step: Step)
    requires Reachable(cfg, s) && Enabled(s, step)
    ensures Reachable(cfg, Apply(cfg, s, step))
  {
    var now, steps :| Runs(cfg, Start(now), steps, s);
    RunsExtend(cfg, Start(now), steps, s, step);
  }
}
