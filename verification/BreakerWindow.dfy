/** The failure window of the circuit breaker: exactly which failures open the circuit. */
module BreakerWindow {
  import opened Wrappers
  import opened BreakerKeys
  import opened BreakerProtocol
  import opened BreakerPhases
  import opened BreakerPlugin
  import opened BreakerSafety

  /** A request that starts wait seconds after the one before it ended, and whose call takes
      dt seconds and ends with o. */
  datatype Visit = Visit(wait: real, dt: real, o: Outcome)

  ghost predicate Timed(vs: seq<Visit>) {
    forall i :: 0 <= i < |vs| ==> vs[i].wait >= 0.0 && vs[i].dt > 0.0
  }

  /** The keys after the requests were served one after the other. */
  function Serve(cfg: Config, k: Keys, vs: seq<Visit>): Keys
    decreases |vs|
  {
    if vs == [] then k
    else Serve(cfg, CallKeys(cfg, Elapse(k, vs[0].wait), vs[0].o, vs[0].dt), vs[1..])
  }

  lemma {:induction false} RunBoundsDeadlines(cfg: Config, s: Sys, steps: seq<Step>, t: Sys)
    requires cfg.Valid() && DeadlinesBounded(cfg, s.keys) && Runs(cfg, s, steps, t)
    ensures DeadlinesBounded(cfg, t.keys)
    decreases |steps|
  {
    if steps == [] {
    } else {
      StepBoundsDeadlines(cfg, s, steps[0]);
      RunBoundsDeadlines(cfg, Apply(cfg, s, steps[0]), steps[1..], t);
    }
  }

  /** Waiting, as a run; waiting not at all is no step. */
  lemma WaitIsARun(cfg: Config, s: Sys, wait: real) returns (steps: seq<Step>, t: Sys)
    requires DeadlinesBounded(cfg, s.keys) && wait >= 0.0
    ensures Runs(cfg, s, steps, t) && t.keys == Elapse(s.keys, wait) && t.pcs == s.pcs
  {
    if wait == 0.0 {
      steps, t := [], s;
    } else {
      assert Runs(cfg, s, [], s);
      steps, t := Then(cfg, s, [], s, Pass(wait));
    }
  }

  lemma VisitIsARun(cfg: Config, s: Sys, v: Visit, r: nat) returns (steps: seq<Step>, t: Sys)
    requires cfg.Valid() && DeadlinesBounded(cfg, s.keys) && v.wait >= 0.0 && v.dt > 0.0 && r !in s.pcs
    ensures Runs(cfg, s, steps, t) && DeadlinesBounded(cfg, t.keys)
    ensures t.keys == CallKeys(cfg, Elapse(s.keys, v.wait), v.o, v.dt)
    ensures t.pcs == s.pcs[r := Finished(CallReply(cfg, Elapse(s.keys, v.wait), v.o))]
  {
    var waits, u := WaitIsARun(cfg, s, v.wait);
    RunBoundsDeadlines(cfg, s, waits, u);
    var calls;
    calls, t := CallIsARun(cfg, u, r, v.o, v.dt);
    RunsConcat(cfg, s, waits, u, calls, t);
    steps := waits + calls;
    RunBoundsDeadlines(cfg, s, steps, t);
  }

  /** From any state with bounded deadlines, so from any reachable one, serving the requests is a
      run of the transition system that leaves every other request where it was. */
  lemma {:induction false} ServeIsARun(cfg: Config, s: Sys, vs: seq<Visit>, n: nat)
    returns (steps: seq<Step>, t: Sys)
    requires cfg.Valid() && DeadlinesBounded(cfg, s.keys) && Timed(vs) && forall r :: r in s.pcs ==> r < n
    ensures Runs(cfg, s, steps, t) && t.keys == Serve(cfg, s.keys, vs)
    ensures forall r :: r in t.pcs ==> if r in s.pcs then t.pcs[r] == s.pcs[r] else t.pcs[r].Finished?
    decreases |vs|
  {
    if vs == [] {
      steps, t := [], s;
    } else {
      var first, u := VisitIsARun(cfg, s, vs[0], n);
      var more;
      more, t := ServeIsARun(cfg, u, vs[1..], n + 1);
      RunsConcat(cfg, s, first, u, more, t);
      steps := first + more;
    }
  }

  function Failures(vs: seq<Visit>): nat {
    if vs == [] then 0 else (if Failed(vs[0].o) then 1 else 0) + Failures(vs[1..])
  }

  /** When the last request ends, if every request was forwarded. */
  function EndTime(now: real, vs: seq<Visit>): real
    decreases |vs|
  {
    if vs == [] then now else EndTime(now + vs[0].wait + vs[0].dt, vs[1..])
  }

  /** When the first failure is counted. */
  function FirstFailure(now: real, vs: seq<Visit>): real
    requires Failures(vs) > 0
    decreases |vs|
  {
    var at := now + vs[0].wait + vs[0].dt;
    if Failed(vs[0].o) then at else FirstFailure(at, vs[1..])
  }

  lemma {:induction false} EndIsLater(now: real, vs: seq<Visit>)
    requires Timed(vs)
    ensures EndTime(now, vs) >= now
    decreases |vs|
  {
    if vs == [] {
    } else {
      EndIsLater(now + vs[0].wait + vs[0].dt, vs[1..]);
    }
  }

  lemma {:induction false} LastFailureCounts(vs: seq<Visit>)
    requires vs != [] && Failed(vs[|vs| - 1].o)
    ensures Failures(vs) > 0
    decreases |vs|
  {
    if |vs| == 1 {
    } else {
      LastFailureCounts(vs[1..]);
    }
  }

  /** One request below the threshold, with the counter it finds alive at its INCR or not. */
  lemma OneVisit(cfg: Config, k: Keys, v: Visit)
    requires cfg.Valid() && v.wait >= 0.0 && v.dt > 0.0
    requires k.open.None? && Count(k) < cfg.threshold
    requires k.fails.Some? ==> k.fails.value.count >= 1 && k.fails.value.deadline.Some?
    ensures var k' := CallKeys(cfg, Elapse(k, v.wait), v.o, v.dt);
            var alive := k.fails.Some? && k.now + v.wait + v.dt < k.fails.value.deadline.value;
            var failed := v.o.Raised? || v.o.status >= 500;
            var n := (if alive then k.fails.value.count else 0) + (if failed then 1 else 0);
            && k'.now == k.now + v.wait + v.dt
            && (k'.open.Some? <==> failed && n >= cfg.threshold)
            && k'.fails == if n == 0 then None
                           else if alive then Some(Counter(n, k.fails.value.deadline))
                           else Some(Counter(n, Some(k'.now + cfg.window as real)))
  {
  }

  /** Too few failures never open the circuit, whatever the window does. */
  lemma {:induction false} TooFewNeverTrip(cfg: Config, k: Keys, vs: seq<Visit>)
    requires cfg.Valid() && Timed(vs) && k.open.None? && Count(k) + Failures(vs) < cfg.threshold
    requires k.fails.Some? ==> k.fails.value.count >= 1 && k.fails.value.deadline.Some?
    ensures Serve(cfg, k, vs).open.None? && Serve(cfg, k, vs).now == EndTime(k.now, vs)
    decreases |vs|
  {
    if vs == [] {
    } else {
      OneVisit(cfg, k, vs[0]);
      TooFewNeverTrip(cfg, CallKeys(cfg, Elapse(k, vs[0].wait), vs[0].o, vs[0].dt), vs[1..]);
    }
  }

  /** With a counter present: the missing failures open the circuit exactly if the last of
      them is counted before the deadline of that counter. */
  lemma {:induction false} TripsBeforeDeadline(cfg: Config, k: Keys, vs: seq<Visit>, c: nat, d: real)
    requires cfg.Valid() && Timed(vs) && k.open.None?
    requires k.fails == Some(Counter(c, Some(d))) && 1 <= c && k.now < d
    requires c + Failures(vs) == cfg.threshold
    requires vs != [] && Failed(vs[|vs| - 1].o)
    ensures Serve(cfg, k, vs).now == EndTime(k.now, vs)
    ensures Serve(cfg, k, vs).open.Some? <==> EndTime(k.now, vs) < d
    decreases |vs|
  {
    var v, rest := vs[0], vs[1..];
    if rest != [] {
      LastFailureCounts(rest);
    }
    var k' := CallKeys(cfg, Elapse(k, v.wait), v.o, v.dt);
    OneVisit(cfg, k, v);
    assert rest != [] ==> rest[|rest| - 1] == vs[|vs| - 1];
    if k'.now >= d {
      TooFewNeverTrip(cfg, k', rest);
      EndIsLater(k'.now, rest);
    } else if rest == [] {
    } else {
      TripsBeforeDeadline(cfg, k', rest, if Failed(v.o) then c + 1 else c, d);
    }
  }

  /** The deadline that decides: that of the counter that is present, or else one window after
      the first failure. */
  function DecidingDeadline(cfg: Config, k: Keys, vs: seq<Visit>): real
    requires Failures(vs) > 0
    requires k.fails.Some? ==> k.fails.value.deadline.Some?
  {
    if k.fails.Some? then k.fails.value.deadline.value
    else FirstFailure(k.now, vs) + cfg.window as real
  }

  /** The window is fixed, not sliding. From a closed circuit with c failures counted, exactly
      threshold - c further failures, with any successes between them, open it if and only if
      the last of them is counted before the deadline of the present counter, or, when there
      is none, within one window of the first. Calls are served one at a time. */
  lemma {:induction false} TripsIffWithinTheWindow(cfg: Config, k: Keys, vs: seq<Visit>)
    requires cfg.Valid() && Timed(vs) && k.open.None? && Count(k) < cfg.threshold
    requires k.fails.Some? ==>
               k.fails.value.count >= 1 && k.fails.value.deadline.Some? && k.now < k.fails.value.deadline.value
    requires Count(k) + Failures(vs) == cfg.threshold
    requires vs != [] && Failed(vs[|vs| - 1].o)
    ensures Failures(vs) > 0
    ensures Serve(cfg, k, vs).open.Some? <==> EndTime(k.now, vs) < DecidingDeadline(cfg, k, vs)
    decreases |vs|
  {
    if k.fails.Some? {
      TripsBeforeDeadline(cfg, k, vs, k.fails.value.count, k.fails.value.deadline.value);
    } else {
      var v, rest := vs[0], vs[1..];
      var k' := CallKeys(cfg, Elapse(k, v.wait), v.o, v.dt);
      OneVisit(cfg, k, v);
      assert rest != [] ==> rest[|rest| - 1] == vs[|vs| - 1];
      if rest != [] {
        LastFailureCounts(rest);
      }
      if !Failed(v.o) {
        TripsIffWithinTheWindow(cfg, k', rest);
      } else if rest != [] {
        TripsBeforeDeadline(cfg, k', rest, 1, k'.now + cfg.window as real);
      }
    }
  }

  lemma {:induction false} AllFail(vs: seq<Visit>)
    requires forall i :: 0 <= i < |vs| ==> vs[i].o.Raised? || vs[i].o.status >= 500
    ensures Failures(vs) == |vs|
    ensures vs != [] ==> Failed(vs[|vs| - 1].o)
    decreases |vs|
  {
    if vs == [] {
    } else {
      AllFail(vs[1..]);
    }
  }

  /** Which answers open a circuit without keys: threshold of them in a row with status 500 or
      above do, exactly if the last comes less than one window after the first. */
  lemma ServerErrorsTrip(cfg: Config, now: real, vs: seq<Visit>)
    requires cfg.Valid() && Timed(vs) && |vs| == cfg.threshold
    requires forall i :: 0 <= i < |vs| ==> vs[i].o.Response? && vs[i].o.status >= 500
    ensures Serve(cfg, NoKeys(now), vs).open.Some?
            <==> EndTime(now, vs) < now + vs[0].wait + vs[0].dt + cfg.window as real
  {
    AllFail(vs);
    TripsIffWithinTheWindow(cfg, NoKeys(now), vs);
  }

  /** And no number of answers below 500 leaves any key. */
  lemma {:induction false} OtherAnswersLeaveNothing(cfg: Config, now: real, vs: seq<Visit>)
    requires cfg.Valid() && Timed(vs)
    requires forall i :: 0 <= i < |vs| ==> vs[i].o.Response? && vs[i].o.status < 500
    ensures Serve(cfg, NoKeys(now), vs) == NoKeys(EndTime(now, vs))
    decreases |vs|
  {
    if vs == [] {
    } else {
      OtherAnswersLeaveNothing(cfg, now + vs[0].wait + vs[0].dt, vs[1..]);
    }
  }

  function FourFailures(): seq<Visit> {
    [Visit(0.0, 1.0, Raised), Visit(8.0, 1.0, Raised), Visit(1.0, 1.0, Raised), Visit(0.0, 1.0, Raised)]
  }

  lemma FourFailuresServed(cfg: Config)
    requires cfg.Valid() && cfg.threshold == 3 && cfg.window == 10
    ensures var vs := FourFailures();
            && Serve(cfg, NoKeys(-1.0), vs[..2]).now == 9.0 && Serve(cfg, NoKeys(-1.0), vs[..3]).now == 11.0
            && Serve(cfg, NoKeys(-1.0), vs) == Keys(12.0, None, Some(Counter(2, Some(21.0))), None)
  {
    var vs := FourFailures();
    var a, b, c, d := vs[0], vs[1], vs[2], vs[3];
    assert vs[..2] == [a, b] && vs[..3] == [a, b, c];
    assert vs[1..] == [b, c, d] && [b, c, d][1..] == [c, d] && [c, d][1..] == [d] && [d][1..] == [];
    assert [a, b][1..] == [b] && [b][1..] == [] && [a, b, c][1..] == [b, c] && [b, c][1..] == [c] && [c][1..] == [];
    var k1 := Keys(0.0, None, Some(Counter(1, Some(10.0))), None);
    var k2 := Keys(9.0, None, Some(Counter(2, Some(10.0))), None);
    var k3 := Keys(11.0, None, Some(Counter(1, Some(21.0))), None);
    var k4 := Keys(12.0, None, Some(Counter(2, Some(21.0))), None);
    assert CallKeys(cfg, Elapse(NoKeys(-1.0), 0.0), Raised, 1.0) == k1;
    assert CallKeys(cfg, Elapse(k1, 8.0), Raised, 1.0) == k2;
    assert CallKeys(cfg, Elapse(k2, 1.0), Raised, 1.0) == k3;
    assert CallKeys(cfg, Elapse(k3, 0.0), Raised, 1.0) == k4;
    assert Serve(cfg, k2, []) == k2 && Serve(cfg, k3, []) == k3 && Serve(cfg, k4, []) == k4;
    assert Serve(cfg, k1, [b]) == k2 && Serve(cfg, k2, [c]) == k3 && Serve(cfg, k3, [d]) == k4;
    assert Serve(cfg, k1, [b, c]) == k3 && Serve(cfg, k2, [c, d]) == k4;
    assert Serve(cfg, k1, [b, c, d]) == k4;
  }

  /** The run that a sliding window would treat differently: with threshold 3 and window 10,
      the failures at times 9, 11 and 12 lie within three seconds, but the window that the
      failure at time 0 began ends between them, and the circuit stays closed. */
  lemma WindowIsNotSliding(cfg: Config) returns (s: Sys)
    requires cfg.Valid() && cfg.threshold == 3 && cfg.window == 10
    ensures Reachable(cfg, s) && forall r :: r in s.pcs ==> s.pcs[r].Finished?
    ensures var vs := FourFailures();
            && (forall i :: 0 <= i < |vs| ==> vs[i].o.Raised?)
            && Serve(cfg, NoKeys(-1.0), vs[..2]).now == 9.0
            && Serve(cfg, NoKeys(-1.0), vs[..3]).now == 11.0
            && s.keys == Serve(cfg, NoKeys(-1.0), vs) && s.keys.now == 12.0
            && PhaseOf(cfg, s.keys) == Closed && Count(s.keys) == 2
  {
    var steps;
    steps, s := ServeIsARun(cfg, Start(-1.0), FourFailures(), 0);
    FourFailuresServed(cfg);
  }
}
