/** The circuit breaker plugin as the gateway runs it: methods that step through the Redis
    keys. A call that no other request interrupts is a run of the transition system. */
module BreakerPlugin {
  import opened Wrappers
  import opened BreakerKeys
  import opened BreakerProtocol
  import opened BreakerPhases
  import opened BreakerSafety

  /** The Redis client, reduced to the keys of one route. */
  class RedisKeys {
    var now: real
    var open: Option<real>
    var fails: Option<Counter>
    var lock: Option<real>

    function View(): Keys
      reads this
    {
      Keys(now, open, fails, lock)
    }

    constructor (now: real)
      ensures View() == NoKeys(now)
    {
      this.now, open, fails, lock := now, None, None, None;
    }

    /** The time a command or the upstream call takes. */
    method Wait(dt: real)
      modifies this
      ensures View() == Elapse(old(View()), dt)
    {
      now := now + dt;
      if Dead(open, now) { open := None; }
      if fails.Some? && Dead(fails.value.deadline, now) { fails := None; }
      if Dead(lock, now) { lock := None; }
    }

    method SetOpenKey(seconds: int)
      modifies this`open
      ensures View() == SetOpen(old(View()), seconds)
    {
      open := Some(now + seconds as real);
    }

    method SetLockIfAbsent() returns (acquired: bool)
      modifies this`lock
      ensures acquired == old(lock).None?
      ensures View() == TakeLock(old(View()))
    {
      acquired := lock.None?;
      if acquired { lock := Some(now + LOCK_SECONDS as real); }
    }

    method IncrementFails() returns (n: nat)
      modifies this`fails
      ensures View() == Incr(old(View())) && n == Count(View())
    {
      fails := Some(if fails.None? then Counter(1, None)
                    else Counter(fails.value.count + 1, fails.value.deadline));
      n := fails.value.count;
    }

    method ExpireFailsKey(seconds: int)
      modifies this`fails
      ensures View() == ExpireFails(old(View()), seconds)
    {
      if fails.Some? {
        fails := Some(Counter(fails.value.count, Some(now + seconds as real)));
      }
    }

    method DeleteFailsKey()
      modifies this`fails
      ensures View() == DeleteFails(old(View()))
    {
      fails := None;
    }

    method DeleteLockKey()
      modifies this`lock
      ensures View() == DeleteLock(old(View()))
    {
      lock := None;
    }
  }

  // ---------- what one uninterrupted call does to the keys ----------

  function RecordedKeys(cfg: Config, k: Keys): Keys {
    var counted := Incr(k);
    var expiring := if Count(counted) == 1 then ExpireFails(counted, cfg.window) else counted;
    if Count(counted) >= cfg.threshold then SetOpen(expiring, cfg.Recovery()) else expiring
  }

  function FailedKeys(cfg: Config, k: Keys, probe: bool): Keys {
    if probe then DeleteLock(SetOpen(k, cfg.Recovery())) else RecordedKeys(cfg, k)
  }

  function SettledKeys(cfg: Config, k: Keys, probe: bool, o: Outcome): Keys {
    if Failed(o) then FailedKeys(cfg, k, probe)
    else if probe then DeleteLock(DeleteFails(k))
    else k
  }

  function CallKeys(cfg: Config, k: Keys, o: Outcome, dt: real): Keys {
    if k.open.Some? then k
    else if Count(k) < cfg.threshold then SettledKeys(cfg, Elapse(k, dt), false, o)
    else if k.lock.None? then SettledKeys(cfg, Elapse(TakeLock(k), dt), true, o)
    else k
  }

  function CallReply(cfg: Config, k: Keys, o: Outcome): Reply {
    if k.open.Some? then CircuitOpen(if OpenTtl(k) > 1 then OpenTtl(k) else 1)
    else if Count(k) >= cfg.threshold && k.lock.Some? then Recovering
    else Forwarded(o)
  }

  class CircuitBreakerPlugin {
    const cfg: Config
    const redis: RedisKeys

    constructor (cfg: Config, redis: RedisKeys)
      ensures this.cfg == cfg && this.redis == redis
    {
      this.cfg, this.redis := cfg, redis;
    }

    method RecordFailure()
      modifies redis
      ensures redis.View() == RecordedKeys(cfg, old(redis.View()))
    {
      var currentFails := redis.IncrementFails();
      if currentFails == 1 {
        redis.ExpireFailsKey(cfg.window);
      }
      if currentFails >= cfg.threshold {
        redis.SetOpenKey(cfg.Recovery());
      }
    }

    method HandleFailure(isProbing: bool)
      modifies redis
      ensures redis.View() == FailedKeys(cfg, old(redis.View()), isProbing)
    {
      if isProbing {
        redis.SetOpenKey(cfg.Recovery());
        redis.DeleteLockKey();
      } else {
        RecordFailure();
      }
    }

    /** The rest of the chain takes time dt and ends with outcome o. */
    method Call(o: Outcome, dt: real) returns (reply: Reply)
      modifies redis
      ensures redis.View() == CallKeys(cfg, old(redis.View()), o, dt)
      ensures reply == CallReply(cfg, old(redis.View()), o)
    {
      if redis.open.Some? {
        var ttl := OpenTtl(redis.View());
        return CircuitOpen(if ttl > 1 then ttl else 1);
      }
      var currentFails := if redis.fails.Some? then redis.fails.value.count else 0;
      var isProbing := false;
      if currentFails >= cfg.threshold {
        var acquired := redis.SetLockIfAbsent();
        if !acquired {
          return Recovering;
        }
        isProbing := true;
      }
      redis.Wait(dt);
      if Failed(o) {
        HandleFailure(isProbing);
      } else if isProbing {
        redis.DeleteFailsKey();
        redis.DeleteLockKey();
      }
      reply := Forwarded(o);
    }
  }

  // ---------- the call is a run of the transition system ----------

  lemma {:induction false} RunsConcat(cfg: Config, s: Sys, xs: seq<Step>, t: Sys, ys: seq<Step>, u: Sys)
    requires Runs(cfg, s, xs, t) && Runs(cfg, t, ys, u)
    ensures Runs(cfg, s, xs + ys, u)
    decreases |xs|
  {
    if xs == [] {
      assert xs + ys == ys;
    } else {
      RunsConcat(cfg, Apply(cfg, s, xs[0]), xs[1..], t, ys, u);
      assert (xs + ys)[1..] == xs[1..] + ys;
    }
  }

  /** Let request r run alone until it leaves the plugin. */
  lemma FinishAlone(cfg: Config, s: Sys, r: nat) returns (steps: seq<Step>, t: Sys)
    requires DeadlinesBounded(cfg, s.keys) && r in s.pcs
    requires s.pcs[r].Counting? || s.pcs[r].Clearing? || s.pcs[r].Reopening?
    ensures Runs(cfg, s, steps, t)
    ensures t.pcs == s.pcs[r := Finished(Forwarded(s.pcs[r].o))]
    ensures t.keys == match s.pcs[r]
                      case Counting(_) => RecordedKeys(cfg, s.keys)
                      case Clearing(_) => DeleteLock(DeleteFails(s.keys))
                      case _ => DeleteLock(SetOpen(s.keys, cfg.Recovery()))
  {
    steps, t := [], s;
    while !t.pcs[r].Finished?
      invariant Runs(cfg, s, steps, t) && r in t.pcs
      invariant t.pcs == s.pcs[r := t.pcs[r]]
      invariant match t.pcs[r]
                case Finished(reply) => reply == Forwarded(s.pcs[r].o)
                case Calling(_) => false
                case Counting(o) => t == s
                case Clearing(o) => t == s
                case Reopening(o) => t == s
                case Expiring(o, _) => s.pcs[r] == Counting(o) && Count(s.keys) == 0 && t.keys == Incr(s.keys)
                case Tripping(o, _) =>
                  s.pcs[r] == Counting(o) && Count(s.keys) + 1 >= cfg.threshold &&
                  t.keys == if Count(s.keys) == 0 then ExpireFails(Incr(s.keys), cfg.window) else Incr(s.keys)
                case Unlocking(o) =>
                  s.pcs[r].o == o &&
                  ((s.pcs[r].Clearing? && t.keys == DeleteFails(s.keys)) ||
                   (s.pcs[r].Reopening? && t.keys == SetOpen(s.keys, cfg.Recovery())))
                case _ => false
      invariant t.pcs[r].Finished? ==>
                  t.keys == match s.pcs[r]
                            case Counting(_) => RecordedKeys(cfg, s.keys)
                            case Clearing(_) => DeleteLock(DeleteFails(s.keys))
                            case _ => DeleteLock(SetOpen(s.keys, cfg.Recovery()))
      decreases match t.pcs[r]
                case Counting(_) => 3
                case Expiring(_, _) => 2
                case Clearing(_) => 2
                case Reopening(_) => 2
                case Finished(_) => 0
                case _ => 1
    {
      RunsExtend(cfg, s, steps, t, Advance(r));
      steps, t := steps + [Advance(r)], Resume(cfg, t, r);
    }
  }

  lemma Then(cfg: Config, s: Sys, steps: seq<Step>, t: Sys, step: Step) returns (steps': seq<Step>, t': Sys)
    requires Runs(cfg, s, steps, t) && Enabled(t, step)
    ensures Runs(cfg, s, steps', t') && t' == Apply(cfg, t, step)
  {
    RunsExtend(cfg, s, steps, t, step);
    steps', t' := steps + [step], Apply(cfg, t, step);
  }

  /** A new request up to its call of the rest of the chain, or up to its 503 answer. */
  lemma AdmitAlone(cfg: Config, s: Sys, r: nat) returns (steps: seq<Step>, t: Sys)
    requires r !in s.pcs
    ensures Runs(cfg, s, steps, t) && r in t.pcs && t.pcs == s.pcs[r := t.pcs[r]]
    ensures t.pcs[r] ==
            if s.keys.open.Some? || (Count(s.keys) >= cfg.threshold && s.keys.lock.Some?)
            then Finished(CallReply(cfg, s.keys, Raised))
            else Calling(Count(s.keys) >= cfg.threshold)
    ensures t.keys == if t.pcs[r] == Calling(true) then TakeLock(s.keys) else s.keys
  {
    assert Runs(cfg, s, [], s);
    steps, t := Then(cfg, s, [], s, Arrive(r));
    steps, t := Then(cfg, s, steps, t, Advance(r));
    steps, t := Then(cfg, s, steps, t, Advance(r));
    if t.pcs[r].Locking? {
      steps, t := Then(cfg, s, steps, t, Advance(r));
    }
    assert t.pcs == s.pcs[r := t.pcs[r]];
  }

  /** The call itself and what follows it. */
  lemma ServeAlone(cfg: Config, s: Sys, r: nat, o: Outcome, dt: real) returns (steps: seq<Step>, t: Sys)
    requires cfg.Valid() && DeadlinesBounded(cfg, s.keys) && dt > 0.0
    requires r in s.pcs && s.pcs[r].Calling?
    ensures Runs(cfg, s, steps, t)
    ensures t.keys == SettledKeys(cfg, Elapse(s.keys, dt), s.pcs[r].probe, o)
    ensures t.pcs == s.pcs[r := Finished(Forwarded(o))]
  {
    var probe := s.pcs[r].probe;
    assert Runs(cfg, s, [], s);
    StepBoundsDeadlines(cfg, s, Pass(dt));
    steps, t := Then(cfg, s, [], s, Pass(dt));
    steps, t := Then(cfg, s, steps, t, Return(r, o));
    assert t.keys == Elapse(s.keys, dt) && t.pcs == s.pcs[r := AfterCall(probe, o)];
    if Failed(o) || probe {
      var more, u := FinishAlone(cfg, t, r);
      RunsConcat(cfg, s, steps, t, more, u);
      steps := steps + more;
      assert u.pcs == s.pcs[r := Finished(Forwarded(o))];
      t := u;
    }
  }

  /** From any state with bounded deadlines, so from any reachable one, a call that no other
      request interrupts is a run of the transition system, and it ends with the keys and the
      reply of CircuitBreakerPlugin.Call. */
  lemma CallIsARun(cfg: Config, s: Sys, r: nat, o: Outcome, dt: real) returns (steps: seq<Step>, t: Sys)
    requires cfg.Valid() && DeadlinesBounded(cfg, s.keys) && r !in s.pcs && dt > 0.0
    ensures Runs(cfg, s, steps, t)
    ensures t.keys == CallKeys(cfg, s.keys, o, dt)
    ensures t.pcs == s.pcs[r := Finished(CallReply(cfg, s.keys, o))]
  {
    steps, t := AdmitAlone(cfg, s, r);
    if t.pcs[r].Calling? {
      assert DeadlinesBounded(cfg, t.keys);
      var more, u := ServeAlone(cfg, t, r, o, dt);
      RunsConcat(cfg, s, steps, t, more, u);
      steps := steps + more;
      assert u.pcs == s.pcs[r := Finished(Forwarded(o))];
      t := u;
    }
  }

  // ---------- one call, written out ----------

  /** While the open key lives: 503, nothing changes, and Retry-After is the remaining time
      rounded to the nearest second, but at least 1. */
  lemma CallWhileOpen(cfg: Config, k: Keys, o: Outcome, dt: real)
    requires cfg.Valid() && DeadlinesBounded(cfg, k) && k.open.Some?
    ensures CallKeys(cfg, k, o, dt) == k
    ensures CallReply(cfg, k, o).CircuitOpen?
    ensures var left, n := k.open.value - k.now, CallReply(cfg, k, o).retryAfter;
            && 1 <= n && n as real <= cfg.recoveryTimeout
            && left - 0.5 < n as real && (n as real <= left + 0.5 || n == 1)
  {
  }

  /** Below the threshold, whoever holds the lock: the request is forwarded and its answer handed
      on. It counts as a failure exactly if the rest of the chain raised or answered with status
      500 or above. The counter is one that still lives when the call ends; the first failure
      starts its window, and the failure that reaches the threshold opens the circuit. */
  lemma CallWhileClosed(cfg: Config, k: Keys, o: Outcome, dt: real)
    requires cfg.Valid() && DeadlinesBounded(cfg, k) && dt > 0.0
    requires k.open.None? && (k.fails.Some? ==> k.fails.value.count < cfg.threshold)
    ensures CallReply(cfg, k, o) == Forwarded(o)
    ensures var failed := o.Raised? || o.status >= 500;
            var now := k.now + dt;
            var lives := k.fails.Some? && (k.fails.value.deadline.None? || now < k.fails.value.deadline.value);
            var n := if lives then k.fails.value.count else 0;
            var k' := CallKeys(cfg, k, o, dt);
            && k'.now == now
            && k'.lock == (if k.lock.Some? && now < k.lock.value then k.lock else None)
            && k'.open == (if failed && n + 1 >= cfg.threshold then Some(now + cfg.recoveryTimeout.Floor as real)
                           else None)
            && k'.fails == if !failed then (if lives then k.fails else None)
                           else Some(Counter(n + 1, if lives then k.fails.value.deadline
                                                    else Some(now + cfg.window as real)))
  {
  }

  /** At the threshold with the lock free: the request probes. It reopens the circuit exactly
      if the rest of the chain raised or answered with status 500 or above, and keeps the
      counter then; any other answer leaves no keys. */
  lemma CallWhileHalfOpen(cfg: Config, k: Keys, o: Outcome, dt: real)
    requires cfg.Valid() && DeadlinesBounded(cfg, k) && k.lock.None? && dt > 0.0
    requires k.open.None? && k.fails.Some? && k.fails.value.count >= cfg.threshold
    ensures CallReply(cfg, k, o) == Forwarded(o)
    ensures var failed := o.Raised? || o.status >= 500;
            var now := k.now + dt;
            var lives := k.fails.value.deadline.None? || now < k.fails.value.deadline.value;
            CallKeys(cfg, k, o, dt)
            == if failed then
                 Keys(now, Some(now + cfg.recoveryTimeout.Floor as real), if lives then k.fails else None, None)
               else Keys(now, None, None, None)
  {
  }

  /** At the threshold with the lock taken: 503, and nothing changes. */
  lemma CallWhileProbed(cfg: Config, k: Keys, o: Outcome, dt: real)
    requires cfg.Valid() && k.lock.Some?
    requires k.open.None? && k.fails.Some? && k.fails.value.count >= cfg.threshold
    ensures CallReply(cfg, k, o) == Recovering && CallKeys(cfg, k, o, dt) == k
  {
  }

  /** One call, the lock being free, by the phase it finds: OPEN answers 503 and changes
      nothing; CLOSED forwards and opens exactly when a failure reaches the threshold within
      the counter found at that time; HALF_OPEN forwards once and then is OPEN for the whole
      recovery time or CLOSED with no failures left. */
  lemma CallByPhase(cfg: Config, k: Keys, o: Outcome, dt: real)
    requires cfg.Valid() && DeadlinesBounded(cfg, k) && k.lock.None? && dt > 0.0
    ensures var k' := CallKeys(cfg, k, o, dt);
            var failed := o.Raised? || o.status >= 500;
            && DeadlinesBounded(cfg, k') && k'.lock.None?
            && match PhaseOf(cfg, k)
               case Open =>
                 && k' == k && CallReply(cfg, k, o).CircuitOpen?
                 && 1 <= CallReply(cfg, k, o).retryAfter <= cfg.Recovery()
               case Closed =>
                 && CallReply(cfg, k, o) == Forwarded(o)
                 && PhaseOf(cfg, k') == (if failed && Count(Elapse(k, dt)) + 1 >= cfg.threshold then Open else Closed)
                 && Count(k') == Count(Elapse(k, dt)) + (if failed then 1 else 0)
               case HalfOpen =>
                 && CallReply(cfg, k, o) == Forwarded(o)
                 && (if failed then k'.open == Some(k'.now + cfg.Recovery() as real)
                     else k' == NoKeys(k.now + dt))
  {
  }

  /** In every interleaving, a request that is not a probe goes on to count a failure, and a
      probe to reopen the circuit, exactly if its call raised or answered 500 or above; else
      the one leaves and the other clears the counter. */
  lemma OutcomeIsJudged(cfg: Config, s: Sys, r: nat, o: Outcome)
    requires Enabled(s, Return(r, o))
    ensures var t := Apply(cfg, s, Return(r, o));
            && t.keys == s.keys
            && (o.Raised? || o.status >= 500 ==>
                  t.pcs[r] == if s.pcs[r] == Calling(true) then Reopening(o) else Counting(o))
            && (o.Response? && o.status < 500 ==>
                  t.pcs[r] == if s.pcs[r] == Calling(true) then Clearing(o) else Finished(Forwarded(o)))
  {
  }
}
