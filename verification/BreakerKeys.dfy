/** The three Redis keys of one circuit breaker and the commands the plugin sends.
    Each command is atomic; time is real and only Elapse moves it. */
module BreakerKeys {
  import opened Wrappers

  /** A failure counter; its deadline is None until EXPIRE has been sent. */
  datatype Counter = Counter(count: nat, deadline: Option<real>)

  datatype Keys = Keys(now: real, open: Option<real>, fails: Option<Counter>, lock: Option<real>)

  /** Time to live of the probe lock, in seconds. */
  const LOCK_SECONDS: int := 10

  datatype Config = Config(threshold: int, recoveryTimeout: real, window: int) {
    ghost predicate Valid() {
      threshold >= 1 && recoveryTimeout >= 1.0 && window >= 1
    }

    /** The recovery timeout truncated to whole seconds, as the SET command sends it. */
    function Recovery(): (r: int)
      ensures r as real <= recoveryTimeout < r as real + 1.0
    {
      recoveryTimeout.Floor
    }
  }

  function NoKeys(now: real): Keys {
    Keys(now, None, None, None)
  }

  predicate Dead(deadline: Option<real>, now: real) {
    deadline.Some? && deadline.value <= now
  }

  /** The keys as a later time finds them: those whose deadline is reached are gone. */
  function KeptUntil(k: Keys, now: real): Keys {
    Keys(now,
         if Dead(k.open, now) then None else k.open,
         if k.fails.Some? && Dead(k.fails.value.deadline, now) then None else k.fails,
         if Dead(k.lock, now) then None else k.lock)
  }

  function Elapse(k: Keys, dt: real): Keys {
    KeptUntil(k, k.now + dt)
  }

  function SetOpen(k: Keys, seconds: int): Keys {
    k.(open := Some(k.now + seconds as real))
  }

  /** Remaining seconds of the open key rounded to the nearest, or -2 when it is gone. */
  function OpenTtl(k: Keys): int {
    if k.open.None? then -2 else (k.open.value - k.now + 0.5).Floor
  }

  function Count(k: Keys): nat {
    if k.fails.None? then 0 else k.fails.value.count
  }

  /** INCR creates an absent counter without a deadline and keeps the deadline of a present one. */
  function Incr(k: Keys): Keys {
    k.(fails := Some(if k.fails.None? then Counter(1, None)
                     else Counter(k.fails.value.count + 1, k.fails.value.deadline)))
  }

  /** EXPIRE does nothing to an absent key. */
  function ExpireFails(k: Keys, seconds: int): Keys {
    if k.fails.None? then k
    else k.(fails := Some(Counter(k.fails.value.count, Some(k.now + seconds as real))))
  }

  function DeleteFails(k: Keys): Keys {
    k.(fails := None)
  }

  /** SET NX EX: takes effect only while the lock key is absent. */
  function TakeLock(k: Keys): Keys {
    if k.lock.None? then k.(lock := Some(k.now + LOCK_SECONDS as real)) else k
  }

  /** DEL of the lock key, whoever set it. */
  function DeleteLock(k: Keys): Keys {
    k.(lock := None)
  }

  /** Every live key has a deadline ahead of the clock, at most its own time to live away;
      only the counter may have no deadline. */
  ghost predicate DeadlinesBounded(cfg: Config, k: Keys) {
    && (k.open.Some? ==> k.now < k.open.value <= k.now + cfg.Recovery() as real)
    && (k.lock.Some? ==> k.now < k.lock.value <= k.now + LOCK_SECONDS as real)
    && (k.fails.Some? ==>
          && k.fails.value.count >= 1
          && (k.fails.value.deadline.Some? ==>
                k.now < k.fails.value.deadline.value <= k.now + cfg.window as real))
  }
}
