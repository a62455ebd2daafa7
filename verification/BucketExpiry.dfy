/** The expiry that the script sets, and when it cannot be noticed. */
module BucketExpiry {
  import opened Wrappers
  import opened TokenBucket
  import opened BucketRuns
  import opened BucketSharing

  datatype Request = Request(limiter: Limiter, now: real)

  /** The deadline that request i - 1 gave the key has passed when request i comes. */
  predicate Lapsed(rs: seq<Request>, i: nat)
    requires 0 < i < |rs|
  {
    rs[i].now >= rs[i - 1].now + TimeToLive(rs[i - 1].limiter) as real
  }

  function VisitWithExpiry(rs: seq<Request>, i: nat): Visit
    requires i < |rs|
  {
    Visit(rs[i].limiter, rs[i].now, i > 0 && Lapsed(rs, i))
  }

  /** The run in which each key is dropped at the deadline the script gave it; the request
      clock agrees with the server's. */
  function WithExpiry(rs: seq<Request>): seq<Visit> {
    seq(|rs|, i requires 0 <= i < |rs| => VisitWithExpiry(rs, i))
  }

  /** The run in which the key is never dropped. */
  function WithoutExpiry(rs: seq<Request>): seq<Visit> {
    seq(|rs|, i requires 0 <= i < |rs| => Visit(rs[i].limiter, rs[i].now, false))
  }

  /** The stored bucket after the script ran for these requests on one key of an empty server. */
  function StoredAfter(rs: seq<Request>): Option<Stored> {
    if rs == [] then None
    else
      var last := rs[|rs| - 1];
      Some(Store(last.limiter, LiveBucket(StoredAfter(rs[..|rs| - 1]), last.now), last.now, last.now))
  }

  /** The runs with expiry are the runs of the script. */
  lemma {:induction false} ScriptRunsWithExpiry(rs: seq<Request>)
    requires rs != []
    ensures var vs, init, last := WithExpiry(rs), rs[..|rs| - 1], rs[|rs| - 1];
            && LiveBucket(StoredAfter(init), last.now) == Found(vs, |rs| - 1)
            && StoredAfter(rs).value.bucket == After(vs).value
    decreases |rs|
  {
    var vs, init := WithExpiry(rs), rs[..|rs| - 1];
    assert vs[..|rs| - 1] == WithExpiry(init);
    if init == [] {
    } else {
      ScriptRunsWithExpiry(init);
    }
  }

  ghost predicate SameDecisions(rs: seq<Request>) {
    forall i: nat :: i < |rs| ==> (Admits(WithExpiry(rs), i) <==> Admits(WithoutExpiry(rs), i))
  }

  ghost predicate From(rs: seq<Request>, limiters: set<Limiter>) {
    forall i :: 0 <= i < |rs| ==> rs[i].limiter in limiters
  }

  /** Whichever limits set the deadline, the key outlives the time in which the others refill. */
  ghost predicate OutlivesRefill(limiters: set<Limiter>) {
    forall a, b :: a in limiters && b in limiters ==> RefillTime(b) <= TimeToLive(a) as real
  }

  /** For the limits of configured plugins the refill time is the window, so windows that
      differ by at most two seconds meet the condition. */
  lemma RefillTimeIsWindow(limit: int, window: int, rate: real)
    requires limit >= 1 && window >= 1 && rate == limit as real / window as real
    ensures rate > 0.0 && RefillTime(Limits(limit, rate)) == window as real
    ensures TimeToLive(Limits(limit, rate)) == window + 2
  {
    RateIsPositive(limit, window, rate);
    assert limit as real / rate == window as real by {
      assert (window as real * rate) / rate == window as real;
    }
  }

  // ---------- expiry that is not noticed ----------

  lemma LongGapRefills(vs: seq<Visit>, k: nat)
    requires k < |vs| && Gap(vs, k) >= RefillTime(vs[k].limiter)
    ensures Gain(vs, k) >= Cap(vs, k)
  {
    IdleRefills(vs[k].limiter, Gap(vs, k));
  }

  lemma SameGain(rs: seq<Request>, i: nat)
    requires i < |rs|
    ensures Gain(WithExpiry(rs), i) == Gain(WithoutExpiry(rs), i)
  {
    assert Gap(WithExpiry(rs), i) == Gap(WithoutExpiry(rs), i);
  }

  lemma SameGains(rs: seq<Request>)
    ensures Gains(WithExpiry(rs)) == Gains(WithoutExpiry(rs))
  {
    forall i: nat | i < |rs| ensures Gain(WithExpiry(rs), i) == Gain(WithoutExpiry(rs), i) {
      SameGain(rs, i);
    }
  }

  lemma LapsedMeansRefilled(rs: seq<Request>, limiters: set<Limiter>, k: nat)
    requires From(rs, limiters) && OutlivesRefill(limiters) && 0 < k < |rs| && Lapsed(rs, k)
    ensures Gains(WithExpiry(rs))[k] >= Cap(WithExpiry(rs), k)
  {
    var vs := WithExpiry(rs);
    assert RefillTime(rs[k].limiter) <= TimeToLive(rs[k - 1].limiter) as real;
    TimeToLiveCoversRefill(rs[k - 1].limiter);
    assert Gap(vs, k) == rs[k].now - rs[k - 1].now;
    LongGapRefills(vs, k);
  }

  /** Two flows with the same gains agree if one only drops keys when the gain fills the bucket. */
  lemma {:induction false} FlowsAgree(xs: seq<real>, vs: seq<Visit>, ys: seq<real>, ws: seq<Visit>,
                                      gains: seq<real>, i: nat)
    requires IsFlow(xs, gains, vs) && IsFlow(ys, gains, ws) && i < |vs|
    requires forall k: nat :: k < |vs| ==> vs[k].limiter == ws[k].limiter
    requires forall k: nat :: 0 < k < |vs| ==> !ws[k].gone && (vs[k].gone ==> gains[k] >= Cap(vs, k))
    ensures xs[i] == ys[i]
    decreases i
  {
    assert FlowsAt(xs, gains, vs, i) && FlowsAt(ys, gains, ws, i);
    if i == 0 {
    } else {
      FlowsAgree(xs, vs, ys, ws, gains, i - 1);
      FlowBounded(ys, gains, ws, i - 1);
    }
  }

  lemma ExpiryKeepsLevels(rs: seq<Request>, limiters: set<Limiter>)
    requires From(rs, limiters) && OutlivesRefill(limiters)
    ensures Levels(WithExpiry(rs)) == Levels(WithoutExpiry(rs))
  {
    var vs, ws := WithExpiry(rs), WithoutExpiry(rs);
    var gains := Gains(vs);
    LevelsFlow(vs);
    LevelsFlow(ws);
    SameGains(rs);
    forall k: nat | 0 < k < |vs| && vs[k].gone ensures gains[k] >= Cap(vs, k) {
      LapsedMeansRefilled(rs, limiters, k);
    }
    forall i: nat | i < |rs| ensures Levels(vs)[i] == Levels(ws)[i] {
      FlowsAgree(Levels(vs), vs, Levels(ws), ws, gains, i);
    }
  }

  lemma ExpiryKeepsDecisions(rs: seq<Request>, limiters: set<Limiter>)
    requires From(rs, limiters) && OutlivesRefill(limiters)
    ensures SameDecisions(rs)
  {
    var vs, ws := WithExpiry(rs), WithoutExpiry(rs);
    ExpiryKeepsLevels(rs, limiters);
    forall i: nat | i < |rs| ensures Admits(vs, i) <==> Admits(ws, i) {
      assert Levels(vs)[i] == Level(vs, i) && Levels(ws)[i] == Level(ws, i);
    }
  }

  // ---------- expiry that is noticed ----------

  /** a spends its bucket and sets the deadline, at which b spends a whole bucket of its own. */
  function TwoBursts(a: Limiter, b: Limiter): seq<Request> {
    seq(a.capacity, _ => Request(a, 0.0)) + seq(b.capacity, _ => Request(b, TimeToLive(a) as real))
  }

  lemma WithExpiryAllPass(a: Limiter, b: Limiter, k: nat)
    requires k < b.capacity
    ensures Admits(WithExpiry(TwoBursts(a, b)), a.capacity + k)
  {
    var vs, n := WithExpiry(TwoBursts(a, b)), a.capacity;
    TimeToLiveCoversRefill(b);
    assert vs[n].gone && Level(vs, n) == b.capacity as real;
    forall r | n < r <= n + k ensures vs[r] == Visit(vs[n].limiter, vs[n].now, false) {
    }
    Drains(vs, n, b.capacity, k);
  }

  lemma SpentBeforeTheSecond(a: Limiter, b: Limiter)
    requires TimeToLive(a) as real < RefillTime(b)
    ensures Level(WithoutExpiry(TwoBursts(a, b)), a.capacity) < b.capacity as real
  {
    var ws, n := WithoutExpiry(TwoBursts(a, b)), a.capacity;
    TimeToLiveCoversRefill(a);
    FirstIsFull(ws);
    Drains(ws, 0, n, n - 1);
    LevelStep(ws, n);
    SlowRefill(b, TimeToLive(a) as real);
  }

  lemma SlowRefill(limiter: Limiter, time: real)
    requires time < RefillTime(limiter)
    ensures time * limiter.rate < limiter.capacity as real
  {
    assert RefillTime(limiter) * limiter.rate == limiter.capacity as real;
  }

  lemma {:induction false} NoGainInABurst(vs: seq<Visit>, i: nat, j: nat)
    requires i <= j < |vs| && forall k :: i < k <= j ==> vs[k].now == vs[k - 1].now
    ensures Sum(Gains(vs), i, j) == 0.0
    decreases j
  {
    if i == j {
    } else {
      NoGainInABurst(vs, i, j - 1);
    }
  }

  /** A burst of more requests than there are tokens has one that finds none. */
  lemma SomeFail(vs: seq<Visit>, i: nat, j: nat) returns (k: nat)
    requires i <= j < |vs| && Level(vs, i) < (j - i + 1) as real
    requires forall r :: i < r <= j ==> !vs[r].gone && vs[r].now == vs[r - 1].now
    ensures i <= k <= j && !Admits(vs, k)
  {
    var levels := Levels(vs);
    if k': nat :| i <= k' <= j && !Admits(vs, k') {
      k := k';
    } else {
      forall r | i <= r <= j ensures levels[r] >= 1.0 {
        assert Admits(vs, r);
      }
      AdmittedAtMost(levels, i, j);
      NoGainInABurst(vs, i, j);
      LevelsFlow(vs);
      Budget(levels, Gains(vs), vs, i, j);
      assert false;
    }
  }

  lemma ExpiryNoticed(a: Limiter, b: Limiter) returns (rs: seq<Request>)
    requires TimeToLive(a) as real < RefillTime(b)
    ensures From(rs, {a, b}) && !SameDecisions(rs)
  {
    rs := TwoBursts(a, b);
    var n := a.capacity;
    SpentBeforeTheSecond(a, b);
    var k := SomeFail(WithoutExpiry(rs), n, n + b.capacity - 1);
    WithExpiryAllPass(a, b, k - n);
  }

  /** Key expiry cannot be noticed on any run if and only if the key always outlives the
      refill: with one limit it never is; with several, exactly if their windows are close. */
  lemma ExpiryInvisibleIff(limiters: set<Limiter>)
    ensures (forall rs :: From(rs, limiters) ==> SameDecisions(rs)) <==> OutlivesRefill(limiters)
  {
    if OutlivesRefill(limiters) {
      forall rs | From(rs, limiters) ensures SameDecisions(rs) {
        ExpiryKeepsDecisions(rs, limiters);
      }
    } else {
      var a, b :| a in limiters && b in limiters && RefillTime(b) > TimeToLive(a) as real;
      var rs := ExpiryNoticed(a, b);
      assert From(rs, limiters);
    }
  }

  // ---------- what the script with its expiry admits ----------

  /** No deadline passed between request i and request j. */
  ghost predicate KeyNotLapsed(rs: seq<Request>, i: nat, j: nat)
    requires i <= j < |rs|
  {
    forall k: nat :: i < k <= j ==> !Lapsed(rs, k)
  }

  lemma SameStretch(rs: seq<Request>, i: nat, j: nat)
    requires i <= j < |rs|
    ensures StretchFits(WithExpiry(rs), i, j) <==> StretchFits(WithoutExpiry(rs), i, j)
    ensures KeyLives(WithExpiry(rs), i, j) <==> KeyNotLapsed(rs, i, j)
  {
    SameGains(rs);
    assert Cap(WithExpiry(rs), i) == Cap(WithoutExpiry(rs), i);
    if KeyLives(WithExpiry(rs), i, j) {
      forall k: nat | i < k <= j ensures !Lapsed(rs, k) {
        assert !WithExpiry(rs)[k].gone;
      }
    }
  }

  /** The exact guarantee for the script with its expiry, for every run and whatever limits
      share the key: no request is rejected if and only if the traffic conforms on every
      stretch in which no deadline passed. */
  lemma ScriptAdmitsIff(rs: seq<Request>)
    ensures AllAdmitted(WithExpiry(rs)) <==>
            forall i: nat, j: nat :: i <= j < |rs| && KeyNotLapsed(rs, i, j) ==> StretchFits(WithoutExpiry(rs), i, j)
  {
    var vs := WithExpiry(rs);
    AllAdmittedIff(vs);
    forall i: nat, j: nat | i <= j < |rs|
      ensures StretchFits(vs, i, j) <==> StretchFits(WithoutExpiry(rs), i, j)
      ensures KeyLives(vs, i, j) <==> KeyNotLapsed(rs, i, j)
    {
      SameStretch(rs, i, j);
    }
  }

  /** Where expiry is not noticed, the lives of the key play no part. */
  lemma ScriptAdmitsConforming(rs: seq<Request>, limiters: set<Limiter>)
    requires From(rs, limiters) && OutlivesRefill(limiters)
    ensures AllAdmitted(WithExpiry(rs)) <==> Conforms(WithoutExpiry(rs))
  {
    var vs, ws := WithExpiry(rs), WithoutExpiry(rs);
    ExpiryKeepsDecisions(rs, limiters);
    assert AllAdmitted(vs) <==> AllAdmitted(ws) by {
      assert forall i: nat :: i < |rs| ==> (Admits(vs, i) <==> Admits(ws, i));
    }
    ConformingIsAdmitted(ws);
  }

  /** With one limit on the key and a forward clock: no request is rejected if and only if the
      traffic is within the limit. */
  lemma ScriptAdmitsOneLimitIff(rs: seq<Request>, limiter: Limiter)
    requires From(rs, {limiter})
    requires forall i, j :: 0 <= i <= j < |rs| ==> rs[i].now <= rs[j].now
    ensures AllAdmitted(WithExpiry(rs)) <==> WithinLimit(WithoutExpiry(rs), limiter)
  {
    TimeToLiveCoversRefill(limiter);
    ScriptAdmitsConforming(rs, {limiter});
    ConformingIsAdmitted(WithoutExpiry(rs));
    OneLimitAdmitsIff(WithoutExpiry(rs), limiter);
  }

  // ---------- the limit of one route under the script with its expiry ----------

  /** No limit on the key adds tokens faster than a, or lets the key expire before a refills. */
  ghost predicate Leads(a: Limiter, limiters: set<Limiter>) {
    forall b :: b in limiters ==> b.rate <= a.rate && RefillTime(a) <= TimeToLive(b) as real
  }

  lemma LeaderKeepsLimit(rs: seq<Request>, limiters: set<Limiter>, a: Limiter)
    requires From(rs, limiters) && Leads(a, limiters)
    ensures KeepsLimit(WithExpiry(rs), a)
  {
    var vs := WithExpiry(rs);
    forall k: nat | 0 < k < |vs| ensures Harmless(vs, a, k) {
      assert rs[k].limiter in limiters && rs[k - 1].limiter in limiters;
    }
    forall i: nat, j: nat | i <= j < |vs| ensures Fits(a, AdmittedBy(vs, a, i, j + 1), ForwardTime(vs, i, j)) {
      LimitKept(vs, a, i, j);
    }
  }

  /** The requests of BucketSharing.Topped. */
  function ToppedRequests(a: Limiter, b: Limiter): seq<Request> {
    seq(a.capacity, _ => Request(a, 0.0))
    + [Request(b, HalfToken(b)), Request(a, HalfToken(b) + HalfToken(a))]
  }

  /** Half a token takes less time than the life of the key, for a and for a faster limit. */
  lemma HalfTokenIsShort(a: Limiter, b: Limiter)
    requires a.rate < b.rate
    ensures HalfToken(b) < TimeToLive(a) as real
  {
    HalfTokenGain(a);
    HalfTokenGain(b);
    TimeToLiveCoversRefill(a);
    SlowerGainsLess(HalfToken(b), a.rate, b.rate);
    if HalfToken(b) >= RefillTime(a) {
      IdleRefills(a, HalfToken(b));
    }
  }

  lemma FasterBreaksLimit(a: Limiter, b: Limiter)
    requires a.rate < b.rate
    ensures !KeepsLimit(WithExpiry(ToppedRequests(a, b)), a)
  {
    var rs, gone := ToppedRequests(a, b), HalfToken(a) >= TimeToLive(b) as real;
    TimeToLiveCoversRefill(a);
    HalfTokenIsShort(a, b);
    assert WithExpiry(rs) == Topped(a, b, gone);
    LimitBroken(a, b, gone);
  }

  /** a spends its bucket, b lets the key expire early, and a spends a whole bucket again. */
  function SpentTwice(a: Limiter, b: Limiter): seq<Request> {
    seq(a.capacity, _ => Request(a, 0.0)) + [Request(b, 0.0)]
    + seq(a.capacity, _ => Request(a, TimeToLive(b) as real))
  }

  lemma SpentTwiceAdmitted(a: Limiter, b: Limiter, k: nat)
    requires k < 2 * a.capacity + 1 && k != a.capacity
    ensures WithExpiry(SpentTwice(a, b))[k].limiter == a && Admits(WithExpiry(SpentTwice(a, b)), k)
  {
    var vs, m := WithExpiry(SpentTwice(a, b)), a.capacity + 1;
    TimeToLiveCoversRefill(a);
    TimeToLiveCoversRefill(b);
    if k < a.capacity {
      FirstIsFull(vs);
      BurstAdmitted(vs, 0, k);
    } else {
      assert vs[m].gone && Level(vs, m) == Cap(vs, m);
      BurstAdmitted(vs, m, k);
    }
  }

  lemma SpentTwiceCounted(a: Limiter, b: Limiter)
    requires a != b
    ensures AdmittedBy(WithExpiry(SpentTwice(a, b)), a, 0, 2 * a.capacity + 1) == 2 * a.capacity
  {
    var vs, n := WithExpiry(SpentTwice(a, b)), a.capacity;
    forall k: nat | k < 2 * n + 1 && k != n ensures vs[k].limiter == a && Admits(vs, k) {
      SpentTwiceAdmitted(a, b, k);
    }
    AllCounted(vs, a, 0, 0, n);
    assert AdmittedBy(vs, a, 0, n + 1) == n;
    AllCounted(vs, a, 0, n + 1, 2 * n + 1);
  }

  lemma SpentTwiceTime(a: Limiter, b: Limiter)
    ensures ForwardTime(WithExpiry(SpentTwice(a, b)), 0, 2 * a.capacity) == TimeToLive(b) as real
  {
    TimeToLiveCoversRefill(b);
    ForwardTimeSpan(WithExpiry(SpentTwice(a, b)), 0, 2 * a.capacity);
  }

  lemma TwiceIsTooMany(a: Limiter, n: int, time: real)
    requires n == 2 * a.capacity && time < RefillTime(a)
    ensures !Fits(a, n, time)
  {
    SlowRefill(a, time);
  }

  lemma StretchBreaksLimit(vs: seq<Visit>, a: Limiter, i: nat, j: nat)
    requires i <= j < |vs| && !Fits(a, AdmittedBy(vs, a, i, j + 1), ForwardTime(vs, i, j))
    ensures !KeepsLimit(vs, a)
  {
  }

  lemma EarlyExpiryBreaksLimit(a: Limiter, b: Limiter)
    requires a != b && TimeToLive(b) as real < RefillTime(a)
    ensures !KeepsLimit(WithExpiry(SpentTwice(a, b)), a)
  {
    var vs, last := WithExpiry(SpentTwice(a, b)), 2 * a.capacity;
    var n, time := AdmittedBy(vs, a, 0, last + 1), ForwardTime(vs, 0, last);
    SpentTwiceCounted(a, b);
    SpentTwiceTime(a, b);
    TwiceIsTooMany(a, n, time);
    StretchBreaksLimit(vs, a, 0, last);
  }

  /** The exact condition for one limit on a shared key, for the script with its expiry: no
      run exceeds it if and only if no limit on the key has a larger rate or lets the key
      expire before this one refills. */
  lemma ScriptKeepsLimitIff(limiters: set<Limiter>, a: Limiter)
    requires a in limiters
    ensures (forall rs :: From(rs, limiters) ==> KeepsLimit(WithExpiry(rs), a)) <==> Leads(a, limiters)
  {
    if b :| b in limiters && b.rate > a.rate {
      FasterBreaksLimit(a, b);
      assert From(ToppedRequests(a, b), limiters);
    } else if b :| b in limiters && RefillTime(a) > TimeToLive(b) as real {
      TimeToLiveCoversRefill(a);
      EarlyExpiryBreaksLimit(a, b);
      assert From(SpentTwice(a, b), limiters);
    } else {
      forall rs | From(rs, limiters) ensures KeepsLimit(WithExpiry(rs), a) {
        LeaderKeepsLimit(rs, limiters, a);
      }
    }
  }

  /** One request with the smaller capacity, and the other limit's burst in the same instant. */
  function CutRequests(a: Limiter, b: Limiter): seq<Request> {
    [Request(a, 0.0)] + seq(a.capacity, _ => Request(b, 0.0))
  }

  lemma CutIsServed(a: Limiter, b: Limiter)
    requires a != b && a.capacity <= b.capacity
    ensures var rs := CutRequests(a, b);
            (forall c :: Conforms(Own(WithoutExpiry(rs), c))) && !AllAdmitted(WithExpiry(rs))
  {
    var rs := CutRequests(a, b);
    var vs := OneRequestCutsTheBucket(a, b);
    TimeToLiveCoversRefill(a);
    TimeToLiveCoversRefill(b);
    assert WithoutExpiry(rs) == vs && WithExpiry(rs) == vs;
  }

  /** That a route whose own traffic conforms is never rejected by the script with its expiry
      holds if and only if one limit reaches the key. */
  lemma ScriptServesOwnTrafficIff(limiters: set<Limiter>)
    ensures (forall rs :: From(rs, limiters) && EachConforms(WithoutExpiry(rs), limiters) ==>
                            AllAdmitted(WithExpiry(rs)))
            <==> forall a, b :: a in limiters && b in limiters ==> a == b
  {
    if a, b :| a in limiters && b in limiters && a.capacity <= b.capacity && a != b {
      CutIsServed(a, b);
      assert From(CutRequests(a, b), limiters);
    } else {
      forall rs | From(rs, limiters) && EachConforms(WithoutExpiry(rs), limiters)
        ensures AllAdmitted(WithExpiry(rs))
      {
        OneLimitServesOwn(WithoutExpiry(rs), limiters);
        ScriptAdmitsIff(rs);
      }
    }
  }

  // ---------- the routes as shipped ----------

  lemma ShippedLimits(user: Limiter, chat: Limiter)
    requires user == Limits(1000, 1000.0 / 60.0) && chat == Limits(10, 10.0 / 60.0)
    ensures Leads(user, {user, chat}) && !Leads(chat, {user, chat}) && OutlivesRefill({user, chat})
  {
    RefillTimeIsWindow(1000, 60, user.rate);
    RefillTimeIsWindow(10, 60, chat.rate);
    assert user in {user, chat};
  }

  /** The user route and the chat route both limit by user, so they share a bucket. Expiry is
      not noticed and the limit of the user route is kept, but not that of the chat route, and
      neither is sure to be served when it keeps to its own limit. */
  lemma ShippedRoutesShare(user: Limiter, chat: Limiter)
    requires user == Limits(1000, 1000.0 / 60.0) && chat == Limits(10, 10.0 / 60.0)
    ensures forall rs :: From(rs, {user, chat}) ==> SameDecisions(rs) && KeepsLimit(WithExpiry(rs), user)
    ensures exists rs :: From(rs, {user, chat}) && !KeepsLimit(WithExpiry(rs), chat)
    ensures exists rs :: From(rs, {user, chat}) && EachConforms(WithoutExpiry(rs), {user, chat})
                         && !AllAdmitted(WithExpiry(rs))
  {
    ShippedLimits(user, chat);
    ExpiryInvisibleIff({user, chat});
    ScriptKeepsLimitIff({user, chat}, user);
    ScriptKeepsLimitIff({user, chat}, chat);
    ScriptServesOwnTrafficIff({user, chat});
  }
}
