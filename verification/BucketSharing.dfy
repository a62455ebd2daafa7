/** What the token bucket means for the limit of one route: when all requests of a key have one
    limit, and when routes with different limits share the key. */
module BucketSharing {
  import opened TokenBucket
  import opened BucketRuns

  /** Sum of the forward movements of the request clock between visits i and j. */
  function ForwardTime(vs: seq<Visit>, i: nat, j: nat): real
    requires i <= j < |vs|
    decreases j
  {
    if i == j then 0.0 else ForwardTime(vs, i, j - 1) + Gap(vs, j)
  }

  ghost predicate Monotone(vs: seq<Visit>) {
    forall i, j :: 0 <= i <= j < |vs| ==> vs[i].now <= vs[j].now
  }

  /** n requests are within the limit for the elapsed time: its capacity and what its rate adds. */
  ghost predicate Fits(limiter: Limiter, n: int, elapsed: real) {
    n as real <= limiter.capacity as real + elapsed * limiter.rate
  }

  /** Every stretch of the traffic is within the limit for its duration. */
  ghost predicate WithinLimit(vs: seq<Visit>, limiter: Limiter) {
    forall i: nat, j: nat :: i <= j < |vs| ==> Fits(limiter, j - i + 1, vs[j].now - vs[i].now)
  }

  /** All requests have the same limit. */
  ghost predicate OneLimit(vs: seq<Visit>, limiter: Limiter) {
    forall k :: 0 <= k < |vs| ==> vs[k].limiter == limiter
  }

  /** The limits of all requests are among these, and the key lives. */
  ghost predicate OnKey(vs: seq<Visit>, limiters: set<Limiter>) {
    KeyKept(vs) && forall k :: 0 <= k < |vs| ==> vs[k].limiter in limiters
  }

  lemma {:induction false} ForwardTimeSpan(vs: seq<Visit>, i: nat, j: nat)
    requires i <= j < |vs|
    ensures ForwardTime(vs, i, j) >= 0.0
    ensures ForwardTime(vs, i, j) >= vs[j].now - vs[i].now
    ensures Monotone(vs) ==> ForwardTime(vs, i, j) == vs[j].now - vs[i].now
    decreases j
  {
    if i == j {
    } else {
      ForwardTimeSpan(vs, i, j - 1);
    }
  }

  lemma ScaleMonotone(rate: real, x: real, y: real)
    requires rate > 0.0 && x <= y
    ensures x * rate <= y * rate
  {
  }

  lemma RateMonotone(gap: real, rate: real, rate': real)
    requires gap >= 0.0 && rate <= rate'
    ensures gap * rate <= gap * rate'
  {
  }

  lemma AddScaled(rate: real, x: real, y: real)
    ensures (x + y) * rate == x * rate + y * rate
  {
  }

  /** These tokens are no more than the rate adds in this time. */
  ghost predicate AtMost(tokens: real, time: real, rate: real) {
    tokens <= time * rate
  }

  ghost predicate AtLeast(tokens: real, time: real, rate: real) {
    tokens >= time * rate
  }

  lemma AtMostStep(tokens: real, time: real, rate: real, gap: real, gapRate: real)
    requires AtMost(tokens, time, rate) && gap >= 0.0 && gapRate <= rate
    ensures AtMost(tokens + gap * gapRate, time + gap, rate)
  {
    assert gap * gapRate <= gap * rate;
  }

  lemma AtLeastStep(tokens: real, time: real, rate: real, gap: real, gapRate: real)
    requires AtLeast(tokens, time, rate) && gap >= 0.0 && gapRate >= rate
    ensures AtLeast(tokens + gap * gapRate, time + gap, rate)
  {
    assert gap * gapRate >= gap * rate;
  }

  /** At rates of at most rate, the gains are at most the forward time at that rate. */
  lemma {:induction false} GainsAtMost(vs: seq<Visit>, rate: real, i: nat, j: nat)
    requires i <= j < |vs|
    requires forall k :: i < k <= j ==> vs[k].limiter.rate <= rate
    ensures AtMost(Sum(Gains(vs), i, j), ForwardTime(vs, i, j), rate)
    decreases j
  {
    if i == j {
    } else {
      GainsAtMost(vs, rate, i, j - 1);
      AtMostStep(Sum(Gains(vs), i, j - 1), ForwardTime(vs, i, j - 1), rate, Gap(vs, j), vs[j].limiter.rate);
    }
  }

  /** At rates of at least rate, the gains are at least the forward time at that rate. */
  lemma {:induction false} GainsAtLeast(vs: seq<Visit>, rate: real, i: nat, j: nat)
    requires i <= j < |vs|
    requires forall k :: i < k <= j ==> vs[k].limiter.rate >= rate
    ensures AtLeast(Sum(Gains(vs), i, j), ForwardTime(vs, i, j), rate)
    decreases j
  {
    if i == j {
    } else {
      GainsAtLeast(vs, rate, i, j - 1);
      AtLeastStep(Sum(Gains(vs), i, j - 1), ForwardTime(vs, i, j - 1), rate, Gap(vs, j), vs[j].limiter.rate);
    }
  }

  lemma WithinGains(limiter: Limiter, n: int, gained: real, time: real, elapsed: real)
    requires n as real <= limiter.capacity as real + gained && AtMost(gained, time, limiter.rate) && time <= elapsed
    ensures Fits(limiter, n, elapsed)
  {
    ScaleMonotone(limiter.rate, time, elapsed);
  }

  lemma BeyondGains(limiter: Limiter, n: int, gained: real, time: real, elapsed: real)
    requires Fits(limiter, n, elapsed) && AtLeast(gained, time, limiter.rate) && elapsed <= time
    ensures n as real <= limiter.capacity as real + gained
  {
    ScaleMonotone(limiter.rate, elapsed, time);
  }

  // ---------- one limit on the key ----------

  /** With one limit, a stretch with a living key admits at most the capacity plus the rate
      times the forward movement of the clock (ForwardTimeSpan: the elapsed time, when the
      clock never goes back). */
  lemma OneLimitNeverTooMany(vs: seq<Visit>, limiter: Limiter, i: nat, j: nat)
    requires OneLimit(vs, limiter) && i <= j < |vs| && KeyLives(vs, i, j)
    ensures Fits(limiter, Admitted(Levels(vs), i, j + 1), ForwardTime(vs, i, j))
  {
    NeverTooMany(vs, i, j);
    GainsAtMost(vs, limiter.rate, i, j);
    var time := ForwardTime(vs, i, j);
    WithinGains(limiter, Admitted(Levels(vs), i, j + 1), Sum(Gains(vs), i, j), time, time);
  }

  lemma OneLimitStretch(vs: seq<Visit>, limiter: Limiter, i: nat, j: nat)
    requires OneLimit(vs, limiter) && i <= j < |vs|
    ensures Fits(limiter, j - i + 1, vs[j].now - vs[i].now) ==> StretchFits(vs, i, j)
    ensures Monotone(vs) && StretchFits(vs, i, j) ==> Fits(limiter, j - i + 1, vs[j].now - vs[i].now)
  {
    var n, gained, time, elapsed := j - i + 1, Sum(Gains(vs), i, j), ForwardTime(vs, i, j), vs[j].now - vs[i].now;
    ForwardTimeSpan(vs, i, j);
    if Fits(limiter, n, elapsed) {
      GainsAtLeast(vs, limiter.rate, i, j);
      BeyondGains(limiter, n, gained, time, elapsed);
    }
    if Monotone(vs) && StretchFits(vs, i, j) {
      GainsAtMost(vs, limiter.rate, i, j);
      WithinGains(limiter, n, gained, time, elapsed);
    }
  }

  lemma OneLimitConforms(vs: seq<Visit>, limiter: Limiter)
    requires OneLimit(vs, limiter)
    ensures WithinLimit(vs, limiter) ==> Conforms(vs)
    ensures Monotone(vs) && Conforms(vs) ==> WithinLimit(vs, limiter)
  {
    forall i: nat, j: nat | i <= j < |vs|
      ensures Fits(limiter, j - i + 1, vs[j].now - vs[i].now) ==> StretchFits(vs, i, j)
      ensures Monotone(vs) && StretchFits(vs, i, j) ==> Fits(limiter, j - i + 1, vs[j].now - vs[i].now)
    {
      OneLimitStretch(vs, limiter, i, j);
    }
  }

  /** With one limit, traffic within it is never rejected, whenever keys disappear and however
      the clocks jump; with a forward clock and a living key, no request of a run is rejected
      if and only if the traffic is within the limit. */
  lemma OneLimitAdmitsIff(vs: seq<Visit>, limiter: Limiter)
    requires OneLimit(vs, limiter)
    ensures WithinLimit(vs, limiter) ==> AllAdmitted(vs)
    ensures Monotone(vs) && KeyKept(vs) ==> (AllAdmitted(vs) <==> WithinLimit(vs, limiter))
  {
    OneLimitConforms(vs, limiter);
    ConformingIsAdmitted(vs);
  }

  // ---------- the limit of one route on a shared key ----------

  /** How many of the visits i, ..., j - 1 with these limits were admitted. */
  function AdmittedBy(vs: seq<Visit>, limiter: Limiter, i: nat, j: nat): nat
    requires i <= j <= |vs|
    decreases j
  {
    if i == j then 0
    else AdmittedBy(vs, limiter, i, j - 1) + (if vs[j - 1].limiter == limiter && Admits(vs, j - 1) then 1 else 0)
  }

  /** On every stretch, the admissions with these limits are within them. */
  ghost predicate KeepsLimit(vs: seq<Visit>, limiter: Limiter) {
    forall i: nat, j: nat :: i <= j < |vs| ==> Fits(limiter, AdmittedBy(vs, limiter, i, j + 1), ForwardTime(vs, i, j))
  }

  /** The tokens that visit i leaves. */
  function Left(vs: seq<Visit>, i: nat): real
    requires i < |vs|
  {
    Level(vs, i) - (if Admits(vs, i) then 1.0 else 0.0)
  }

  /** The part of them that counts for a limit: no more than its capacity. */
  function LeftFor(vs: seq<Visit>, limiter: Limiter, i: nat): real
    requires i < |vs|
  {
    Min(Left(vs, i), limiter.capacity as real)
  }

  /** What the limit itself adds in the time before visit k. */
  function Earned(vs: seq<Visit>, limiter: Limiter, k: nat): real
    requires k < |vs|
  {
    Gap(vs, k) * limiter.rate
  }

  /** Visit k adds tokens no faster than the limit does, and a key is only lost when the limit
      would have refilled by then. */
  ghost predicate Harmless(vs: seq<Visit>, limiter: Limiter, k: nat)
    requires k < |vs|
  {
    vs[k].limiter.rate <= limiter.rate && (vs[k].gone ==> Gap(vs, k) >= RefillTime(limiter))
  }

  lemma LeftIsBounded(vs: seq<Visit>, k: nat)
    requires k < |vs|
    ensures 0.0 <= Left(vs, k) && Level(vs, k) <= Cap(vs, k)
  {
    LevelsFlow(vs);
    FlowBounded(Levels(vs), Gains(vs), vs, k);
    assert Levels(vs)[k] == Level(vs, k);
  }

  lemma IdleRefills(limiter: Limiter, idle: real)
    requires idle >= RefillTime(limiter)
    ensures idle * limiter.rate >= limiter.capacity as real
  {
    ScaleMonotone(limiter.rate, RefillTime(limiter), idle);
  }

  function OneIf(b: bool): nat { if b then 1 else 0 }

  /** The linear part: a visit that finds level tokens and takes one if it can; own says that
      it has the limit with capacity cap, which adds earned tokens before the visit. */
  lemma LevelPays(own: bool, cap: real, level: real, before: real, earned: real)
    requires own ==> level <= cap
    requires level <= before + earned || earned >= cap
    requires before >= 0.0 && earned >= 0.0
    ensures var taken := if level >= 1.0 then 1.0 else 0.0;
            (if own then taken else 0.0) + Min(level - taken, cap) <= Min(before, cap) + earned
  {
  }

  lemma GainAtMost(vs: seq<Visit>, limiter: Limiter, k: nat)
    requires k < |vs| && vs[k].limiter.rate <= limiter.rate
    ensures Gain(vs, k) <= Earned(vs, limiter, k)
  {
    RateMonotone(Gap(vs, k), vs[k].limiter.rate, limiter.rate);
  }

  lemma LevelEarned(vs: seq<Visit>, limiter: Limiter, k: nat)
    requires 0 < k < |vs| && Harmless(vs, limiter, k)
    ensures Earned(vs, limiter, k) >= 0.0
    ensures Level(vs, k) <= Left(vs, k - 1) + Earned(vs, limiter, k)
            || Earned(vs, limiter, k) >= limiter.capacity as real
  {
    GainIsNonNegative(limiter.rate, Gap(vs, k));
    if vs[k].gone {
      IdleRefills(limiter, Gap(vs, k));
    } else {
      LevelStep(vs, k);
      GainAtMost(vs, limiter, k);
    }
  }

  /** What a harmless visit takes for a limit and leaves for it comes from what it found and
      what the limit adds in the time before. */
  lemma VisitCosts(vs: seq<Visit>, limiter: Limiter, k: nat)
    requires 0 < k < |vs| && Harmless(vs, limiter, k)
    ensures OneIf(vs[k].limiter == limiter && Admits(vs, k)) as real + LeftFor(vs, limiter, k)
            <= LeftFor(vs, limiter, k - 1) + Earned(vs, limiter, k)
  {
    LeftIsBounded(vs, k - 1);
    LeftIsBounded(vs, k);
    LevelEarned(vs, limiter, k);
    LevelPays(vs[k].limiter == limiter, limiter.capacity as real, Level(vs, k), Left(vs, k - 1), Earned(vs, limiter, k));
  }

  /** The limit pays for this many tokens in this time. */
  ghost predicate Pays(limiter: Limiter, tokens: real, time: real) {
    tokens <= limiter.capacity as real + time * limiter.rate
  }

  lemma PaysOn(limiter: Limiter, tokens: real, time: real, gap: real, tokens': real)
    requires Pays(limiter, tokens, time) && tokens' <= tokens + gap * limiter.rate
    ensures Pays(limiter, tokens', time + gap)
  {
    AddScaled(limiter.rate, time, gap);
  }

  lemma {:induction false} CountedAndLeft(vs: seq<Visit>, limiter: Limiter, i: nat, j: nat)
    requires i <= j < |vs| && forall k: nat :: i < k <= j ==> Harmless(vs, limiter, k)
    ensures Pays(limiter, AdmittedBy(vs, limiter, i, j + 1) as real + LeftFor(vs, limiter, j), ForwardTime(vs, i, j))
    decreases j
  {
    var now := OneIf(vs[j].limiter == limiter && Admits(vs, j));
    if i == j {
      LeftIsBounded(vs, i);
      assert AdmittedBy(vs, limiter, i, i + 1) == now;
    } else {
      CountedAndLeft(vs, limiter, i, j - 1);
      VisitCosts(vs, limiter, j);
      var before := AdmittedBy(vs, limiter, i, j);
      assert AdmittedBy(vs, limiter, i, j + 1) == before + now;
      PaysOn(limiter, before as real + LeftFor(vs, limiter, j - 1), ForwardTime(vs, i, j - 1), Gap(vs, j),
             (before + now) as real + LeftFor(vs, limiter, j));
    }
  }

  /** The admissions under a limit stay within it on every stretch of harmless visits. */
  lemma LimitKept(vs: seq<Visit>, limiter: Limiter, i: nat, j: nat)
    requires i <= j < |vs| && forall k: nat :: i < k <= j ==> Harmless(vs, limiter, k)
    ensures Fits(limiter, AdmittedBy(vs, limiter, i, j + 1), ForwardTime(vs, i, j))
  {
    CountedAndLeft(vs, limiter, i, j);
    LeftIsBounded(vs, j);
  }

  // ---------- what sharing breaks ----------

  /** n requests at one instant. */
  function Burst(limiter: Limiter, now: real, n: nat): (vs: seq<Visit>)
    ensures |vs| == n && forall k :: 0 <= k < n ==> vs[k] == Visit(limiter, now, false)
  {
    seq(n, _ => Visit(limiter, now, false))
  }

  lemma FirstIsFull(vs: seq<Visit>)
    requires vs != []
    ensures Level(vs, 0) == Cap(vs, 0)
  {
    assert vs[..0] == [];
  }

  /** A burst takes the tokens one by one. */
  lemma {:induction false} Drains(vs: seq<Visit>, m: nat, tokens: nat, k: nat)
    requires m + k < |vs| && k <= tokens <= vs[m].limiter.capacity
    requires Level(vs, m) == tokens as real
    requires forall r :: m < r <= m + k ==> vs[r] == Visit(vs[m].limiter, vs[m].now, false)
    ensures Level(vs, m + k) == (tokens - k) as real
    decreases k
  {
    if k == 0 {
    } else {
      Drains(vs, m, tokens, k - 1);
      LevelStep(vs, m + k);
    }
  }

  lemma {:induction false} AllCounted(vs: seq<Visit>, limiter: Limiter, i: nat, m: nat, j: nat)
    requires i <= m <= j <= |vs|
    requires forall k: nat :: m <= k < j ==> vs[k].limiter == limiter && Admits(vs, k)
    ensures AdmittedBy(vs, limiter, i, j) == AdmittedBy(vs, limiter, i, m) + (j - m)
    decreases j
  {
    if j == m {
    } else {
      AllCounted(vs, limiter, i, m, j - 1);
    }
  }

  /** The time in which the rate adds half a token. */
  function HalfToken(limiter: Limiter): real {
    1.0 / (2.0 * limiter.rate)
  }

  lemma HalfTokenGain(limiter: Limiter)
    ensures HalfToken(limiter) > 0.0 && HalfToken(limiter) * limiter.rate == 0.5
  {
    var d := 2.0 * limiter.rate;
    assert 1.0 / d * d == 1.0;
    assert HalfToken(limiter) * d == 2.0 * (HalfToken(limiter) * limiter.rate);
  }

  lemma SlowerGainsLess(t: real, rate: real, rate': real)
    requires t > 0.0 && rate < rate'
    ensures t * rate < t * rate'
  {
  }

  /** a spends its bucket; b adds half a token for a at its own rate; a adds the other half,
      or finds the key gone and the bucket full. */
  function Topped(a: Limiter, b: Limiter, gone: bool): seq<Visit> {
    Burst(a, 0.0, a.capacity)
    + [Visit(b, HalfToken(b), false), Visit(a, HalfToken(b) + HalfToken(a), gone)]
  }

  lemma BurstAdmitted(vs: seq<Visit>, m: nat, k: nat)
    requires m <= k < |vs| && k < m + vs[m].limiter.capacity && Level(vs, m) == Cap(vs, m)
    requires forall r :: m < r <= k ==> vs[r] == Visit(vs[m].limiter, vs[m].now, false)
    ensures Admits(vs, k) && Level(vs, k) == (vs[m].limiter.capacity - (k - m)) as real
  {
    Drains(vs, m, vs[m].limiter.capacity, k - m);
  }

  /** Half a token after the last one was taken. */
  lemma HalfTokenLater(vs: seq<Visit>, k: nat, found: real)
    requires 0 < k < |vs| && !vs[k].gone
    requires Left(vs, k - 1) == found && 0.0 <= found <= 0.5
    requires vs[k].now == vs[k - 1].now + HalfToken(vs[k].limiter)
    ensures Level(vs, k) == found + 0.5
  {
    HalfTokenGain(vs[k].limiter);
    LevelStep(vs, k);
  }

  lemma ToppedLevels(a: Limiter, b: Limiter, gone: bool)
    ensures var vs, n := Topped(a, b, gone), a.capacity;
            && (forall k: nat :: k < n ==> Admits(vs, k)) && Admits(vs, n + 1)
  {
    var vs, n := Topped(a, b, gone), a.capacity;
    FirstIsFull(vs);
    forall k: nat | k < n ensures Admits(vs, k) && Level(vs, k) == (n - k) as real {
      BurstAdmitted(vs, 0, k);
    }
    HalfTokenLater(vs, n, 0.0);
    if !gone {
      HalfTokenLater(vs, n + 1, 0.5);
    }
  }

  lemma ToppedTooMany(a: Limiter, b: Limiter)
    requires a.rate < b.rate
    ensures !Fits(a, a.capacity + 1, HalfToken(b) + HalfToken(a))
  {
    HalfTokenGain(a);
    HalfTokenGain(b);
    AddScaled(a.rate, HalfToken(b), HalfToken(a));
    SlowerGainsLess(HalfToken(b), a.rate, b.rate);
  }

  /** A faster route on the same key lets a slower one through beyond its limit. */
  lemma LimitBroken(a: Limiter, b: Limiter, gone: bool)
    requires a.rate < b.rate
    ensures Monotone(Topped(a, b, gone)) && !KeepsLimit(Topped(a, b, gone), a)
  {
    var vs, n := Topped(a, b, gone), a.capacity;
    ToppedLevels(a, b, gone);
    HalfTokenGain(a);
    HalfTokenGain(b);
    AllCounted(vs, a, 0, 0, n);
    assert AdmittedBy(vs, a, 0, n + 1) == n;
    assert AdmittedBy(vs, a, 0, n + 2) == n + 1;
    ForwardTimeSpan(vs, 0, n + 1);
    ToppedTooMany(a, b);
    assert !Fits(a, AdmittedBy(vs, a, 0, n + 2), ForwardTime(vs, 0, n + 1));
  }

  /** The exact condition for one limit on a shared key, while the key lives: no such run
      exceeds it if and only if no limit on the key has a larger rate. With the expiry of the
      script this is not enough (BucketExpiry.ScriptKeepsLimitIff). */
  lemma LimitKeptIff(limiters: set<Limiter>, a: Limiter)
    requires a in limiters
    ensures (forall vs :: OnKey(vs, limiters) ==> KeepsLimit(vs, a))
            <==> forall b :: b in limiters ==> b.rate <= a.rate
  {
    if b :| b in limiters && b.rate > a.rate {
      LimitBroken(a, b, false);
      assert OnKey(Topped(a, b, false), limiters);
    } else {
      forall vs: seq<Visit> | OnKey(vs, limiters) ensures KeepsLimit(vs, a) {
        forall i: nat, j: nat | i <= j < |vs|
          ensures Fits(a, AdmittedBy(vs, a, i, j + 1), ForwardTime(vs, i, j))
        {
          LimitKept(vs, a, i, j);
        }
      }
    }
  }

  /** The requests of a run with these limits. */
  function Own(vs: seq<Visit>, limiter: Limiter): seq<Visit> {
    if vs == [] then []
    else
      var last := vs[|vs| - 1];
      Own(vs[..|vs| - 1], limiter) + (if last.limiter == limiter then [last] else [])
  }

  /** The traffic of every route on the key conforms by itself. */
  ghost predicate EachConforms(vs: seq<Visit>, limiters: set<Limiter>) {
    forall a :: a in limiters ==> Conforms(Own(vs, a))
  }

  lemma {:induction false} OwnOfOne(vs: seq<Visit>, limiter: Limiter, other: Limiter)
    requires OneLimit(vs, limiter)
    ensures Own(vs, other) == if other == limiter then vs else []
  {
    if vs == [] {
    } else {
      OwnOfOne(vs[..|vs| - 1], limiter, other);
    }
  }

  lemma {:induction false} OwnConcat(xs: seq<Visit>, ys: seq<Visit>, limiter: Limiter)
    ensures Own(xs + ys, limiter) == Own(xs, limiter) + Own(ys, limiter)
  {
    if ys == [] {
      assert xs + ys == xs;
    } else {
      assert (xs + ys)[..|xs + ys| - 1] == xs + ys[..|ys| - 1];
      OwnConcat(xs, ys[..|ys| - 1], limiter);
    }
  }

  lemma BurstConforms(limiter: Limiter, n: nat)
    requires n <= limiter.capacity
    ensures Conforms(Burst(limiter, 0.0, n))
  {
    var vs := Burst(limiter, 0.0, n);
    forall i: nat, j: nat | i <= j < |vs| ensures StretchFits(vs, i, j) {
      GainsAtLeast(vs, limiter.rate, i, j);
      ForwardTimeSpan(vs, i, j);
      GainIsNonNegative(limiter.rate, ForwardTime(vs, i, j));
    }
  }

  /** One request with the smaller capacity first: it cuts the bucket down to that. */
  lemma OneRequestCutsTheBucket(a: Limiter, b: Limiter) returns (vs: seq<Visit>)
    requires a != b && a.capacity <= b.capacity
    ensures vs == Burst(a, 0.0, 1) + Burst(b, 0.0, a.capacity) && OnKey(vs, {a, b})
    ensures forall c :: Conforms(Own(vs, c))
    ensures !AllAdmitted(vs)
  {
    var n := a.capacity;
    var first, second := Burst(a, 0.0, 1), Burst(b, 0.0, n);
    vs := first + second;
    forall c: Limiter ensures Conforms(Own(vs, c)) {
      OwnConcat(first, second, c);
      OwnOfOne(first, a, c);
      OwnOfOne(second, b, c);
      assert Own(vs, c) == if c == a then first else if c == b then second else [];
      BurstConforms(a, 1);
      BurstConforms(b, n);
    }
    FirstIsFull(vs);
    LevelStep(vs, 1);
    Drains(vs, 1, n - 1, n - 1);
    assert !Admits(vs, n);
  }

  lemma OneLimitServesOwn(vs: seq<Visit>, limiters: set<Limiter>)
    requires forall k :: 0 <= k < |vs| ==> vs[k].limiter in limiters
    requires forall a, b :: a in limiters && b in limiters ==> a == b
    requires EachConforms(vs, limiters)
    ensures Conforms(vs)
  {
    if vs != [] {
      OwnOfOne(vs, vs[0].limiter, vs[0].limiter);
    }
  }

  /** That a route whose own traffic conforms is never rejected holds for a living key if and
      only if one limit reaches it. */
  lemma OwnTrafficServedIff(limiters: set<Limiter>)
    ensures (forall vs :: OnKey(vs, limiters) && EachConforms(vs, limiters) ==> AllAdmitted(vs))
            <==> forall a, b :: a in limiters && b in limiters ==> a == b
  {
    if a, b :| a in limiters && b in limiters && a.capacity <= b.capacity && a != b {
      var vs := OneRequestCutsTheBucket(a, b);
      assert OnKey(vs, limiters) && EachConforms(vs, limiters);
    } else {
      forall vs: seq<Visit> | OnKey(vs, limiters) && EachConforms(vs, limiters) ensures AllAdmitted(vs) {
        OneLimitServesOwn(vs, limiters);
        ConformingIsAdmitted(vs);
      }
    }
  }
}
