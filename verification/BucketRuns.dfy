/** What the token bucket admits over runs. Every request of a run brings its own limits,
    because routes with different limits can share a key. */
module BucketRuns {
  import opened Wrappers
  import opened TokenBucket

  /** A request of a route with these limits, at time now; gone says that the key disappeared
      since the previous one. */
  datatype Visit = Visit(limiter: Limiter, now: real, gone: bool)

  /** The bucket after all visits; None before the first. */
  function After(vs: seq<Visit>): Option<Bucket>
    decreases |vs|, 1
  {
    if vs == [] then None
    else
      var last := vs[|vs| - 1];
      Some(Taken(last.limiter, Found(vs, |vs| - 1), last.now))
  }

  /** The bucket that visit i finds. */
  function Found(vs: seq<Visit>, i: nat): Option<Bucket>
    requires i < |vs|
    decreases i, 2
  {
    if vs[i].gone then None else After(vs[..i])
  }

  /** Tokens that visit i finds. */
  function Level(vs: seq<Visit>, i: nat): real
    requires i < |vs|
  {
    Refilled(vs[i].limiter, Found(vs, i), vs[i].now)
  }

  predicate Admits(vs: seq<Visit>, i: nat)
    requires i < |vs|
  {
    Level(vs, i) >= 1.0
  }

  ghost predicate AllAdmitted(vs: seq<Visit>) {
    forall i :: 0 <= i < |vs| ==> Admits(vs, i)
  }

  function Levels(vs: seq<Visit>): seq<real> {
    seq(|vs|, i requires 0 <= i < |vs| => Level(vs, i))
  }

  /** The bucket size of visit i. */
  function Cap(vs: seq<Visit>, i: nat): real
    requires i < |vs|
  {
    vs[i].limiter.capacity as real
  }

  /** Forward movement of the request clock between visit i - 1 and visit i. */
  function Gap(vs: seq<Visit>, i: nat): real
    requires i < |vs|
  {
    if i == 0 then 0.0 else Max(0.0, vs[i].now - vs[i - 1].now)
  }

  /** Tokens that visit i adds for the time since visit i - 1, at its own rate. */
  function Gain(vs: seq<Visit>, i: nat): real
    requires i < |vs|
  {
    Gap(vs, i) * vs[i].limiter.rate
  }

  function Gains(vs: seq<Visit>): seq<real> {
    seq(|vs|, i requires 0 <= i < |vs| => Gain(vs, i))
  }

  /** How many of the visits i, ..., j - 1 found a token, and so were admitted. */
  function Admitted(levels: seq<real>, i: nat, j: nat): nat
    requires i <= j <= |levels|
    decreases j
  {
    if i == j then 0 else Admitted(levels, i, j - 1) + (if levels[j - 1] >= 1.0 then 1 else 0)
  }

  /** xs[i + 1] + ... + xs[j]. */
  function Sum(xs: seq<real>, i: nat, j: nat): real
    requires i <= j < |xs|
    decreases j
  {
    if i == j then 0.0 else Sum(xs, i, j - 1) + xs[j]
  }

  /** No key is lost after visit i, up to visit j. */
  ghost predicate KeyLives(vs: seq<Visit>, i: nat, j: nat)
    requires i <= j < |vs|
  {
    forall k :: i < k <= j ==> !vs[k].gone
  }

  ghost predicate KeyKept(vs: seq<Visit>) {
    forall k :: 0 < k < |vs| ==> !vs[k].gone
  }

  // ---------- levels as a recurrence ----------

  /** Visit k: full at the start and when the key is gone; otherwise one less for an admission
      before it, then more by the gain, up to the bucket size of this visit. */
  ghost predicate FlowsAt(levels: seq<real>, gains: seq<real>, vs: seq<Visit>, k: nat)
    requires |levels| == |gains| == |vs| && k < |vs|
  {
    && Cap(vs, k) >= 1.0 && gains[k] >= 0.0
    && levels[k] == if k == 0 || vs[k].gone then Cap(vs, k)
                    else Min(Cap(vs, k), levels[k - 1] - (if levels[k - 1] >= 1.0 then 1.0 else 0.0) + gains[k])
  }

  ghost predicate IsFlow(levels: seq<real>, gains: seq<real>, vs: seq<Visit>) {
    && |levels| == |gains| == |vs|
    && (forall k: nat :: k < |vs| ==> FlowsAt(levels, gains, vs, k))
  }

  lemma GainIsNonNegative(rate: real, d: real)
    requires rate > 0.0 && d >= 0.0
    ensures d * rate >= 0.0
  {
  }

  lemma LevelStep(vs: seq<Visit>, k: nat)
    requires 0 < k < |vs| && !vs[k].gone
    ensures var left := Level(vs, k - 1) - (if Admits(vs, k - 1) then 1.0 else 0.0);
            Level(vs, k) == Min(Cap(vs, k), left + Gain(vs, k))
  {
    var before := vs[..k];
    assert before[|before| - 1] == vs[k - 1] && before[..k - 1] == vs[..k - 1];
    assert Found(before, k - 1) == Found(vs, k - 1);
    assert Found(vs, k) == Some(Taken(vs[k - 1].limiter, Found(vs, k - 1), vs[k - 1].now));
  }

  lemma LevelFlowsAt(vs: seq<Visit>, k: nat)
    requires k < |vs|
    ensures FlowsAt(Levels(vs), Gains(vs), vs, k)
  {
    GainIsNonNegative(vs[k].limiter.rate, Gap(vs, k));
    if k == 0 {
      assert vs[..0] == [];
    } else if !vs[k].gone {
      LevelStep(vs, k);
    }
  }

  lemma LevelsFlow(vs: seq<Visit>)
    ensures IsFlow(Levels(vs), Gains(vs), vs)
  {
    var levels, gains := Levels(vs), Gains(vs);
    forall k: nat | k < |vs| ensures FlowsAt(levels, gains, vs, k) {
      LevelFlowsAt(vs, k);
    }
  }

  // ---------- bounds ----------

  lemma {:induction false} FlowBounded(levels: seq<real>, gains: seq<real>, vs: seq<Visit>, k: nat)
    requires IsFlow(levels, gains, vs) && k < |levels|
    ensures 0.0 <= levels[k] <= Cap(vs, k)
    decreases k
  {
    assert FlowsAt(levels, gains, vs, k);
    if k == 0 {
    } else {
      FlowBounded(levels, gains, vs, k - 1);
    }
  }

  /** The stored tokens stay between 0 and the bucket size of the last visit, whichever way
      the clocks jump. */
  lemma TokensBounded(vs: seq<Visit>)
    requires vs != []
    ensures After(vs).Some? && 0.0 <= After(vs).value.tokens <= Cap(vs, |vs| - 1)
  {
    LevelsFlow(vs);
    FlowBounded(Levels(vs), Gains(vs), vs, |vs| - 1);
    assert Levels(vs)[|vs| - 1] == Refilled(vs[|vs| - 1].limiter, Found(vs, |vs| - 1), vs[|vs| - 1].now);
  }

  lemma {:induction false} AdmittedAtMost(levels: seq<real>, i: nat, j: nat)
    requires i <= j <= |levels|
    ensures Admitted(levels, i, j) <= j - i
    ensures Admitted(levels, i, j) == j - i <==> forall k :: i <= k < j ==> levels[k] >= 1.0
    decreases j
  {
    if i == j {
    } else {
      AdmittedAtMost(levels, i, j - 1);
    }
  }

  lemma {:induction false} Budget(levels: seq<real>, gains: seq<real>, vs: seq<Visit>, i: nat, j: nat)
    requires IsFlow(levels, gains, vs) && i <= j < |vs| && KeyLives(vs, i, j)
    ensures levels[j] + Admitted(levels, i, j) as real <= levels[i] + Sum(gains, i, j)
    decreases j
  {
    if i == j {
    } else {
      assert FlowsAt(levels, gains, vs, j);
      Budget(levels, gains, vs, i, j - 1);
    }
  }

  /** Never too many: while the key lives, visits i, ..., j admit at most the bucket size of
      the first plus all gains after it, each at the rate of the request that adds it. */
  lemma NeverTooMany(vs: seq<Visit>, i: nat, j: nat)
    requires i <= j < |vs| && KeyLives(vs, i, j)
    ensures Admitted(Levels(vs), i, j + 1) as real <= Cap(vs, i) + Sum(Gains(vs), i, j)
  {
    LevelsFlow(vs);
    Budget(Levels(vs), Gains(vs), vs, i, j);
    FlowBounded(Levels(vs), Gains(vs), vs, i);
    FlowBounded(Levels(vs), Gains(vs), vs, j);
  }

  /** The last visit that found the bucket full; since then no key and no token was lost. */
  lemma {:induction false} LastFull(levels: seq<real>, gains: seq<real>, vs: seq<Visit>, j: nat) returns (i: nat)
    requires IsFlow(levels, gains, vs) && j < |vs|
    ensures i <= j && levels[i] == Cap(vs, i) && KeyLives(vs, i, j)
    ensures levels[j] == Cap(vs, i) - Admitted(levels, i, j) as real + Sum(gains, i, j)
    decreases j
  {
    assert FlowsAt(levels, gains, vs, j);
    if levels[j] == Cap(vs, j) {
      i := j;
    } else {
      i := LastFull(levels, gains, vs, j - 1);
      assert !vs[j].gone;
    }
  }

  /** Never without cause: a rejected visit j has an earlier visit i that found its bucket
      full, no key was lost since, and the admissions since i leave less than one token of
      that bucket and of all gains since. This holds however the clocks jump. */
  lemma RejectionIsJustified(vs: seq<Visit>, j: nat) returns (i: nat)
    requires j < |vs| && !Admits(vs, j)
    ensures i < j && Level(vs, i) == Cap(vs, i) && KeyLives(vs, i, j)
    ensures Admitted(Levels(vs), i, j) as real > Cap(vs, i) + Sum(Gains(vs), i, j) - 1.0
  {
    var levels := Levels(vs);
    LevelsFlow(vs);
    assert levels[j] < 1.0;
    i := LastFull(levels, Gains(vs), vs, j);
    assert levels[i] == Level(vs, i);
    assert FlowsAt(levels, Gains(vs), vs, i);
  }

  // ---------- conforming traffic ----------

  /** The visits i, ..., j are no more than the bucket of the first and the gains after it. */
  ghost predicate StretchFits(vs: seq<Visit>, i: nat, j: nat)
    requires i <= j < |vs|
  {
    (j - i + 1) as real <= Cap(vs, i) + Sum(Gains(vs), i, j)
  }

  ghost predicate Conforms(vs: seq<Visit>) {
    forall i: nat, j: nat :: i <= j < |vs| ==> StretchFits(vs, i, j)
  }

  /** Every stretch fits in which no key is lost. */
  ghost predicate EachLifeConforms(vs: seq<Visit>) {
    forall i: nat, j: nat :: i <= j < |vs| && KeyLives(vs, i, j) ==> StretchFits(vs, i, j)
  }

  lemma RejectedDoesNotFit(vs: seq<Visit>, j: nat) returns (i: nat)
    requires j < |vs| && !Admits(vs, j)
    ensures i < j && KeyLives(vs, i, j) && !StretchFits(vs, i, j)
  {
    i := RejectionIsJustified(vs, j);
    AdmittedAtMost(Levels(vs), i, j);
  }

  lemma AdmittedStretchFits(vs: seq<Visit>, i: nat, j: nat)
    requires AllAdmitted(vs) && i <= j < |vs| && KeyLives(vs, i, j)
    ensures StretchFits(vs, i, j)
  {
    var levels := Levels(vs);
    NeverTooMany(vs, i, j);
    forall k | i <= k < j + 1 ensures levels[k] >= 1.0 {
      assert Admits(vs, k);
    }
    AdmittedAtMost(levels, i, j + 1);
  }

  /** The exact guarantee, for every run: no request is rejected if and only if the traffic
      conforms in each life of the key, whatever limits share it, whenever the key is lost and
      however the clocks jump. */
  lemma AllAdmittedIff(vs: seq<Visit>)
    ensures AllAdmitted(vs) <==> EachLifeConforms(vs)
  {
    if EachLifeConforms(vs) {
      forall j | 0 <= j < |vs| ensures Admits(vs, j) {
        if !Admits(vs, j) {
          var i := RejectedDoesNotFit(vs, j);
          assert false;
        }
      }
    }
    if AllAdmitted(vs) {
      forall i: nat, j: nat | i <= j < |vs| && KeyLives(vs, i, j) ensures StretchFits(vs, i, j) {
        AdmittedStretchFits(vs, i, j);
      }
    }
  }

  /** Traffic that conforms on every stretch is never rejected, and while the key lives, no
      other traffic is admitted in full. */
  lemma ConformingIsAdmitted(vs: seq<Visit>)
    ensures Conforms(vs) ==> AllAdmitted(vs)
    ensures KeyKept(vs) && AllAdmitted(vs) ==> Conforms(vs)
  {
    AllAdmittedIff(vs);
    if KeyKept(vs) {
      assert forall i: nat, j: nat :: i <= j < |vs| ==> KeyLives(vs, i, j);
    }
  }
}
