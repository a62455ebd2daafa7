/** The retry loop of the HTTP reverse proxy. */
module RetryProxy {

  /** What one upstream attempt ends with; Other is an exception the loop does not catch. */
  datatype Attempt = Response(status: int) | Timeout | ConnectError | Other

  /** What the loop returns or raises; Exhausted is the error raised after the loop. */
  datatype Outcome = Of(attempt: Attempt) | Exhausted

  datatype RetryConfig = RetryConfig(count: int, backoff: real, statusCodes: seq<int>)

  /** An outcome the loop hands on at once. */
  predicate Final(cfg: RetryConfig, a: Attempt) {
    match a
    case Response(status) => status !in cfg.statusCodes
    case Timeout => false
    case ConnectError => false
    case Other => true
  }

  /** Index of the attempt whose outcome is handed on: the first final one, but at most count. */
  function Decisive(cfg: RetryConfig, upstream: nat -> Attempt, k: nat): nat
    requires k <= cfg.count
    decreases cfg.count - k
  {
    if Final(cfg, upstream(k)) || k == cfg.count then k else Decisive(cfg, upstream, k + 1)
  }

  function Pow2(n: nat): real {
    if n == 0 then 1.0 else 2.0 * Pow2(n - 1)
  }

  function Total(sleeps: seq<real>): real {
    if sleeps == [] then 0.0 else Total(sleeps[..|sleeps| - 1]) + sleeps[|sleeps| - 1]
  }

  function Wait(backoff: real, attempt: nat): real {
    backoff * Pow2(attempt)
  }

  /** The waits of the first k retries. */
  function Waits(backoff: real, k: nat): seq<real> {
    seq(k, i requires 0 <= i < k => Wait(backoff, i))
  }

  /** upstream(i) is what attempt i would end with. The waits are recorded in order. */
  method SendWithRetry(cfg: RetryConfig, upstream: nat -> Attempt)
    returns (outcome: Outcome, attempts: nat, sleeps: seq<real>)
    ensures cfg.count >= 0 ==>
              && var k := Decisive(cfg, upstream, 0);
              && outcome == Of(upstream(k))
              && attempts == k + 1
              && sleeps == Waits(cfg.backoff, k)
    ensures cfg.count < 0 ==> outcome == Exhausted && attempts == 0 && sleeps == []
    ensures outcome == Exhausted <==> cfg.count < 0
    ensures cfg.count >= 0 && upstream(0).Response? && upstream(0).status !in cfg.statusCodes ==>
              attempts == 1 && sleeps == [] && outcome == Of(upstream(0))
  {
    outcome, attempts, sleeps := Exhausted, 0, [];
    var last: Outcome := Exhausted;
    var attempt := 0;
    while attempt < cfg.count + 1
      invariant 0 <= attempt && (cfg.count >= 0 ==> attempt <= cfg.count)
      invariant attempts == attempt
      invariant cfg.count >= 0 ==> Decisive(cfg, upstream, 0) == Decisive(cfg, upstream, attempt)
      invariant sleeps == Waits(cfg.backoff, attempt)
      invariant cfg.count < 0 ==> last == Exhausted && attempt == 0
      decreases cfg.count + 1 - attempt
    {
      var a := upstream(attempt);
      attempts := attempts + 1;
      match a {
        case Response(status) =>
          if status !in cfg.statusCodes || attempt == cfg.count {
            return Of(a), attempts, sleeps;
          }
        case Other =>
          return Of(a), attempts, sleeps;
        case _ =>
          last := Of(a);
          if attempt == cfg.count {
            break;
          }
      }
      sleeps := sleeps + [Wait(cfg.backoff, attempt)];
      attempt := attempt + 1;
    }
    outcome := last;
  }

  /** The decisive attempt is the first final one among the count + 1, or else the last. */
  lemma {:induction false} DecisiveIsFirstFinal(cfg: RetryConfig, upstream: nat -> Attempt, k: nat)
    requires k <= cfg.count
    ensures var d := Decisive(cfg, upstream, k);
            && k <= d <= cfg.count
            && (forall i: nat :: k <= i < d ==> !Final(cfg, upstream(i)))
            && (Final(cfg, upstream(d)) || d == cfg.count)
    decreases cfg.count - k
  {
    if Final(cfg, upstream(k)) || k >= cfg.count {
    } else {
      DecisiveIsFirstFinal(cfg, upstream, k + 1);
    }
  }

  /** Exactly one attempt index meets that description, so it determines the outcome. */
  lemma DecisiveIsUnique(cfg: RetryConfig, upstream: nat -> Attempt, d: nat)
    requires d <= cfg.count && (Final(cfg, upstream(d)) || d == cfg.count)
    requires forall i: nat :: i < d ==> !Final(cfg, upstream(i))
    ensures Decisive(cfg, upstream, 0) == d
  {
    DecisiveIsFirstFinal(cfg, upstream, 0);
  }

  /** Which attempt is the last, in terms of what the attempts end with: one that gets a response
      with a status that is not to be retried, or an exception the loop does not catch, or else
      attempt count; and all before it time out, fail to connect, or get a status to be retried. */
  lemma LastAttemptIff(cfg: RetryConfig, upstream: nat -> Attempt, k: nat)
    requires k <= cfg.count
    ensures Decisive(cfg, upstream, 0) == k <==>
            && (k == cfg.count || upstream(k).Other? || (upstream(k).Response? && upstream(k).status !in cfg.statusCodes))
            && forall i: nat :: i < k ==>
                 || upstream(i).Timeout? || upstream(i).ConnectError?
                 || (upstream(i).Response? && upstream(i).status in cfg.statusCodes)
  {
    DecisiveIsFirstFinal(cfg, upstream, 0);
    if Decisive(cfg, upstream, 0) == k {
      forall i: nat | i < k
        ensures || upstream(i).Timeout? || upstream(i).ConnectError?
                || (upstream(i).Response? && upstream(i).status in cfg.statusCodes)
      {
        assert !Final(cfg, upstream(i));
      }
    } else if forall i: nat :: i < k ==> !Final(cfg, upstream(i)) {
      if k == cfg.count || Final(cfg, upstream(k)) {
        DecisiveIsUnique(cfg, upstream, k);
      }
    }
  }

  lemma AddWait(backoff: real, p: real, total: real)
    requires total == backoff * (p - 1.0)
    ensures total + backoff * p == backoff * (2.0 * p - 1.0)
  {
  }

  /** With k + 1 attempts the loop sleeps backoff * (2^k - 1) in total: the waits double and
      none follows the last attempt. */
  lemma {:induction false} TotalWait(backoff: real, k: nat)
    ensures Total(Waits(backoff, k)) == backoff * (Pow2(k) - 1.0)
    decreases k
  {
    if k == 0 {
    } else {
      TotalWait(backoff, k - 1);
      var waits := Waits(backoff, k);
      assert waits[..|waits| - 1] == Waits(backoff, k - 1);
      AddWait(backoff, Pow2(k - 1), Total(Waits(backoff, k - 1)));
    }
  }

  // ---------- what the client sees ----------

  /** The status the proxy answers with; None is an exception it does not catch. */
  datatype Answer = Status(code: int) | Exception

  function AnswerOf(o: Outcome): Answer {
    match o
    case Of(Response(status)) => Status(status)
    case Of(Timeout) => Status(504)
    case Of(ConnectError) => Status(502)
    case _ => Exception
  }

  /** The proxy around the loop: the response of the last attempt, 504 for a time-out, 502 for a
      failed connection; other exceptions, also the one of an empty loop, pass through. */
  method Forward(cfg: RetryConfig, upstream: nat -> Attempt) returns (answer: Answer)
    ensures cfg.count < 0 ==> answer == Exception
    ensures cfg.count >= 0 ==>
              var last := upstream(Decisive(cfg, upstream, 0));
              && (last.Response? ==> answer == Status(last.status))
              && (last.Timeout? ==> answer == Status(504))
              && (last.ConnectError? ==> answer == Status(502))
              && (last.Other? ==> answer == Exception)
              && answer == AnswerOf(Of(last))
  {
    var outcome, _, _ := SendWithRetry(cfg, upstream);
    match outcome {
      case Of(Response(status)) => answer := Status(status);
      case Of(Timeout) => answer := Status(504);
      case Of(ConnectError) => answer := Status(502);
      case _ => answer := Exception;
    }
  }

  /** A retry never turns a success into a failure: the client sees a retryable status only
      after count + 1 attempts that all timed out, failed to connect or got such a status. */
  lemma RetryableStatusMeansAllFailed(cfg: RetryConfig, upstream: nat -> Attempt)
    requires cfg.count >= 0
    requires AnswerOf(Of(upstream(Decisive(cfg, upstream, 0)))).Status?
    requires var d := Decisive(cfg, upstream, 0);
             !upstream(d).Response? || upstream(d).status in cfg.statusCodes
    ensures Decisive(cfg, upstream, 0) == cfg.count
    ensures forall i: nat :: i <= cfg.count ==>
              || upstream(i).Timeout? || upstream(i).ConnectError?
              || (upstream(i).Response? && upstream(i).status in cfg.statusCodes)
  {
    DecisiveIsFirstFinal(cfg, upstream, 0);
    LastAttemptIff(cfg, upstream, Decisive(cfg, upstream, 0));
  }
}
