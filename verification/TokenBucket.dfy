/** The token bucket of the rate limiter: the Redis script, its keys and the plugin. */
module TokenBucket {
  import opened Wrappers

  /** The arguments a limiter passes to the script. */
  datatype Limits = Limits(capacity: int, rate: real)

  type Limiter = l: Limits | l.capacity >= 1 && l.rate > 0.0 witness Limits(1, 1.0)

  datatype Bucket = Bucket(tokens: real, lastRefill: real)

  /** A bucket as Redis stores it, with the time at which the key expires. */
  datatype Stored = Stored(bucket: Bucket, deadline: real)

  function Max(a: real, b: real): real { if a >= b then a else b }

  function Min(a: real, b: real): real { if a <= b then a else b }

  function Ceil(x: real): int { -((-x).Floor) }

  /** Seconds the rate needs to fill the bucket. */
  function RefillTime(limiter: Limiter): real {
    limiter.capacity as real / limiter.rate
  }

  /** Seconds the script keeps the key. */
  function TimeToLive(limiter: Limiter): int {
    Ceil(RefillTime(limiter)) + 2
  }

  /** Tokens a request finds at time now, before it takes one. */
  function Refilled(limiter: Limiter, b: Option<Bucket>, now: real): real {
    if b.None? then limiter.capacity as real
    else Min(limiter.capacity as real, b.value.tokens + Max(0.0, now - b.value.lastRefill) * limiter.rate)
  }

  predicate Admit(limiter: Limiter, b: Option<Bucket>, now: real) {
    Refilled(limiter, b, now) >= 1.0
  }

  function Taken(limiter: Limiter, b: Option<Bucket>, now: real): Bucket {
    Bucket(Refilled(limiter, b, now) - (if Admit(limiter, b, now) then 1.0 else 0.0), now)
  }

  /** A stored bucket as a command at the server's clock finds it. */
  function LiveBucket(st: Option<Stored>, clock: real): Option<Bucket> {
    if st.Some? && clock < st.value.deadline then Some(st.value.bucket) else None
  }

  /** What the script leaves under the key. */
  function Store(limiter: Limiter, b: Option<Bucket>, now: real, clock: real): Stored {
    Stored(Taken(limiter, b, now), clock + TimeToLive(limiter) as real)
  }

  /** The Redis side: one stored bucket per rate-limit key, and the server's clock. */
  class BucketStore {
    var buckets: map<string, Stored>
    var clock: real

    function Live(key: string): Option<Bucket>
      reads this
    {
      LiveBucket(if key in buckets then Some(buckets[key]) else None, clock)
    }

    constructor (clock: real)
      ensures buckets == map[] && this.clock == clock
    {
      buckets, this.clock := map[], clock;
    }

    /** The script; it runs atomically. The clock of the request may differ from the server's. */
    method EvalScript(key: string, limiter: Limiter, now: real) returns (allowed: bool)
      modifies this`buckets
      ensures allowed == Admit(limiter, old(Live(key)), now)
      ensures buckets == old(buckets)[key := Store(limiter, old(Live(key)), now, clock)]
    {
      var bucket := Live(key);
      var tokens, lastRefill;
      if bucket.None? {
        tokens := limiter.capacity as real;
        lastRefill := now;
      } else {
        tokens, lastRefill := bucket.value.tokens, bucket.value.lastRefill;
        var elapsed := Max(0.0, now - lastRefill);
        tokens := Min(limiter.capacity as real, tokens + elapsed * limiter.rate);
      }
      assert tokens == Refilled(limiter, bucket, now);
      allowed := false;
      if tokens >= 1.0 {
        tokens := tokens - 1.0;
        allowed := true;
      }
      buckets := buckets[key := Stored(Bucket(tokens, now), clock + TimeToLive(limiter) as real)];
    }
  }

  // ---------- keys ----------

  /** White space among the characters a header can hold. */
  predicate IsSpace(c: char) {
    '\t' <= c <= '\r' || '\U{1c}' <= c <= ' ' || c == '\U{85}' || c == '\U{a0}'
  }

  function BeforeComma(s: string): string {
    if s == "" || s[0] == ',' then "" else [s[0]] + BeforeComma(s[1..])
  }

  function StripLeft(s: string): string {
    if s != "" && IsSpace(s[0]) then StripLeft(s[1..]) else s
  }

  function StripRight(s: string): string {
    if s != "" && IsSpace(s[|s| - 1]) then StripRight(s[..|s| - 1]) else s
  }

  /** The address of the client: the first entry of X-Forwarded-For, or else the peer. */
  function ClientAddress(forwardedFor: string, host: Option<string>): string {
    if forwardedFor != "" then StripRight(StripLeft(BeforeComma(forwardedFor)))
    else if host.Some? then host.value else "unknown"
  }

  ghost predicate AllSpaces(s: string) {
    forall i :: 0 <= i < |s| ==> IsSpace(s[i])
  }

  /** The characters that Python strips from a header: white space among the first 256. */
  ghost predicate IsWhite(c: char) {
    c in "\t\n\U{b}\U{c}\r\U{1c}\U{1d}\U{1e}\U{1f} \U{85}\U{a0}"
  }

  lemma SpaceIffWhite(c: char)
    ensures IsSpace(c) <==> IsWhite(c)
  {
    var all := "\t\n\U{b}\U{c}\r\U{1c}\U{1d}\U{1e}\U{1f} \U{85}\U{a0}";
    assert all[0] == '\t' && all[1] == '\n' && all[2] == '\U{b}' && all[3] == '\U{c}' && all[4] == '\r';
    assert all[5] == '\U{1c}' && all[6] == '\U{1d}' && all[7] == '\U{1e}' && all[8] == '\U{1f}' && all[9] == ' ';
    assert all[10] == '\U{85}' && all[11] == '\U{a0}';
  }

  /** The first entry of a header: what stands before the first comma, without the white space around it. */
  ghost predicate IsFirstEntry(entry: string, before: string, after: string, rest: string, header: string) {
    && header == before + entry + after + rest
    && (forall c :: c in before || c in after ==> IsWhite(c)) && ',' !in entry
    && (entry != "" ==> !IsWhite(entry[0]) && !IsWhite(entry[|entry| - 1]))
    && (rest != "" ==> rest[0] == ',')
  }

  lemma {:induction false} BeforeCommaCuts(s: string) returns (rest: string)
    ensures s == BeforeComma(s) + rest && ',' !in BeforeComma(s) && (rest != "" ==> rest[0] == ',')
  {
    if s == "" || s[0] == ',' {
      rest := s;
    } else {
      rest := BeforeCommaCuts(s[1..]);
    }
  }

  lemma SpacesJoin(xs: string, ys: string)
    requires AllSpaces(xs) && AllSpaces(ys)
    ensures AllSpaces(xs + ys)
  {
  }

  lemma {:induction false} StripLeftCuts(s: string) returns (cut: string)
    ensures s == cut + StripLeft(s) && AllSpaces(cut)
    ensures StripLeft(s) != "" ==> !IsSpace(StripLeft(s)[0])
  {
    if s != "" && IsSpace(s[0]) {
      var more := StripLeftCuts(s[1..]);
      SpacesJoin([s[0]], more);
      cut := [s[0]] + more;
    } else {
      cut := "";
    }
  }

  lemma {:induction false} StripRightCuts(s: string) returns (cut: string)
    ensures s == StripRight(s) + cut && AllSpaces(cut)
    ensures StripRight(s) != "" ==> !IsSpace(StripRight(s)[|StripRight(s)| - 1]) && StripRight(s)[0] == s[0]
  {
    if s != "" && IsSpace(s[|s| - 1]) {
      var more := StripRightCuts(s[..|s| - 1]);
      SpacesJoin(more, [s[|s| - 1]]);
      cut := more + [s[|s| - 1]];
    } else {
      cut := "";
    }
  }

  lemma SplitJoins(header: string, first: string, before: string, left: string,
                   entry: string, after: string, rest: string)
    requires header == first + rest && first == before + left && left == entry + after
    requires ',' !in first
    ensures header == before + entry + after + rest && ',' !in entry
  {
    assert before + (entry + after) + rest == before + entry + after + rest;
    assert entry <= left;
    assert ',' !in left;
  }

  lemma ClientAddressIsFirstEntry(header: string, host: Option<string>)
    returns (before: string, after: string, rest: string)
    requires header != ""
    ensures IsFirstEntry(ClientAddress(header, host), before, after, rest, header)
  {
    var first := BeforeComma(header);
    var entry := ClientAddress(header, host);
    rest := BeforeCommaCuts(header);
    before := StripLeftCuts(first);
    after := StripRightCuts(StripLeft(first));
    SplitJoins(header, first, before, StripLeft(first), entry, after, rest);
    forall c ensures IsSpace(c) <==> IsWhite(c) {
      SpaceIffWhite(c);
    }
  }

  /** The rate-limit key of a request: by user, by API key, or by client address. A user key
      falls back to the address, an API key to a shared anonymous one. The key holds neither
      the route nor its limit. */
  function ResolveKey(keyFunc: string, principal: string, ip: string): string {
    if keyFunc == "user" then
      (if principal != "" then "ratelimit:user:" + principal else "ratelimit:ip:" + ip)
    else if keyFunc == "api_key" then
      "ratelimit:apikey:" + (if principal != "" then principal else "anonymous")
    else "ratelimit:ip:" + ip
  }

  /** A request as the limiter of its route sees it. */
  datatype Caller = Caller(keyFunc: string, principal: string, forwardedFor: string, host: Option<string>) {
    function Key(): string {
      ResolveKey(keyFunc, principal, ClientAddress(forwardedFor, host))
    }
  }

  lemma SameTail(prefix: string, a: string, b: string)
    ensures prefix + a == prefix + b <==> a == b
  {
    assert a == (prefix + a)[|prefix|..] && b == (prefix + b)[|prefix|..];
  }

  lemma OtherPrefix(prefix: string, a: string, prefix': string, b: string, i: nat)
    requires i < |prefix| && i < |prefix'| && prefix[i] != prefix'[i]
    ensures prefix + a != prefix' + b
  {
    assert (prefix + a)[i] != (prefix' + b)[i];
  }

  /** Two requests, of whatever routes, share a bucket exactly if both go by user and have the
      same one; or both by API key and have the same one, where no key is the one called
      anonymous; or both by address, as every other request does, and have the same one. The
      limits of the routes play no part. */
  lemma SharedBucketIff(q: Caller, q': Caller)
    ensures q.Key() == q'.Key() <==>
            if q.keyFunc == "user" && q.principal != "" then
              q'.keyFunc == "user" && q'.principal == q.principal
            else if q.keyFunc == "api_key" then
              q'.keyFunc == "api_key" && (q'.principal == q.principal || {q.principal, q'.principal} == {"", "anonymous"})
            else
              && !(q'.keyFunc == "user" && q'.principal != "") && q'.keyFunc != "api_key"
              && ClientAddress(q.forwardedFor, q.host) == ClientAddress(q'.forwardedFor, q'.host)
  {
    var ip, ip' := ClientAddress(q.forwardedFor, q.host), ClientAddress(q'.forwardedFor, q'.host);
    var name := if q.principal != "" then q.principal else "anonymous";
    var name' := if q'.principal != "" then q'.principal else "anonymous";
    SameTail("ratelimit:user:", q.principal, q'.principal);
    SameTail("ratelimit:apikey:", name, name');
    SameTail("ratelimit:ip:", ip, ip');
    OtherPrefix("ratelimit:user:", q.principal, "ratelimit:apikey:", name', 10);
    OtherPrefix("ratelimit:user:", q.principal, "ratelimit:ip:", ip', 10);
    OtherPrefix("ratelimit:apikey:", name, "ratelimit:user:", q'.principal, 10);
    OtherPrefix("ratelimit:apikey:", name, "ratelimit:ip:", ip', 10);
    OtherPrefix("ratelimit:ip:", ip, "ratelimit:user:", q'.principal, 10);
    OtherPrefix("ratelimit:ip:", ip, "ratelimit:apikey:", name', 10);
  }

  /** Requests by address that come without X-Forwarded-For share a bucket exactly if their
      peers are the same, where an absent peer is one called unknown; and one with the header
      shares it with those whose peer is its first entry. */
  lemma DirectPeersShareIff(q: Caller, q': Caller)
    requires q.keyFunc != "api_key" && (q.keyFunc == "user" ==> q.principal == "") && q.forwardedFor == ""
    requires q'.keyFunc != "api_key" && (q'.keyFunc == "user" ==> q'.principal == "")
    ensures q'.forwardedFor == "" ==>
              (q.Key() == q'.Key() <==> q.host == q'.host || {q.host, q'.host} == {None, Some("unknown")})
    ensures q'.forwardedFor != "" ==>
              (q.Key() == q'.Key() <==>
                 ClientAddress(q'.forwardedFor, q'.host) == if q.host.Some? then q.host.value else "unknown")
  {
    SharedBucketIff(q, q');
  }

  // ---------- the plugin ----------

  datatype Verdict = TooManyRequests(retryAfter: int) | Forward

  /** How the call to Redis ends; a reply can be lost after the script ran. */
  datatype Redis = Works | FailsBefore | FailsAfter

  class RateLimiterPlugin {
    var limit: int
    var window: int
    var keyFunc: string
    var rate: real

    ghost predicate Configured()
      reads this
    {
      limit >= 1 && window >= 1 && rate > 0.0 && rate == limit as real / window as real
    }

    method Configure(limit: int, window: int, keyFunc: string)
      requires limit >= 1 && window >= 1
      modifies this
      ensures Configured() && this.limit == limit && this.window == window && this.keyFunc == keyFunc
    {
      this.limit, this.window, this.keyFunc := limit, window, keyFunc;
      rate := limit as real / window as real;
      RateIsPositive(limit, window, rate);
    }

    /** A request at the gateway's clock now. A request is let through when Redis fails; if the
        script ran nevertheless, the bucket has changed. */
    method Call(store: BucketStore, principal: string, forwardedFor: string, host: Option<string>,
                now: real, redis: Redis)
      returns (v: Verdict)
      requires Configured() && store as object != this
      modifies store`buckets
      ensures Configured()
      ensures var key := Caller(keyFunc, principal, forwardedFor, host).Key();
              var limiter := Limits(limit, rate);
              && (forall other :: other != key ==> store.Live(other) == old(store.Live(other)))
              && v == (if redis.Works? && !Admit(limiter, old(store.Live(key)), now)
                       then TooManyRequests(window) else Forward)
              && store.Live(key) == (if redis.FailsBefore? then old(store.Live(key))
                                     else Some(Taken(limiter, old(store.Live(key)), now)))
    {
      var key := ResolveKey(keyFunc, principal, ClientAddress(forwardedFor, host));
      if redis.FailsBefore? {
        return Forward;
      }
      var limiter: Limiter := Limits(limit, rate);
      TimeToLiveCoversRefill(limiter);
      var allowed := store.EvalScript(key, limiter, now);
      v := if redis.Works? && !allowed then TooManyRequests(window) else Forward;
    }
  }

  lemma RateIsPositive(limit: int, window: int, rate: real)
    requires limit >= 1 && window >= 1 && rate == limit as real / window as real
    ensures rate > 0.0 && rate * window as real == limit as real
  {
  }

  lemma TimeToLiveCoversRefill(limiter: Limiter)
    ensures TimeToLive(limiter) >= 2 && TimeToLive(limiter) as real >= RefillTime(limiter)
    ensures RefillTime(limiter) + 2.0 <= TimeToLive(limiter) as real < RefillTime(limiter) + 3.0
  {
    assert RefillTime(limiter) > 0.0;
  }

  /** A client that waits for the Retry-After time finds a full bucket, whatever it spent. */
  lemma RetryAfterSuffices(limit: int, window: int, rate: real, b: Bucket, now: real)
    requires limit >= 1 && window >= 1 && rate == limit as real / window as real
    requires 0.0 <= b.tokens && now >= b.lastRefill + window as real
    ensures rate > 0.0 && Refilled(Limits(limit, rate), Some(b), now) == limit as real
    ensures Admit(Limits(limit, rate), Some(b), now)
  {
    RateIsPositive(limit, window, rate);
    assert (now - b.lastRefill) * rate >= window as real * rate;
  }
}
