/** The routing engine: first match over the route table, and round-robin selection. */
module Router {
  import opened Wrappers
  import opened RouteTable

  datatype Protocol = HTTP | GRPC | WebSocket

  datatype Request = Request(
    protocol: Protocol,
    path: string,
    method_: string,
    host: string,
    headers: map<string, string>)

  function Lower(c: char): char {
    if 'A' <= c <= 'Z' then c - 'A' + 'a' else c
  }

  function Upper(c: char): char {
    if 'a' <= c <= 'z' then c - 'a' + 'A' else c
  }

  function ToLower(s: string): string {
    seq(|s|, i requires 0 <= i < |s| => Lower(s[i]))
  }

  function ToUpper(s: string): string {
    seq(|s|, i requires 0 <= i < |s| => Upper(s[i]))
  }

  function ProtocolName(p: Protocol): string {
    match p
    case HTTP => "HTTP"
    case GRPC => "GRPC"
    case WebSocket => "WEBSOCKET"
  }

  /** The regular-expression and glob matchers of the standard library, given a pattern and a path. */
  datatype Patterns = Patterns(fullmatch: (string, string) -> bool, fnmatch: (string, string) -> bool)

  predicate MatchPath(lib: Patterns, pattern: string, path: string) {
    if pattern != "" && pattern[0] == '~' then lib.fullmatch(pattern[1..], path)
    else if '*' in pattern then lib.fnmatch(pattern, path)
    else path == pattern
  }

  predicate MatchHeaders(required: map<string, string>, actual: map<string, string>) {
    forall key :: key in required ==> HeaderOf(actual, ToLower(key)) == required[key]
  }

  predicate MatchHost(host: Option<string>, actual: string) {
    host.None? || host.value == "" || host.value == actual || host.value == "*"
  }

  predicate MatchMethod(methods: seq<string>, method_: string) {
    exists i :: 0 <= i < |methods| && ToUpper(methods[i]) == ToUpper(method_)
  }

  predicate Matches(lib: Patterns, q: Request, r: Route) {
    && ToUpper(r.rule.protocol) == ProtocolName(q.protocol)
    && MatchHost(r.rule.host, q.host)
    && MatchPath(lib, r.rule.path, q.path)
    && (q.protocol == HTTP ==> MatchMethod(r.rule.methods, q.method_))
    && MatchHeaders(r.rule.headers, q.headers)
  }

  /** A request header by its lower-case name. */
  function HeaderOf(headers: map<string, string>, name: string): string {
    if name in headers then headers[name] else ""
  }

  function ProtocolOf(headers: map<string, string>): Protocol {
    if ToLower(HeaderOf(headers, "upgrade")) == "websocket" then WebSocket
    else if "application/grpc" <= HeaderOf(headers, "content-type") then GRPC
    else HTTP
  }

  /** What an incoming request is matched by. */
  function Incoming(path: string, method_: string, headers: map<string, string>): Request {
    Request(ProtocolOf(headers), path, method_, HeaderOf(headers, "host"), headers)
  }

  function FirstMatch(lib: Patterns, q: Request, rs: seq<Route>): Option<Route> {
    if rs == [] then None
    else if Matches(lib, q, rs[0]) then Some(rs[0])
    else FirstMatch(lib, q, rs[1..])
  }

  function Counter(counters: map<string, nat>, id: string): nat {
    if id in counters then counters[id] else 0
  }

  /** The index of the target for a request: draw is the weighted random index, and hash the
      hash of the request's key. */
  function Chosen(counters: map<string, nat>, r: Route, draw: nat, hash: int): (idx: nat)
    requires r.upstream.targets != [] && draw < |r.upstream.targets|
    ensures idx < |r.upstream.targets|
  {
    match r.upstream.loadBalance
    case "random" => draw
    case "ip_hash" => hash % |r.upstream.targets|
    case _ => Counter(counters, r.id) % |r.upstream.targets|
  }

  function CountersAfterPick(counters: map<string, nat>, r: Route): map<string, nat> {
    if r.upstream.targets == [] || r.upstream.loadBalance == "random" || r.upstream.loadBalance == "ip_hash"
    then counters
    else counters[r.id := Counter(counters, r.id) + 1]
  }

  function CountersAfterReload(counters: map<string, nat>, rs: seq<Route>): map<string, nat> {
    map id | id in counters && Has(rs, id) :: counters[id]
  }

  class RoutingEngine {
    const lib: Patterns
    var routes: seq<Route>
    var counters: map<string, nat>

    constructor (lib: Patterns)
      ensures routes == [] && counters == map[] && this.lib == lib
    {
      this.lib, routes, counters := lib, [], map[];
    }

    method UpdateRoutes(newRoutes: seq<Route>)
      modifies this
      ensures routes == newRoutes
      ensures counters == CountersAfterReload(old(counters), newRoutes)
    {
      routes := newRoutes;
      counters := map id | id in counters && Has(newRoutes, id) :: counters[id];
    }

    method Match(path: string, method_: string, headers: map<string, string>) returns (found: Option<Route>)
      ensures found == FirstMatch(lib, Incoming(path, method_, headers), routes)
    {
      var q := Incoming(path, method_, headers);
      var i := 0;
      while i < |routes|
        invariant 0 <= i <= |routes|
        invariant FirstMatch(lib, q, routes) == FirstMatch(lib, q, routes[i..])
      {
        var r := routes[i];
        assert routes[i..][1..] == routes[i + 1..];
        i := i + 1;
        if ToUpper(r.rule.protocol) != ProtocolName(q.protocol) { continue; }
        if r.rule.host.Some? && r.rule.host.value != "" && r.rule.host.value != q.host
           && r.rule.host.value != "*" { continue; }
        if !MatchPath(lib, r.rule.path, q.path) { continue; }
        if q.protocol == HTTP && !MatchMethod(r.rule.methods, q.method_) { continue; }
        if !MatchHeaders(r.rule.headers, q.headers) { continue; }
        return Some(r);
      }
      found := None;
    }

    /** The entry of the gRPC listener, which has no request object and no method; it finds
        what Match finds for a gRPC request, whatever HTTP method that carries. */
    method MatchGrpc(path: string, host: string, headers: map<string, string>) returns (found: Option<Route>)
      ensures forall m :: found == FirstMatch(lib, Request(GRPC, path, m, host, headers), routes)
    {
      var i := 0;
      while i < |routes|
        invariant 0 <= i <= |routes|
        invariant forall m ::
                    FirstMatch(lib, Request(GRPC, path, m, host, headers), routes)
                    == FirstMatch(lib, Request(GRPC, path, m, host, headers), routes[i..])
      {
        var r := routes[i];
        assert routes[i..][1..] == routes[i + 1..];
        i := i + 1;
        if ToUpper(r.rule.protocol) != ProtocolName(GRPC) { continue; }
        if r.rule.host.Some? && r.rule.host.value != "" && r.rule.host.value != host
           && r.rule.host.value != "*" { continue; }
        if !MatchPath(lib, r.rule.path, path) { continue; }
        if !MatchHeaders(r.rule.headers, headers) { continue; }
        return Some(r);
      }
      found := None;
    }

    method ResolveUpstream(r: Route, draw: nat, hash: int) returns (target: Option<Target>, ghost idx: nat)
      requires r.upstream.targets != [] ==> draw < |r.upstream.targets|
      modifies this`counters
      ensures target.None? <==> r.upstream.targets == []
      ensures target.Some? ==> idx < |r.upstream.targets| && target.value == r.upstream.targets[idx]
      ensures target.Some? ==> idx == Chosen(old(counters), r, draw, hash)
      ensures target.Some? && r.upstream.loadBalance == "random" ==> idx == draw
      ensures target.Some? && r.upstream.loadBalance == "ip_hash" ==> idx == hash % |r.upstream.targets|
      ensures target.Some? && r.upstream.loadBalance != "random" && r.upstream.loadBalance != "ip_hash" ==>
                idx == old(Counter(counters, r.id)) % |r.upstream.targets|
      ensures counters == CountersAfterPick(old(counters), r)
    {
      idx := 0;
      var targets := r.upstream.targets;
      if targets == [] {
        return None, 0;
      }
      var chosen: nat;
      if r.upstream.loadBalance == "random" {
        chosen := draw;
      } else if r.upstream.loadBalance == "ip_hash" {
        chosen := hash % |targets|;
      } else {
        chosen := Counter(counters, r.id) % |targets|;
        counters := counters[r.id := Counter(counters, r.id) + 1];
      }
      idx := chosen;
      target := Some(targets[chosen]);
    }
  }

  // ---------- what a route accepts ----------

  /** The same letter, up to case. */
  ghost predicate SameLetter(a: char, b: char) {
    || a == b
    || ('A' <= a <= 'Z' && b as int == a as int + 32)
    || ('A' <= b <= 'Z' && a as int == b as int + 32)
  }

  ghost predicate SameUpToCase(s: string, t: string) {
    |s| == |t| && forall i :: 0 <= i < |s| ==> SameLetter(s[i], t[i])
  }

  lemma UpperIffSame(s: string, t: string)
    ensures ToUpper(s) == ToUpper(t) <==> SameUpToCase(s, t)
  {
    if ToUpper(s) == ToUpper(t) {
      assert |ToUpper(s)| == |ToUpper(t)|;
      forall i | 0 <= i < |s| ensures SameLetter(s[i], t[i]) {
        assert ToUpper(s)[i] == ToUpper(t)[i];
      }
    }
  }

  lemma LowerIffSame(s: string, t: string)
    requires forall i :: 0 <= i < |t| ==> !('A' <= t[i] <= 'Z')
    ensures ToLower(s) == t <==> SameUpToCase(s, t)
  {
    if ToLower(s) == t {
      forall i | 0 <= i < |s| ensures SameLetter(s[i], t[i]) {
        assert ToLower(s)[i] == t[i];
      }
    }
  }

  /** How an incoming request is classified: by its upgrade header, up to case, and then by the
      beginning of its content type. */
  lemma ProtocolIsDetected(path: string, method_: string, headers: map<string, string>)
    ensures var q := Incoming(path, method_, headers);
            && (q.protocol == WebSocket <==> "upgrade" in headers && SameUpToCase(headers["upgrade"], "websocket"))
            && (q.protocol == GRPC <==>
                  && !("upgrade" in headers && SameUpToCase(headers["upgrade"], "websocket"))
                  && "content-type" in headers && "application/grpc" <= headers["content-type"])
            && q.host == (if "host" in headers then headers["host"] else "")
            && q.path == path && q.headers == headers && SameUpToCase(q.method_, method_)
  {
    LowerIffSame(HeaderOf(headers, "upgrade"), "websocket");
  }

  /** The request has this value under the header, whose name is compared in lower case; an
      absent header counts as empty. */
  ghost predicate Carries(headers: map<string, string>, key: string, value: string) {
    (exists name :: name in headers && SameUpToCase(key, name) && IsLower(name) && headers[name] == value)
    || (value == "" && forall name :: name in headers && IsLower(name) ==> !SameUpToCase(key, name))
  }

  ghost predicate IsLower(s: string) {
    forall i :: 0 <= i < |s| ==> !('A' <= s[i] <= 'Z')
  }

  lemma HeaderIffCarried(headers: map<string, string>, key: string, value: string)
    ensures HeaderOf(headers, ToLower(key)) == value <==> Carries(headers, key, value)
  {
    var lower := ToLower(key);
    assert IsLower(lower);
    LowerIffSame(key, lower);
    forall name | IsLower(name) ensures SameUpToCase(key, name) <==> name == lower {
      LowerIffSame(key, name);
    }
  }

  /** What a route accepts: its protocol up to case; no host, the empty one, the star, or the
      request's; a path that fully matches the expression after a tilde, or the glob with a
      star in it, or else is equal; for HTTP only, a method up to case; and every required
      header. */
  lemma MatchesIff(lib: Patterns, q: Request, r: Route)
    ensures Matches(lib, q, r) <==>
            && SameUpToCase(r.rule.protocol, match q.protocol
                                             case HTTP => "http"
                                             case GRPC => "grpc"
                                             case WebSocket => "websocket")
            && (r.rule.host == None || r.rule.host == Some("") || r.rule.host == Some("*") || r.rule.host == Some(q.host))
            && (if "~" <= r.rule.path then lib.fullmatch(r.rule.path[1..], q.path)
                else if exists i :: 0 <= i < |r.rule.path| && r.rule.path[i] == '*' then lib.fnmatch(r.rule.path, q.path)
                else r.rule.path == q.path)
            && (q.protocol == HTTP ==>
                  exists i :: 0 <= i < |r.rule.methods| && SameUpToCase(r.rule.methods[i], q.method_))
            && (forall key :: key in r.rule.headers ==> Carries(q.headers, key, r.rule.headers[key]))
  {
    ProtocolIffSame(r.rule.protocol, q.protocol);
    forall m | m in r.rule.methods ensures ToUpper(m) == ToUpper(q.method_) <==> SameUpToCase(m, q.method_) {
      UpperIffSame(m, q.method_);
    }
    forall key | key in r.rule.headers
      ensures HeaderOf(q.headers, ToLower(key)) == r.rule.headers[key] <==> Carries(q.headers, key, r.rule.headers[key])
    {
      HeaderIffCarried(q.headers, key, r.rule.headers[key]);
    }
  }

  lemma ProtocolIffSame(name: string, p: Protocol)
    ensures ToUpper(name) == ProtocolName(p) <==>
            SameUpToCase(name, match p case HTTP => "http" case GRPC => "grpc" case WebSocket => "websocket")
  {
    var lower := match p case HTTP => "http" case GRPC => "grpc" case WebSocket => "websocket";
    assert ToUpper(lower) == ProtocolName(p);
    UpperIffSame(name, lower);
  }

  // ---------- configuration changes are local ----------

  /** The earliest matching route, and only that one, is the result. */
  lemma {:induction false} FirstMatchIsEarliest(lib: Patterns, q: Request, rs: seq<Route>, i: nat)
    requires i < |rs| && Matches(lib, q, rs[i])
    requires forall j :: 0 <= j < i ==> !Matches(lib, q, rs[j])
    ensures FirstMatch(lib, q, rs) == Some(rs[i])
    decreases |rs|
  {
    if i == 0 {
    } else {
      assert !Matches(lib, q, rs[0]);
      forall j | 0 <= j < i - 1 ensures !Matches(lib, q, rs[1..][j]) {
        assert !Matches(lib, q, rs[j + 1]);
      }
      FirstMatchIsEarliest(lib, q, rs[1..], i - 1);
    }
  }

  lemma {:induction false} FirstMatchNoneIff(lib: Patterns, q: Request, rs: seq<Route>)
    ensures FirstMatch(lib, q, rs).None? <==> forall i :: 0 <= i < |rs| ==> !Matches(lib, q, rs[i])
    decreases |rs|
  {
    if rs == [] {
    } else {
      FirstMatchNoneIff(lib, q, rs[1..]);
      if forall i :: 0 <= i < |rs| ==> !Matches(lib, q, rs[i]) {
        assert !Matches(lib, q, rs[0]);
        forall i | 0 <= i < |rs| - 1 ensures !Matches(lib, q, rs[1..][i]) {
          assert !Matches(lib, q, rs[i + 1]);
        }
      }
      if FirstMatch(lib, q, rs).None? {
        forall i | 0 <= i < |rs| ensures !Matches(lib, q, rs[i]) {
          assert i > 0 ==> rs[1..][i - 1] == rs[i];
        }
      }
    }
  }

  lemma {:induction false} FirstMatchConcat(lib: Patterns, q: Request, xs: seq<Route>, ys: seq<Route>)
    ensures FirstMatch(lib, q, xs + ys)
            == if FirstMatch(lib, q, xs).Some? then FirstMatch(lib, q, xs) else FirstMatch(lib, q, ys)
    decreases |xs|
  {
    if xs == [] {
      assert xs + ys == ys;
    } else {
      assert (xs + ys)[1..] == xs[1..] + ys;
      FirstMatchConcat(lib, q, xs[1..], ys);
    }
  }

  /** Creating a route changes the result only for a request that matched nothing before and
      matches the new route. */
  lemma CreateIsLocal(lib: Patterns, q: Request, rs: seq<Route>, r: Route)
    ensures FirstMatch(lib, q, rs + [r])
            == if FirstMatch(lib, q, rs).None? && Matches(lib, q, r) then Some(r) else FirstMatch(lib, q, rs)
  {
    FirstMatchConcat(lib, q, rs, [r]);
    assert [r][1..] == [];
  }

  /** Replacing routes can only touch requests that the old or the new route matches. */
  lemma {:induction false} ReplaceIsLocal(lib: Patterns, q: Request, rs: seq<Route>, id: string, r: Route)
    requires !Matches(lib, q, r)
    requires forall i :: 0 <= i < |rs| && rs[i].id == id ==> !Matches(lib, q, rs[i])
    ensures FirstMatch(lib, q, Replaced(rs, id, r)) == FirstMatch(lib, q, rs)
    decreases |rs|
  {
    if rs == [] {
    } else {
      assert Replaced(rs, id, r)[1..] == Replaced(rs[1..], id, r);
      forall i | 0 <= i < |rs| - 1 && rs[1..][i].id == id ensures !Matches(lib, q, rs[1..][i]) {
        assert rs[i + 1].id == id;
      }
      ReplaceIsLocal(lib, q, rs[1..], id, r);
    }
  }

  /** Deleting can only touch requests that the deleted route matches. */
  lemma {:induction false} DeleteIsLocal(lib: Patterns, q: Request, rs: seq<Route>, id: string)
    requires forall i :: 0 <= i < |rs| && rs[i].id == id ==> !Matches(lib, q, rs[i])
    ensures FirstMatch(lib, q, Removed(rs, id)) == FirstMatch(lib, q, rs)
    decreases |rs|
  {
    if rs == [] {
    } else {
      var init, last := rs[..|rs| - 1], rs[|rs| - 1];
      assert rs == init + [last];
      forall i | 0 <= i < |init| && init[i].id == id ensures !Matches(lib, q, init[i]) {
        assert rs[i].id == id;
      }
      DeleteIsLocal(lib, q, init, id);
      FirstMatchConcat(lib, q, init, [last]);
      FirstMatchConcat(lib, q, Removed(init, id), if last.id == id then [] else [last]);
      assert [last][1..] == [];
    }
  }

  // ---------- round-robin over hot reloads ----------

  /** A selection with its random index and hash, or a reload of the table. */
  datatype Event = Pick(r: Route, draw: nat, hash: int) | Reload(rs: seq<Route>)

  ghost predicate Sound(events: seq<Event>) {
    forall i :: 0 <= i < |events| && events[i].Pick? && events[i].r.upstream.targets != [] ==>
      events[i].draw < |events[i].r.upstream.targets|
  }

  /** The counters of a new engine after the events. */
  function Run(events: seq<Event>): map<string, nat> {
    if events == [] then map[]
    else
      var counters := Run(events[..|events| - 1]);
      match events[|events| - 1]
      case Pick(r, _, _) => CountersAfterPick(counters, r)
      case Reload(rs) => CountersAfterReload(counters, rs)
  }

  /** A selection for the route id by a strategy other than the random and the hashing one. */
  predicate Selects(e: Event, id: string) {
    && e.Pick? && e.r.id == id && e.r.upstream.targets != []
    && e.r.upstream.loadBalance != "random" && e.r.upstream.loadBalance != "ip_hash"
  }

  predicate Drops(e: Event, id: string) {
    e.Reload? && !Has(e.rs, id)
  }

  /** Selections for the id among the events, and since the last reload that lacked it. */
  function Selections(events: seq<Event>, id: string): nat {
    if events == [] then 0
    else Selections(events[..|events| - 1], id) + (if Selects(events[|events| - 1], id) then 1 else 0)
  }

  function SelectionsSinceDrop(events: seq<Event>, id: string): nat {
    if events == [] || Drops(events[|events| - 1], id) then 0
    else SelectionsSinceDrop(events[..|events| - 1], id)
         + (if Selects(events[|events| - 1], id) then 1 else 0)
  }

  /** The counter of a route is the number of its selections since the last reload of a table
      without it, whatever happened to other routes. */
  lemma {:induction false} CounterCountsSelections(events: seq<Event>, id: string)
    ensures Counter(Run(events), id) == SelectionsSinceDrop(events, id)
    decreases |events|
  {
    if events == [] {
    } else {
      CounterCountsSelections(events[..|events| - 1], id);
    }
  }

  /** How often such selections for the id during more, after the events before, take target j. */
  function Hits(before: seq<Event>, more: seq<Event>, id: string, j: nat): nat
    requires Sound(more)
    decreases |more|
  {
    if more == [] then 0
    else
      var init, e := more[..|more| - 1], more[|more| - 1];
      Hits(before, init, id, j)
      + (if Selects(e, id) && Chosen(Run(before + init), e.r, e.draw, e.hash) == j then 1 else 0)
  }

  /** The events keep the route in the table and offer k targets at each of its selections. */
  ghost predicate KeepsTargets(more: seq<Event>, id: string, k: nat) {
    forall i :: 0 <= i < |more| ==>
      && !Drops(more[i], id)
      && (Selects(more[i], id) ==> |more[i].r.upstream.targets| == k)
  }

  /** Numbers below x that leave remainder j. */
  function Residues(x: nat, k: nat, j: nat): nat
    requires k > 0
  {
    if x == 0 then 0 else Residues(x - 1, k, j) + (if (x - 1) % k == j then 1 else 0)
  }

  lemma Successor(x: nat, k: nat)
    requires k > 0
    ensures (x + 1) / k == if x % k == k - 1 then x / k + 1 else x / k
    ensures (x + 1) % k == if x % k == k - 1 then 0 else x % k + 1
  {
    var q, r := x / k, x % k;
    assert x == q * k + r;
    if r == k - 1 {
      assert x + 1 == (q + 1) * k;
      Divides(x + 1, k, q + 1, 0);
    } else {
      Divides(x + 1, k, q, r + 1);
    }
  }

  lemma MultipleIsFar(d: int, k: int)
    requires k > 0
    ensures d >= 1 ==> d * k >= k
    ensures d <= -1 ==> d * k <= -k
  {
  }

  lemma Divides(x: nat, k: nat, q: nat, r: nat)
    requires k > 0 && x == q * k + r && r < k
    ensures x / k == q && x % k == r
  {
    var d := x / k - q;
    assert x == (x / k) * k + x % k;
    assert d * k == (x / k) * k - q * k;
    MultipleIsFar(d, k);
    assert d == 0;
  }

  lemma {:induction false} ResiduesClosedForm(x: nat, k: nat, j: nat)
    requires 0 <= j < k
    ensures Residues(x, k, j) == x / k + (if j < x % k then 1 else 0)
    decreases x
  {
    if x > 0 {
      ResiduesClosedForm(x - 1, k, j);
      Successor(x - 1, k);
    } else {
      Divides(0, k, 0, 0);
    }
  }

  lemma ResiduesAt(x: nat, k: nat, j: nat, q: nat, r: nat)
    requires 0 <= j < k && x == q * k + r && r < k
    ensures Residues(x, k, j) == q + (if j < r then 1 else 0)
  {
    ResiduesClosedForm(x, k, j);
    Divides(x, k, q, r);
  }

  /** Among n == q * k + r consecutive numbers every remainder occurs q times, or q + 1 times
      if r is not 0. */
  lemma ResiduesBalanced(c: nat, qc: nat, rc: nat, n: nat, q: nat, r: nat, k: nat, j: nat)
    requires 0 <= j < k && rc < k && r < k
    requires c == qc * k + rc && n == q * k + r
    ensures q <= Residues(c + n, k, j) - Residues(c, k, j) <= q + (if r > 0 then 1 else 0)
  {
    ResiduesAt(c, k, j, qc, rc);
    assert (qc + q) * k == qc * k + q * k;
    if rc + r >= k {
      assert (qc + q + 1) * k == (qc + q) * k + k;
      ResiduesAt(c + n, k, j, qc + q + 1, rc + r - k);
    } else {
      ResiduesAt(c + n, k, j, qc + q, rc + r);
    }
  }

  lemma QuotientRemainder(x: nat, k: nat)
    requires k > 0
    ensures x == (x / k) * k + x % k && x % k < k
  {
  }

  lemma ResiduesSpread(c: nat, n: nat, total: nat, k: nat, j: nat)
    requires 0 <= j < k && total == c + n
    ensures n / k <= Residues(total, k, j) - Residues(c, k, j) <= n / k + (if n % k > 0 then 1 else 0)
  {
    QuotientRemainder(c, k);
    QuotientRemainder(n, k);
    ResiduesBalanced(c, c / k, c % k, n, n / k, n % k, k, j);
  }

  lemma CounterStep(events: seq<Event>, e: Event, id: string)
    requires !Drops(e, id)
    ensures Counter(Run(events + [e]), id) == Counter(Run(events), id) + (if Selects(e, id) then 1 else 0)
  {
    assert (events + [e])[..|events + [e]| - 1] == events;
  }

  lemma HitStep(before: seq<Event>, init: seq<Event>, e: Event, id: string, k: nat, j: nat)
    requires 0 <= j < k && (Selects(e, id) ==> |e.r.upstream.targets| == k) && Sound(init + [e])
    ensures Sound(init)
    ensures var c := Counter(Run(before + init), id);
            Hits(before, init + [e], id, j)
            == Hits(before, init, id, j) + (if Selects(e, id) then Residues(c + 1, k, j) - Residues(c, k, j) else 0)
  {
    assert (init + [e])[..|init + [e]| - 1] == init;
    assert forall i :: 0 <= i < |init| ==> (init + [e])[i] == init[i];
  }

  lemma SelectionsStep(init: seq<Event>, e: Event, id: string)
    ensures Selections(init + [e], id) == Selections(init, id) + (if Selects(e, id) then 1 else 0)
  {
    assert (init + [e])[..|init + [e]| - 1] == init;
  }

  lemma InitKeeps(init: seq<Event>, e: Event, id: string, k: nat)
    requires Sound(init + [e]) && KeepsTargets(init + [e], id, k)
    ensures Sound(init) && KeepsTargets(init, id, k)
    ensures !Drops(e, id) && (Selects(e, id) ==> |e.r.upstream.targets| == k)
  {
    assert (init + [e])[|init|] == e;
    assert forall i :: 0 <= i < |init| ==> (init + [e])[i] == init[i];
  }

  lemma {:induction false} HitsAreResidues(before: seq<Event>, more: seq<Event>, id: string, k: nat, j: nat)
    requires 0 <= j < k
    requires Sound(more) && KeepsTargets(more, id, k)
    ensures Counter(Run(before + more), id) == Counter(Run(before), id) + Selections(more, id)
    ensures Hits(before, more, id, j)
            == Residues(Counter(Run(before + more), id), k, j) - Residues(Counter(Run(before), id), k, j)
    decreases |more|
  {
    if more == [] {
      assert before + more == before;
    } else {
      var init, e := more[..|more| - 1], more[|more| - 1];
      assert more == init + [e] && before + more == before + init + [e];
      InitKeeps(init, e, id, k);
      HitsAreResidues(before, init, id, k, j);
      CounterStep(before + init, e, id);
      SelectionsStep(init, e, id);
      HitStep(before, init, e, id, k, j);
    }
  }

  /** Round-robin fairness across hot reloads: whatever came before, and however selections
      for other routes and reloads that keep the route are interleaved, n consecutive
      selections over k targets hit every target n / k times, rounded down or up. */
  lemma RoundRobinIsFair(before: seq<Event>, more: seq<Event>, id: string, k: nat, j: nat)
    requires 0 <= j < k
    requires Sound(more) && KeepsTargets(more, id, k)
    ensures var n := Selections(more, id);
            n / k <= Hits(before, more, id, j) <= n / k + (if n % k > 0 then 1 else 0)
  {
    HitsAreResidues(before, more, id, k, j);
    ResiduesSpread(Counter(Run(before), id), Selections(more, id), Counter(Run(before + more), id), k, j);
  }

  /** The targets of n selections of one route in a row. */
  function Row(counters: map<string, nat>, r: Route, draws: seq<nat>, hashes: seq<int>): seq<nat>
    requires |draws| == |hashes| && r.upstream.targets != []
    requires forall i :: 0 <= i < |draws| ==> draws[i] < |r.upstream.targets|
    decreases |draws|
  {
    if draws == [] then []
    else
      [Chosen(counters, r, draws[0], hashes[0])] + Row(CountersAfterPick(counters, r), r, draws[1..], hashes[1..])
  }

  /** By strategy, whatever the draws and hashes: the random strategy takes the drawn targets,
      the hashing one those of the hashes, and neither touches a counter; every other strategy,
      also one of unknown name, takes the targets in turn. */
  lemma {:induction false} RowByStrategy(counters: map<string, nat>, r: Route, draws: seq<nat>, hashes: seq<int>, i: nat)
    requires |draws| == |hashes| && r.upstream.targets != []
    requires forall i :: 0 <= i < |draws| ==> draws[i] < |r.upstream.targets|
    requires i < |draws|
    ensures var k := |r.upstream.targets|;
            && |Row(counters, r, draws, hashes)| == |draws|
            && Row(counters, r, draws, hashes)[i]
               == (if r.upstream.loadBalance == "random" then draws[i]
                   else if r.upstream.loadBalance == "ip_hash" then hashes[i] % k
                   else (Counter(counters, r.id) + i) % k)
    ensures r.upstream.loadBalance == "random" || r.upstream.loadBalance == "ip_hash" ==>
              CountersAfterPick(counters, r) == counters
    decreases |draws|
  {
    RowLength(counters, r, draws, hashes);
    if i == 0 {
    } else {
      RowByStrategy(CountersAfterPick(counters, r), r, draws[1..], hashes[1..], i - 1);
    }
  }

  lemma {:induction false} RowLength(counters: map<string, nat>, r: Route, draws: seq<nat>, hashes: seq<int>)
    requires |draws| == |hashes| && r.upstream.targets != []
    requires forall i :: 0 <= i < |draws| ==> draws[i] < |r.upstream.targets|
    ensures |Row(counters, r, draws, hashes)| == |draws|
    decreases |draws|
  {
    if draws == [] {
    } else {
      RowLength(CountersAfterPick(counters, r), r, draws[1..], hashes[1..]);
    }
  }
}
