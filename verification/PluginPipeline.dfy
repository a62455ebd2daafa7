/** The plugin pipeline: the instance cache, the stable sort by order, and the nested chain. */
module PluginPipeline {
  import opened Wrappers

  /** One configured plugin of a route or of the gateway; config is its JSON text with sorted keys. */
  datatype PluginConfig = PluginConfig(name: string, enabled: bool, config: string)

  /** A plugin object after configure; nothing changes it afterwards. */
  datatype Plugin = Plugin(name: string, order: int, config: string)

  /** The registry, and which configurations the configure methods accept. */
  datatype Registry = Registry(orders: map<string, int>, accepts: (string, string) -> bool)

  /** What constructing and configuring a plugin anew gives. */
  function Configured(reg: Registry, name: string, config: string): Option<Plugin> {
    if name in reg.orders && reg.accepts(name, config)
    then Some(Plugin(name, reg.orders[name], config))
    else None
  }

  // ---------- stable sort ----------

  function Insert(p: Plugin, ps: seq<Plugin>): seq<Plugin> {
    if ps == [] || ps[|ps| - 1].order <= p.order then ps + [p]
    else Insert(p, ps[..|ps| - 1]) + [ps[|ps| - 1]]
  }

  /** Python's sorted with the order as key. */
  function SortByOrder(ps: seq<Plugin>): seq<Plugin> {
    if ps == [] then [] else Insert(ps[|ps| - 1], SortByOrder(ps[..|ps| - 1]))
  }

  ghost predicate Ascending(ps: seq<Plugin>) {
    forall i, j :: 0 <= i <= j < |ps| ==> ps[i].order <= ps[j].order
  }

  /** The plugins with a given order, in their sequence. */
  function WithOrder(ps: seq<Plugin>, order: int): seq<Plugin> {
    if ps == [] then []
    else WithOrder(ps[..|ps| - 1], order) + (if ps[|ps| - 1].order == order then [ps[|ps| - 1]] else [])
  }

  lemma {:induction false} WithOrderAppend(ps: seq<Plugin>, p: Plugin, order: int)
    ensures WithOrder(ps + [p], order) == WithOrder(ps, order) + (if p.order == order then [p] else [])
  {
    assert (ps + [p])[..|ps + [p]| - 1] == ps;
  }

  lemma {:induction false} InsertMembers(p: Plugin, ps: seq<Plugin>, q: Plugin)
    ensures q in Insert(p, ps) <==> q == p || q in ps
    decreases |ps|
  {
    if ps == [] || ps[|ps| - 1].order <= p.order {
    } else {
      InsertMembers(p, ps[..|ps| - 1], q);
      assert ps == ps[..|ps| - 1] + [ps[|ps| - 1]];
    }
  }

  lemma {:induction false} InsertAscends(p: Plugin, ps: seq<Plugin>)
    requires Ascending(ps)
    ensures Ascending(Insert(p, ps))
    decreases |ps|
  {
    if ps == [] || ps[|ps| - 1].order <= p.order {
    } else {
      var init, last := ps[..|ps| - 1], ps[|ps| - 1];
      InsertAscends(p, init);
      var inserted := Insert(p, init);
      forall i | 0 <= i < |inserted| ensures inserted[i].order <= last.order {
        InsertMembers(p, init, inserted[i]);
      }
    }
  }

  lemma {:induction false} InsertKeepsSequence(p: Plugin, ps: seq<Plugin>, order: int)
    ensures WithOrder(Insert(p, ps), order) == WithOrder(ps, order) + (if p.order == order then [p] else [])
    decreases |ps|
  {
    if ps == [] || ps[|ps| - 1].order <= p.order {
      WithOrderAppend(ps, p, order);
    } else {
      var init, last := ps[..|ps| - 1], ps[|ps| - 1];
      InsertKeepsSequence(p, init, order);
      WithOrderAppend(Insert(p, init), last, order);
    }
  }

  /** The result ascends, and plugins of equal order keep their sequence. */
  lemma {:induction false} SortIsStable(ps: seq<Plugin>, order: int)
    ensures Ascending(SortByOrder(ps))
    ensures WithOrder(SortByOrder(ps), order) == WithOrder(ps, order)
    decreases |ps|
  {
    if ps == [] {
    } else {
      SortIsStable(ps[..|ps| - 1], order);
      InsertAscends(ps[|ps| - 1], SortByOrder(ps[..|ps| - 1]));
      InsertKeepsSequence(ps[|ps| - 1], SortByOrder(ps[..|ps| - 1]), order);
    }
  }

  lemma {:induction false} WithOrderMembers(ps: seq<Plugin>, p: Plugin)
    ensures p in ps <==> p in WithOrder(ps, p.order)
    decreases |ps|
  {
    if ps == [] {
    } else {
      WithOrderMembers(ps[..|ps| - 1], p);
      assert ps == ps[..|ps| - 1] + [ps[|ps| - 1]];
    }
  }

  /** Every member of one sequence is in the other, so neither ends later than the other. */
  lemma LastIsAtMost(xs: seq<Plugin>, ys: seq<Plugin>)
    requires Ascending(ys) && xs != []
    requires forall order :: WithOrder(xs, order) == WithOrder(ys, order)
    ensures ys != [] && xs[|xs| - 1].order <= ys[|ys| - 1].order
  {
    var x := xs[|xs| - 1];
    WithOrderMembers(xs, x);
    WithOrderMembers(ys, x);
    assert WithOrder(xs, x.order) == WithOrder(ys, x.order);
    var i :| 0 <= i < |ys| && ys[i] == x;
  }

  lemma AppendIsInjective<T>(xs: seq<T>, x: T, ys: seq<T>, y: T)
    requires xs + [x] == ys + [y]
    ensures xs == ys && x == y
  {
    assert |xs| == |ys|;
    assert (xs + [x])[|xs|] == (ys + [y])[|xs|];
    assert xs == (xs + [x])[..|xs|] && ys == (ys + [y])[..|xs|];
  }

  lemma SameWithoutLast(xs: seq<Plugin>, x: Plugin, ys: seq<Plugin>, y: Plugin, order: int)
    requires x.order == y.order && WithOrder(xs + [x], order) == WithOrder(ys + [y], order)
    ensures WithOrder(xs, order) == WithOrder(ys, order)
    ensures order == x.order ==> x == y
  {
    WithOrderAppend(xs, x, order);
    WithOrderAppend(ys, y, order);
    if order == x.order {
      assert WithOrder(xs, order) + [x] == WithOrder(ys, order) + [y];
      AppendIsInjective(WithOrder(xs, order), x, WithOrder(ys, order), y);
    } else {
      assert WithOrder(xs, order) + [] == WithOrder(xs, order);
      assert WithOrder(ys, order) + [] == WithOrder(ys, order);
    }
  }

  /** An ascending sequence is determined by its subsequences of equal order, so any sort with
      the properties of SortIsStable is this one. */
  lemma {:induction false} StableSortIsUnique(xs: seq<Plugin>, ys: seq<Plugin>)
    requires Ascending(xs) && Ascending(ys)
    requires forall order :: WithOrder(xs, order) == WithOrder(ys, order)
    ensures xs == ys
    decreases |xs|
  {
    if ys != [] {
      LastIsAtMost(ys, xs);
    }
    if xs == [] {
    } else {
      LastIsAtMost(xs, ys);
      var x, y, xs', ys' := xs[|xs| - 1], ys[|ys| - 1], xs[..|xs| - 1], ys[..|ys| - 1];
      assert xs == xs' + [x] && ys == ys' + [y];
      forall order ensures WithOrder(xs', order) == WithOrder(ys', order) && (order == x.order ==> x == y) {
        assert WithOrder(xs, order) == WithOrder(ys, order);
        SameWithoutLast(xs', x, ys', y, order);
      }
      assert WithOrder(xs', x.order) == WithOrder(ys', x.order) && x == y;
      StableSortIsUnique(xs', ys');
    }
  }

  // ---------- the instance cache ----------

  /** The configured plugins of a list: enabled, known and accepted, in list order. */
  function Instances(reg: Registry, configs: seq<PluginConfig>): seq<Plugin> {
    if configs == [] then []
    else
      var init, cfg := configs[..|configs| - 1], configs[|configs| - 1];
      Instances(reg, init)
      + (match if cfg.enabled then Configured(reg, cfg.name, cfg.config) else None
         case Some(p) => [p]
         case None => [])
  }

  /** A configuration that gives a plugin: enabled, of a registered name, and accepted. */
  ghost predicate Wanted(reg: Registry, cfg: PluginConfig) {
    cfg.enabled && cfg.name in reg.orders && reg.accepts(cfg.name, cfg.config)
  }

  /** How many of the configurations give one. */
  ghost function WantedCount(reg: Registry, configs: seq<PluginConfig>): nat {
    if configs == [] then 0
    else WantedCount(reg, configs[..|configs| - 1]) + (if Wanted(reg, configs[|configs| - 1]) then 1 else 0)
  }

  /** Every wanted configuration gives one plugin, with its name and text and the order of its
      class, after those of the wanted configurations before it; no other gives any. */
  lemma {:induction false} InstancesAreWanted(reg: Registry, configs: seq<PluginConfig>, i: nat)
    requires i < |configs|
    ensures |Instances(reg, configs)| == WantedCount(reg, configs)
    ensures Wanted(reg, configs[i]) ==>
              && WantedCount(reg, configs[..i]) < |Instances(reg, configs)|
              && Instances(reg, configs)[WantedCount(reg, configs[..i])]
                 == Plugin(configs[i].name, reg.orders[configs[i].name], configs[i].config)
    decreases |configs|
  {
    var init := configs[..|configs| - 1];
    InstancesCount(reg, init);
    if i == |init| {
    } else {
      InstancesAreWanted(reg, init, i);
      assert init[..i] == configs[..i];
    }
  }

  lemma {:induction false} InstancesCount(reg: Registry, configs: seq<PluginConfig>)
    ensures |Instances(reg, configs)| == WantedCount(reg, configs)
    decreases |configs|
  {
    if configs == [] {
    } else {
      InstancesCount(reg, configs[..|configs| - 1]);
    }
  }

  class PluginCache {
    const reg: Registry
    var cache: map<(string, string), Plugin>

    /** Every cached object is what configuring it anew would give. */
    ghost predicate Valid()
      reads this
    {
      forall key :: key in cache ==> Configured(reg, key.0, key.1) == Some(cache[key])
    }

    constructor (reg: Registry)
      ensures Valid() && this.reg == reg && cache == map[]
    {
      this.reg, cache := reg, map[];
    }

    method GetOrCreate(cfg: PluginConfig) returns (instance: Option<Plugin>)
      requires Valid()
      modifies this
      ensures Valid() && cache.Keys <= old(cache).Keys + {(cfg.name, cfg.config)}
      ensures old(cache).Keys <= cache.Keys
      ensures instance == Configured(reg, cfg.name, cfg.config)
    {
      var key := (cfg.name, cfg.config);
      if key in cache {
        return Some(cache[key]);
      }
      if cfg.name !in reg.orders {
        return None;
      }
      if !reg.accepts(cfg.name, cfg.config) {
        return None;
      }
      instance := Some(Plugin(cfg.name, reg.orders[cfg.name], cfg.config));
      cache := cache[key := instance.value];
    }
  }

  // ---------- the chain ----------

  /** What a plugin does with a request: answer itself, or pass a context on. */
  datatype Verdict<C, R> = Forward(ctx: C) | Answer(response: R)

  /** The behaviour of the plugin classes: before the rest of the chain, and on its response. */
  datatype Behaviour<!C, !R> = Behaviour(
    pre: (Plugin, C) -> Verdict<C, R>,
    post: (Plugin, C, R) -> R)

  datatype Event = Enter(p: Plugin) | Leave(p: Plugin) | Handle

  datatype Served<R> = Served(response: R, trace: seq<Event>)

  type NextFunc<!C, R> = C -> Served<R>

  function Step<C, R>(b: Behaviour<C, R>, p: Plugin, next: NextFunc<C, R>, c: C): Served<R> {
    match b.pre(p, c)
    case Answer(response) => Served(response, [Enter(p), Leave(p)])
    case Forward(c') =>
      var inner := next(c');
      Served(b.post(p, c, inner.response), [Enter(p)] + inner.trace + [Leave(p)])
  }

  function Chain<C, R>(b: Behaviour<C, R>, ps: seq<Plugin>, endpoint: NextFunc<C, R>, c: C): Served<R>
    decreases |ps|
  {
    if ps == [] then endpoint(c)
    else Step(b, ps[0], (c': C) => Chain(b, ps[1..], endpoint, c'), c)
  }

  /** Wraps the plugins around the endpoint from the last to the first. */
  method BuildChain<C(!new), R>(b: Behaviour<C, R>, plugins: seq<Plugin>, endpoint: NextFunc<C, R>)
    returns (chain: NextFunc<C, R>)
    ensures forall c :: chain(c) == Chain(b, plugins, endpoint, c)
  {
    chain := endpoint;
    var i := |plugins|;
    while i > 0
      invariant 0 <= i <= |plugins|
      invariant forall c :: chain(c) == Chain(b, plugins[i..], endpoint, c)
    {
      i := i - 1;
      var p, next := plugins[i], chain;
      ghost var rest := plugins[i..];
      assert rest[1..] == plugins[i + 1..];
      chain := (c: C) => Step(b, p, next, c);
      forall c ensures chain(c) == Chain(b, rest, endpoint, c) {
        var inner := (c': C) => Chain(b, rest[1..], endpoint, c');
        assert forall c' :: next(c') == inner(c');
      }
    }
    assert plugins[0..] == plugins;
  }

  class MiddlewarePipeline {
    const globalConfigs: seq<PluginConfig>
    const cache: PluginCache

    constructor (globalConfigs: seq<PluginConfig>, cache: PluginCache)
      ensures this.globalConfigs == globalConfigs && this.cache == cache
    {
      this.globalConfigs, this.cache := globalConfigs, cache;
    }

    method GetPlugins(configs: seq<PluginConfig>) returns (plugins: seq<Plugin>)
      requires cache.Valid()
      modifies cache
      ensures cache.Valid()
      ensures plugins == SortByOrder(Instances(cache.reg, configs))
    {
      plugins := [];
      var i := 0;
      while i < |configs|
        invariant 0 <= i <= |configs| && cache.Valid()
        invariant plugins == Instances(cache.reg, configs[..i])
      {
        assert configs[..i + 1][..i] == configs[..i];
        if configs[i].enabled {
          var instance := cache.GetOrCreate(configs[i]);
          if instance.Some? {
            plugins := plugins + [instance.value];
          }
        }
        i := i + 1;
      }
      assert configs[..|configs|] == configs;
      plugins := SortByOrder(plugins);
    }

    /** Whatever the cache went through before, the request runs through freshly configured
        plugins: the sorted global ones, then the sorted ones of the route. */
    method Execute<C(!new), R>(b: Behaviour<C, R>, routeConfigs: seq<PluginConfig>, handler: NextFunc<C, R>, c: C)
      returns (result: Served<R>)
      requires cache.Valid()
      modifies cache
      ensures cache.Valid()
      ensures result == Chain(b, SortByOrder(Instances(cache.reg, globalConfigs))
                                 + SortByOrder(Instances(cache.reg, routeConfigs)), handler, c)
    {
      var globalPlugins := GetPlugins(globalConfigs);
      var routePlugins := GetPlugins(routeConfigs);
      var chain := BuildChain(b, globalPlugins + routePlugins, handler);
      result := chain(c);
    }
  }

  lemma StepPointwise<C(!new), R>(b: Behaviour<C, R>, p: Plugin, f: NextFunc<C, R>, g: NextFunc<C, R>, c: C)
    requires forall x :: f(x) == g(x)
    ensures Step(b, p, f, c) == Step(b, p, g, c)
  {
  }

  /** chain(ps ++ qs, h) is chain(ps, chain(qs, h)). */
  lemma {:induction false} ChainConcat<C(!new), R>(b: Behaviour<C, R>, ps: seq<Plugin>, qs: seq<Plugin>,
                                                   endpoint: NextFunc<C, R>, c: C)
    ensures Chain(b, ps + qs, endpoint, c) == Chain(b, ps, (x: C) => Chain(b, qs, endpoint, x), c)
    decreases |ps|
  {
    if ps == [] {
      assert ps + qs == qs;
    } else {
      assert (ps + qs)[1..] == ps[1..] + qs && (ps + qs)[0] == ps[0];
      var inner: NextFunc<C, R> := (x: C) => Chain(b, qs, endpoint, x);
      var f: NextFunc<C, R> := (x: C) => Chain(b, (ps + qs)[1..], endpoint, x);
      var g: NextFunc<C, R> := (x: C) => Chain(b, ps[1..], inner, x);
      forall x ensures f(x) == g(x) {
        ChainConcat(b, ps[1..], qs, endpoint, x);
      }
      StepPointwise(b, ps[0], f, g, c);
    }
  }

  /** How many plugins a request enters, and whether all of them forward it. */
  function Entered<C, R>(b: Behaviour<C, R>, ps: seq<Plugin>, c: C): nat
    decreases |ps|
  {
    if ps == [] then 0
    else match b.pre(ps[0], c)
         case Answer(_) => 1
         case Forward(c') => 1 + Entered(b, ps[1..], c')
  }

  predicate AllForward<C, R>(b: Behaviour<C, R>, ps: seq<Plugin>, c: C)
    decreases |ps|
  {
    ps == [] || (b.pre(ps[0], c).Forward? && AllForward(b, ps[1..], b.pre(ps[0], c).ctx))
  }

  function Enters(ps: seq<Plugin>): seq<Event> {
    seq(|ps|, i requires 0 <= i < |ps| => Enter(ps[i]))
  }

  function LeavesInReverse(ps: seq<Plugin>): seq<Event> {
    seq(|ps|, i requires 0 <= i < |ps| => Leave(ps[|ps| - 1 - i]))
  }

  lemma ChainForwards<C(!new), R>(b: Behaviour<C, R>, ps: seq<Plugin>, endpoint: NextFunc<C, R>, c: C)
    requires ps != [] && b.pre(ps[0], c).Forward?
    ensures Chain(b, ps, endpoint, c).trace
            == [Enter(ps[0])] + Chain(b, ps[1..], endpoint, b.pre(ps[0], c).ctx).trace + [Leave(ps[0])]
  {
  }

  lemma ChainAnswers<C(!new), R>(b: Behaviour<C, R>, ps: seq<Plugin>, endpoint: NextFunc<C, R>, c: C)
    requires ps != [] && b.pre(ps[0], c).Answer?
    ensures Chain(b, ps, endpoint, c).trace == [Enter(ps[0]), Leave(ps[0])]
  {
  }

  lemma NestPrefix(p: Plugin, rest: seq<Plugin>, k: nat)
    requires k <= |rest|
    ensures Enters(([p] + rest)[..k + 1]) == [Enter(p)] + Enters(rest[..k])
    ensures LeavesInReverse(([p] + rest)[..k + 1]) == LeavesInReverse(rest[..k]) + [Leave(p)]
  {
    assert ([p] + rest)[..k + 1] == [p] + rest[..k];
  }

  /** Around the trace of a prefix of rest, the trace of one more plugin. */
  lemma NestTrace(p: Plugin, rest: seq<Plugin>, k: nat, handled: seq<Event>)
    requires k <= |rest|
    ensures var ps := [p] + rest;
            [Enter(p)] + (Enters(rest[..k]) + handled + LeavesInReverse(rest[..k])) + [Leave(p)]
            == Enters(ps[..k + 1]) + handled + LeavesInReverse(ps[..k + 1])
  {
    NestPrefix(p, rest, k);
  }

  /** The trace of the request enters a prefix of the plugins in order and leaves the same plugins
      in reverse; in between the handler runs once if every plugin forwards, and else not at all. */
  ghost predicate Nests<C(!new), R>(b: Behaviour<C, R>, ps: seq<Plugin>, handle: C -> R, c: C) {
    var k := Entered(b, ps, c);
    && k <= |ps|
    && (AllForward(b, ps, c) ==> k == |ps|)
    && Chain(b, ps, (x: C) => Served(handle(x), [Handle]), c).trace
       == Enters(ps[..k]) + (if AllForward(b, ps, c) then [Handle] else []) + LeavesInReverse(ps[..k])
  }

  lemma AnsweredNests<C(!new), R>(b: Behaviour<C, R>, ps: seq<Plugin>, handle: C -> R, c: C)
    requires ps != [] && b.pre(ps[0], c).Answer?
    ensures Nests(b, ps, handle, c)
  {
    ChainAnswers(b, ps, (x: C) => Served(handle(x), [Handle]), c);
    assert Enters(ps[..1]) == [Enter(ps[0])] && LeavesInReverse(ps[..1]) == [Leave(ps[0])];
  }

  lemma ForwardedNests<C(!new), R>(b: Behaviour<C, R>, ps: seq<Plugin>, handle: C -> R, c: C)
    requires ps != [] && b.pre(ps[0], c).Forward?
    requires Nests(b, ps[1..], handle, b.pre(ps[0], c).ctx)
    ensures Nests(b, ps, handle, c)
  {
    var p, rest, c' := ps[0], ps[1..], b.pre(ps[0], c).ctx;
    assert ps == [p] + rest;
    ChainForwards(b, ps, (x: C) => Served(handle(x), [Handle]), c);
    NestTrace(p, rest, Entered(b, rest, c'), if AllForward(b, rest, c') then [Handle] else []);
  }

  /** Whatever the plugins do with a request, the chain nests. */
  lemma {:induction false} ChainNests<C(!new), R>(b: Behaviour<C, R>, ps: seq<Plugin>, handle: C -> R, c: C)
    ensures Nests(b, ps, handle, c)
    decreases |ps|
  {
    if ps == [] {
      assert Enters(ps[..0]) == [] && LeavesInReverse(ps[..0]) == [];
    } else if b.pre(ps[0], c).Answer? {
      AnsweredNests(b, ps, handle, c);
    } else {
      ChainNests(b, ps[1..], handle, b.pre(ps[0], c).ctx);
      ForwardedNests(b, ps, handle, c);
    }
  }

  // ---------- the response ----------

  /** r passed back through the first n plugins, the last of them first; each sees the context
      with which it was entered. */
  function Unwound<C, R>(b: Behaviour<C, R>, ps: seq<Plugin>, cs: seq<C>, n: nat, r: R): R
    requires n <= |ps| && n <= |cs|
  {
    if n == 0 then r else Unwound(b, ps, cs, n - 1, b.post(ps[n - 1], cs[n - 1], r))
  }

  /** The contexts along the first n plugins, all of which pass the request on. */
  ghost predicate Passes<C(!new), R(!new)>(b: Behaviour<C, R>, ps: seq<Plugin>, cs: seq<C>, n: nat, c: C) {
    && |cs| == n + 1 && n <= |ps| && cs[0] == c
    && forall i :: 0 <= i < n ==> b.pre(ps[i], cs[i]) == Forward(cs[i + 1])
  }

  lemma {:induction false} UnwoundShift<C, R>(b: Behaviour<C, R>, p: Plugin, ps: seq<Plugin>, c: C, cs: seq<C>,
                                              n: nat, r: R)
    requires n <= |ps| && n <= |cs|
    ensures Unwound(b, [p] + ps, [c] + cs, n + 1, r) == b.post(p, c, Unwound(b, ps, cs, n, r))
    decreases n
  {
    if n == 0 {
      assert Unwound(b, [p] + ps, [c] + cs, 0, b.post(p, c, r)) == b.post(p, c, r);
    } else {
      UnwoundShift(b, p, ps, c, cs, n - 1, b.post(ps[n - 1], cs[n - 1], r));
    }
  }

  lemma PassesShift<C(!new), R(!new)>(b: Behaviour<C, R>, ps: seq<Plugin>, c: C, cs: seq<C>, n: nat)
    requires ps != [] && b.pre(ps[0], c).Forward? && Passes(b, ps[1..], cs, n, b.pre(ps[0], c).ctx)
    ensures Passes(b, ps, [c] + cs, n + 1, c)
  {
    forall i | 0 <= i < n + 1 ensures b.pre(ps[i], ([c] + cs)[i]) == Forward(([c] + cs)[i + 1]) {
      if i > 0 {
        assert b.pre(ps[1..][i - 1], cs[i - 1]) == Forward(cs[i]);
      }
    }
  }

  /** What the client gets: the request runs through the first n plugins, and either all of them
      are passed and the handler answers, or plugin n answers itself; that answer goes back
      through the n plugins in reverse. */
  lemma {:induction false} ChainResponds<C(!new), R(!new)>(b: Behaviour<C, R>, ps: seq<Plugin>, handle: C -> R, c: C)
    returns (n: nat, cs: seq<C>)
    ensures Passes(b, ps, cs, n, c)
    ensures var response := Chain(b, ps, (x: C) => Served(handle(x), [Handle]), c).response;
            if n == |ps| then response == Unwound(b, ps, cs, n, handle(cs[n]))
            else b.pre(ps[n], cs[n]).Answer? && response == Unwound(b, ps, cs, n, b.pre(ps[n], cs[n]).response)
    decreases |ps|
  {
    if ps == [] || b.pre(ps[0], c).Answer? {
      n, cs := 0, [c];
    } else {
      var m, rest := ChainResponds(b, ps[1..], handle, b.pre(ps[0], c).ctx);
      PassesShift(b, ps, c, rest, m);
      n, cs := m + 1, [c] + rest;
      assert ps == [ps[0]] + ps[1..];
      var answer := if m == |ps[1..]| then handle(rest[m]) else b.pre(ps[1..][m], rest[m]).response;
      UnwoundShift(b, ps[0], ps[1..], c, rest, m, answer);
    }
  }
}
