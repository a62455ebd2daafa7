/** What first-match routing loses when the table is loaded from the Redis hash: the hash
    returns the routes in any order. */
module RouteOrder {
  import opened Wrappers
  import opened RouteTable
  import opened Router
  import ConfigLoader

  ghost predicate AtMostOneMatches(lib: Patterns, q: Request, rs: seq<Route>) {
    forall i, j :: 0 <= i < j < |rs| ==> !Matches(lib, q, rs[i]) || !Matches(lib, q, rs[j])
  }

  /** However the hash returns the saved routes, q is served by the route that served it before. */
  ghost predicate ReloadKeepsMatch(lib: Patterns, q: Request, rs: seq<Route>) {
    forall keys :: ConfigLoader.Enumerates(keys, AsMap(rs)) ==>
      FirstMatch(lib, q, ConfigLoader.Loaded(keys, AsMap(rs))) == FirstMatch(lib, q, rs)
  }

  lemma {:induction false} FirstMatchIsAMatch(lib: Patterns, q: Request, rs: seq<Route>) returns (i: nat)
    requires FirstMatch(lib, q, rs).Some?
    ensures i < |rs| && FirstMatch(lib, q, rs) == Some(rs[i]) && Matches(lib, q, rs[i])
  {
    if Matches(lib, q, rs[0]) {
      i := 0;
    } else {
      var j := FirstMatchIsAMatch(lib, q, rs[1..]);
      i := j + 1;
    }
  }

  lemma MatchCarriesOver(lib: Patterns, q: Request, xs: seq<Route>, ys: seq<Route>)
    requires forall r :: r in xs ==> r in ys
    ensures FirstMatch(lib, q, xs).Some? ==> FirstMatch(lib, q, ys).Some?
  {
    FirstMatchNoneIff(lib, q, ys);
    if FirstMatch(lib, q, xs).Some? {
      var i := FirstMatchIsAMatch(lib, q, xs);
      assert xs[i] in ys;
      var k :| 0 <= k < |ys| && ys[k] == xs[i];
    }
  }

  lemma OnlyMatchWins(lib: Patterns, q: Request, xs: seq<Route>, ys: seq<Route>)
    requires AtMostOneMatches(lib, q, ys) && forall r :: r in xs <==> r in ys
    ensures FirstMatch(lib, q, xs) == FirstMatch(lib, q, ys)
  {
    MatchCarriesOver(lib, q, xs, ys);
    MatchCarriesOver(lib, q, ys, xs);
    if FirstMatch(lib, q, xs).Some? {
      var i := FirstMatchIsAMatch(lib, q, xs);
      var j := FirstMatchIsAMatch(lib, q, ys);
      assert xs[i] in ys;
      var k :| 0 <= k < |ys| && ys[k] == xs[i];
    }
  }

  function Ids(rs: seq<Route>): seq<string> {
    seq(|rs|, i requires 0 <= i < |rs| => rs[i].id)
  }

  lemma IdsEnumerate(rs: seq<Route>)
    requires UniqueIds(rs)
    ensures ConfigLoader.Enumerates(Ids(rs), AsMap(rs))
  {
    forall k ensures k in Ids(rs) <==> k in AsMap(rs) {
      AsMapKeys(rs, k);
      if Has(rs, k) {
        var i :| 0 <= i < |rs| && rs[i].id == k;
        assert Ids(rs)[i] == k;
      }
    }
  }

  /** The ids of the table, that of route a first. */
  function LeadingWith(rs: seq<Route>, a: Route): seq<string> {
    [a.id] + Ids(Removed(rs, a.id))
  }

  /** The hash may return any route first. */
  lemma AnyRouteMayLead(rs: seq<Route>, a: Route)
    requires UniqueIds(rs) && a in rs
    ensures ConfigLoader.Enumerates(LeadingWith(rs, a), AsMap(rs)) && AsMap(rs)[a.id] == a
  {
    var at :| 0 <= at < |rs| && rs[at] == a;
    AsMapHolds(rs, at);
    RemovedKeepsUnique(rs, a.id);
    IdsEnumerate(Removed(rs, a.id));
  }

  lemma LeaderWins(lib: Patterns, q: Request, rs: seq<Route>, a: Route)
    requires UniqueIds(rs) && a in rs && Matches(lib, q, a) && FirstMatch(lib, q, rs) != Some(a)
    ensures !ReloadKeepsMatch(lib, q, rs)
  {
    var keys := LeadingWith(rs, a);
    AnyRouteMayLead(rs, a);
    var back := ConfigLoader.Loaded(keys, AsMap(rs));
    assert back[0] == a;
    assert FirstMatch(lib, q, back) == Some(a);
  }

  /** For a table with unique ids, every reload from the hash serves q as the table did before
      it was saved, if and only if at most one of its routes matches q. */
  lemma ReloadKeepsMatchIff(lib: Patterns, q: Request, rs: seq<Route>)
    requires UniqueIds(rs)
    ensures ReloadKeepsMatch(lib, q, rs) <==> AtMostOneMatches(lib, q, rs)
  {
    if AtMostOneMatches(lib, q, rs) {
      forall keys | ConfigLoader.Enumerates(keys, AsMap(rs))
        ensures FirstMatch(lib, q, ConfigLoader.Loaded(keys, AsMap(rs))) == FirstMatch(lib, q, rs)
      {
        ConfigLoader.SaveLoadRoundTrip(rs, keys);
        OnlyMatchWins(lib, q, ConfigLoader.Loaded(keys, AsMap(rs)), rs);
      }
    } else {
      var i, j :| 0 <= i < j < |rs| && Matches(lib, q, rs[i]) && Matches(lib, q, rs[j]);
      var a := if FirstMatch(lib, q, rs) == Some(rs[i]) then rs[j] else rs[i];
      assert rs[i].id != rs[j].id;
      LeaderWins(lib, q, rs, a);
    }
  }
}
