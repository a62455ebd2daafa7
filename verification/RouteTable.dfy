/** The ordered route table and the edits the configuration loader makes to it. */
module RouteTable {
  import opened Wrappers

  datatype MatchRule = MatchRule(
    protocol: string,
    host: Option<string>,
    path: string,
    methods: seq<string>,
    headers: map<string, string>)

  datatype Target = Target(url: string, weight: int)

  datatype Upstream = Upstream(kind: string, targets: seq<Target>, loadBalance: string)

  /** A route; the fields no modelled code looks at are one opaque value. */
  datatype Route = Route(id: string, rule: MatchRule, upstream: Upstream, rest: string)

  /** ValueError and KeyError of the loader. */
  datatype StoreError = AlreadyExists | NoSuchRoute

  predicate Has(rs: seq<Route>, id: string) {
    exists i :: 0 <= i < |rs| && rs[i].id == id
  }

  ghost predicate UniqueIds(rs: seq<Route>) {
    forall i, j :: 0 <= i < j < |rs| ==> rs[i].id != rs[j].id
  }

  /** The first route with the id. */
  function Find(rs: seq<Route>, id: string): Option<Route> {
    if rs == [] then None
    else if rs[0].id == id then Some(rs[0])
    else Find(rs[1..], id)
  }

  function Replaced(rs: seq<Route>, id: string, r: Route): seq<Route> {
    seq(|rs|, i requires 0 <= i < |rs| => if rs[i].id == id then r else rs[i])
  }

  function Removed(rs: seq<Route>, id: string): seq<Route> {
    if rs == [] then []
    else Removed(rs[..|rs| - 1], id)
         + (if rs[|rs| - 1].id == id then [] else [rs[|rs| - 1]])
  }

  function Created(rs: seq<Route>, r: Route): Result<seq<Route>, StoreError> {
    if Has(rs, r.id) then Err(AlreadyExists) else Ok(rs + [r])
  }

  function Updated(rs: seq<Route>, id: string, r: Route): Result<seq<Route>, StoreError> {
    if r.id != id && Has(rs, r.id) then Err(AlreadyExists)
    else if !Has(rs, id) then Err(NoSuchRoute)
    else Ok(Replaced(rs, id, r))
  }

  function Deleted(rs: seq<Route>, id: string): Result<seq<Route>, StoreError> {
    if !Has(rs, id) then Err(NoSuchRoute) else Ok(Removed(rs, id))
  }

  /** The table as the Redis hash holds it: a later route overwrites an earlier one. */
  function AsMap(rs: seq<Route>): map<string, Route> {
    if rs == [] then map[]
    else AsMap(rs[..|rs| - 1])[rs[|rs| - 1].id := rs[|rs| - 1]]
  }

  // ---------- the table as a map ----------

  lemma {:induction false} AsMapKeys(rs: seq<Route>, id: string)
    ensures id in AsMap(rs) <==> Has(rs, id)
    ensures id in AsMap(rs) ==> AsMap(rs)[id].id == id && AsMap(rs)[id] in rs
    decreases |rs|
  {
    if rs == [] {
    } else {
      var init, last := rs[..|rs| - 1], rs[|rs| - 1];
      AsMapKeys(init, id);
      assert rs == init + [last];
      if Has(rs, id) && last.id != id {
        var i :| 0 <= i < |rs| && rs[i].id == id;
        assert init[i].id == id;
      }
      if Has(init, id) {
        var i :| 0 <= i < |init| && init[i].id == id;
        assert rs[i].id == id;
      }
      assert last.id == id ==> rs[|rs| - 1].id == id;
    }
  }

  /** With unique ids, the map holds exactly the route that is in the list. */
  lemma AsMapHolds(rs: seq<Route>, i: nat)
    requires UniqueIds(rs) && i < |rs|
    ensures rs[i].id in AsMap(rs) && AsMap(rs)[rs[i].id] == rs[i]
  {
    AsMapKeys(rs, rs[i].id);
    var j :| 0 <= j < |rs| && rs[j] == AsMap(rs)[rs[i].id];
    assert rs[j].id == rs[i].id;
  }

  lemma {:induction false} FindIsPresent(rs: seq<Route>, id: string)
    ensures Find(rs, id).Some? <==> Has(rs, id)
    ensures Find(rs, id).Some? ==> Find(rs, id).value.id == id && Find(rs, id).value in rs
    decreases |rs|
  {
    if rs == [] {
    } else {
      FindIsPresent(rs[1..], id);
      if Has(rs, id) && rs[0].id != id {
        var i :| 0 <= i < |rs| && rs[i].id == id;
        assert rs[1..][i - 1].id == id;
      }
      if Has(rs[1..], id) {
        var i :| 0 <= i < |rs[1..]| && rs[1..][i].id == id;
        assert rs[i + 1].id == id;
      }
    }
  }

  function Lookup(m: map<string, Route>, id: string): Option<Route> {
    if id in m then Some(m[id]) else None
  }

  lemma FindIsLookup(rs: seq<Route>, id: string)
    requires UniqueIds(rs)
    ensures Find(rs, id) == Lookup(AsMap(rs), id)
    ensures Has(rs, id) <==> id in AsMap(rs)
  {
    FindIsPresent(rs, id);
    AsMapKeys(rs, id);
    if Has(rs, id) {
      var i :| 0 <= i < |rs| && rs[i] == Find(rs, id).value;
      AsMapHolds(rs, i);
    }
  }

  lemma SameAt(rs: seq<Route>, m: map<string, Route>, id: string)
    requires forall i :: 0 <= i < |rs| ==> rs[i].id in m && m[rs[i].id] == rs[i]
    requires id in m ==> Has(rs, id)
    ensures Lookup(AsMap(rs), id) == Lookup(m, id)
  {
    AsMapKeys(rs, id);
    if Has(rs, id) {
      var i :| 0 <= i < |rs| && rs[i] == AsMap(rs)[id];
      assert rs[i].id in m;
    }
  }

  /** A list whose members are exactly the entries of a map, up to order. */
  lemma SameMembersSameMap(rs: seq<Route>, m: map<string, Route>)
    requires forall i :: 0 <= i < |rs| ==> rs[i].id in m && m[rs[i].id] == rs[i]
    requires forall id :: id in m ==> Has(rs, id)
    ensures AsMap(rs) == m
  {
    forall id ensures Lookup(AsMap(rs), id) == Lookup(m, id) {
      SameAt(rs, m, id);
    }
    SameLookupSameMap(AsMap(rs), m);
  }

  lemma SameLookupSameMap(m: map<string, Route>, m': map<string, Route>)
    requires forall id :: Lookup(m, id) == Lookup(m', id)
    ensures m == m'
  {
    forall id ensures id in m <==> id in m' {
      assert Lookup(m, id) == Lookup(m', id);
    }
    forall id | id in m ensures m[id] == m'[id] {
      assert Lookup(m, id) == Lookup(m', id);
    }
  }

  // ---------- edits ----------

  lemma CreatedKeepsUnique(rs: seq<Route>, r: Route)
    requires UniqueIds(rs) && !Has(rs, r.id)
    ensures UniqueIds(rs + [r])
    ensures AsMap(rs + [r]) == AsMap(rs)[r.id := r]
  {
    assert (rs + [r])[..|rs + [r]| - 1] == rs;
  }

  lemma ReplacedKeepsUnique(rs: seq<Route>, id: string, r: Route)
    requires UniqueIds(rs) && Has(rs, id) && (r.id == id || !Has(rs, r.id))
    ensures UniqueIds(Replaced(rs, id, r))
    ensures AsMap(Replaced(rs, id, r)) == (AsMap(rs) - {id})[r.id := r]
  {
    var rs' := Replaced(rs, id, r);
    var m := (AsMap(rs) - {id})[r.id := r];
    forall i | 0 <= i < |rs'| ensures rs'[i].id in m && m[rs'[i].id] == rs'[i] {
      AsMapHolds(rs, i);
    }
    forall key | key in m ensures Has(rs', key) {
      AsMapKeys(rs, key);
      if key == r.id {
        var i :| 0 <= i < |rs| && rs[i].id == id;
        assert rs'[i] == r;
      } else {
        var i :| 0 <= i < |rs| && rs[i].id == key;
        assert rs'[i] == rs[i];
      }
    }
    SameMembersSameMap(rs', m);
  }

  lemma {:induction false} RemovedMembers(rs: seq<Route>, id: string, r: Route)
    ensures r in Removed(rs, id) <==> r in rs && r.id != id
    decreases |rs|
  {
    if rs == [] {
    } else {
      RemovedMembers(rs[..|rs| - 1], id, r);
      assert rs == rs[..|rs| - 1] + [rs[|rs| - 1]];
    }
  }

  lemma {:induction false} RemovedUnique(rs: seq<Route>, id: string)
    requires UniqueIds(rs)
    ensures UniqueIds(Removed(rs, id))
    decreases |rs|
  {
    if rs == [] {
    } else {
      var init, last := rs[..|rs| - 1], rs[|rs| - 1];
      RemovedUnique(init, id);
      var kept := Removed(init, id);
      forall i | 0 <= i < |kept| ensures kept[i].id != last.id {
        RemovedMembers(init, id, kept[i]);
        var j :| 0 <= j < |init| && init[j] == kept[i];
        assert rs[j].id != rs[|rs| - 1].id;
      }
    }
  }

  lemma RemovedKeepsUnique(rs: seq<Route>, id: string)
    requires UniqueIds(rs)
    ensures UniqueIds(Removed(rs, id))
    ensures AsMap(Removed(rs, id)) == AsMap(rs) - {id}
  {
    var kept := Removed(rs, id);
    var m := AsMap(rs) - {id};
    RemovedUnique(rs, id);
    forall i | 0 <= i < |kept| ensures kept[i].id in m && m[kept[i].id] == kept[i] {
      RemovedMembers(rs, id, kept[i]);
      var j :| 0 <= j < |rs| && rs[j] == kept[i];
      AsMapHolds(rs, j);
    }
    forall key | key in m ensures Has(kept, key) {
      AsMapKeys(rs, key);
      RemovedMembers(rs, id, m[key]);
      var i :| 0 <= i < |kept| && kept[i] == m[key];
    }
    SameMembersSameMap(kept, m);
  }

  lemma {:induction false} RemoveAbsent(rs: seq<Route>, id: string)
    requires !Has(rs, id)
    ensures Removed(rs, id) == rs
    decreases |rs|
  {
    if rs == [] {
    } else {
      var init := rs[..|rs| - 1];
      assert rs[|rs| - 1].id != id;
      assert forall i :: 0 <= i < |init| ==> init[i] == rs[i];
      RemoveAbsent(init, id);
      assert rs == init + [rs[|rs| - 1]];
    }
  }

  lemma RemovedShrinks(rs: seq<Route>, id: string)
    ensures |Removed(rs, id)| == |rs| <==> !Has(rs, id)
    ensures |Removed(rs, id)| <= |rs|
    decreases |rs|
  {
    if rs == [] {
    } else {
      var init, last := rs[..|rs| - 1], rs[|rs| - 1];
      RemovedShrinks(init, id);
      if Has(init, id) {
        var i :| 0 <= i < |init| && init[i].id == id;
        assert rs[i].id == id;
      }
      if Has(rs, id) && last.id != id {
        var i :| 0 <= i < |rs| && rs[i].id == id;
        assert init[i].id == id;
      }
      assert last.id == id ==> rs[|rs| - 1].id == id;
    }
  }

  // ---------- the hash loses no route exactly when ids are unique ----------

  lemma {:induction false} HashLosesNothingIff(rs: seq<Route>)
    ensures |AsMap(rs)| <= |rs|
    ensures |AsMap(rs)| == |rs| <==> UniqueIds(rs)
    decreases |rs|
  {
    if rs == [] {
    } else {
      var init, last := rs[..|rs| - 1], rs[|rs| - 1];
      HashLosesNothingIff(init);
      AsMapKeys(init, last.id);
      assert AsMap(rs).Keys == AsMap(init).Keys + {last.id};
      if Has(init, last.id) {
        var i :| 0 <= i < |init| && init[i].id == last.id;
        assert rs[i].id == rs[|rs| - 1].id;
      }
      assert forall i :: 0 <= i < |init| ==> init[i] == rs[i];
      if UniqueIds(init) && !Has(init, last.id) {
        assert forall i, j :: 0 <= i < j < |rs| ==> rs[i].id != rs[j].id;
      }
    }
  }
}
