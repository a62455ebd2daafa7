/** The configuration loader: the route list in memory, the routes file, and the Redis hash. */
module ConfigLoader {
  import opened Wrappers
  import opened RouteTable

  /** keys lists each key of the hash once, in the order the server returns them. */
  ghost predicate Enumerates(keys: seq<string>, m: map<string, Route>) {
    && (forall i, j :: 0 <= i < j < |keys| ==> keys[i] != keys[j])
    && (forall k :: k in keys <==> k in m)
  }

  function Loaded(keys: seq<string>, m: map<string, Route>): seq<Route>
    requires forall k :: k in keys ==> k in m
  {
    seq(|keys|, i requires 0 <= i < |keys| => m[keys[i]])
  }

  /** Saving a table with unique ids to Redis and loading it back loses and invents nothing,
      whatever order the hash returns; only the order of the list may differ. */
  lemma SaveLoadRoundTrip(rs: seq<Route>, keys: seq<string>)
    requires UniqueIds(rs) && Enumerates(keys, AsMap(rs))
    ensures var back := Loaded(keys, AsMap(rs));
            && UniqueIds(back) && AsMap(back) == AsMap(rs)
            && (forall r :: r in back <==> r in rs)
  {
    var m := AsMap(rs);
    var back := Loaded(keys, m);
    forall i | 0 <= i < |back| ensures back[i].id == keys[i] && back[i] in rs {
      AsMapKeys(rs, keys[i]);
    }
    forall id | id in m ensures Has(back, id) {
      var i :| 0 <= i < |keys| && keys[i] == id;
      assert back[i].id == id;
    }
    SameMembersSameMap(back, m);
    forall r | r in rs ensures r in back {
      var j :| 0 <= j < |rs| && rs[j] == r;
      AsMapHolds(rs, j);
      var i :| 0 <= i < |keys| && keys[i] == r.id;
      assert back[i] == r;
    }
  }

  class ConfigLoader {
    var routes: seq<Route>
    var file: seq<Route>              // the parsed content of the routes file
    var hash: map<string, Route>      // the Redis hash of routes

    constructor (file: seq<Route>)
      ensures routes == [] && this.file == file && hash == map[]
    {
      routes, this.file, hash := [], file, map[];
    }

    /** Prefers the hash; falls back to the file when the hash is empty or Redis fails. */
    method Load(keys: seq<string>, redisFails: bool)
      requires Enumerates(keys, hash)
      modifies this`routes
      ensures routes == if !redisFails && hash != map[] then Loaded(keys, hash) else file
    {
      if !redisFails && hash != map[] {
        routes := Loaded(keys, hash);
      } else {
        routes := file;
      }
    }

    /** Deletes the hash, then sets one field per route. */
    method SaveToRedis()
      modifies this`hash
      ensures hash == AsMap(routes)
    {
      var pipeline := map[];
      var i := 0;
      while i < |routes|
        invariant 0 <= i <= |routes|
        invariant pipeline == AsMap(routes[..i])
      {
        assert routes[..i + 1][..i] == routes[..i];
        pipeline := pipeline[routes[i].id := routes[i]];
        i := i + 1;
      }
      assert routes[..|routes|] == routes;
      hash := pipeline;
    }

    method CreateRoute(route: Route) returns (error: Option<StoreError>)
      modifies this`routes, this`file
      ensures match Created(old(routes), route)
              case Ok(next) => error == None && routes == next && file == next
              case Err(e) => error == Some(e) && routes == old(routes) && file == old(file)
    {
      if Has(routes, route.id) {
        return Some(AlreadyExists);
      }
      var nextRoutes := routes + [route];
      file := nextRoutes;
      routes := nextRoutes;
      error := None;
    }

    method UpdateRoute(currentId: string, route: Route) returns (error: Option<StoreError>)
      modifies this`routes, this`file
      ensures match Updated(old(routes), currentId, route)
              case Ok(next) => error == None && routes == next && file == next
              case Err(e) => error == Some(e) && routes == old(routes) && file == old(file)
    {
      if route.id != currentId && Has(routes, route.id) {
        return Some(AlreadyExists);
      }
      var nextRoutes: seq<Route> := [];
      var found := false;
      var i := 0;
      while i < |routes|
        invariant 0 <= i <= |routes|
        invariant nextRoutes == Replaced(routes, currentId, route)[..i]
        invariant found <==> exists j :: 0 <= j < i && routes[j].id == currentId
      {
        if routes[i].id == currentId {
          nextRoutes := nextRoutes + [route];
          found := true;
        } else {
          nextRoutes := nextRoutes + [routes[i]];
        }
        i := i + 1;
      }
      if !found {
        return Some(NoSuchRoute);
      }
      file := nextRoutes;
      routes := nextRoutes;
      error := None;
    }

    method DeleteRoute(routeId: string) returns (error: Option<StoreError>)
      modifies this`routes, this`file
      ensures match Deleted(old(routes), routeId)
              case Ok(next) => error == None && routes == next && file == next
              case Err(e) => error == Some(e) && routes == old(routes) && file == old(file)
    {
      var nextRoutes := Removed(routes, routeId);
      RemovedShrinks(routes, routeId);
      if |nextRoutes| == |routes| {
        return Some(NoSuchRoute);
      }
      file := nextRoutes;
      routes := nextRoutes;
      error := None;
    }
  }
}
