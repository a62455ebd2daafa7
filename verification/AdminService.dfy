/** The admin handlers: each edits the loader's table, logs the change, refreshes the routing
    engine, and saves to Redis. */
module AdminService {
  import opened Wrappers
  import opened RouteTable
  import opened RouteHistory
  import opened RouteAdmin
  import ConfigLoader
  import Router

  class AdminService {
    const loader: ConfigLoader.ConfigLoader
    const history: RouteHistoryStore
    const engine: Router.RoutingEngine

    ghost predicate Valid()
      reads this, loader, history, engine
    {
      && history.Valid()
      && (loader as object) != history && (loader as object) != engine && (history as object) != engine
    }

    function View(): State
      reads this, loader, history
    {
      State(loader.routes, history.entries)
    }

    /** The loader's list, the routes file, the engine's table and the Redis hash agree. */
    ghost predicate Synced()
      reads this, loader, engine
    {
      && loader.file == loader.routes
      && engine.routes == loader.routes
      && loader.hash == AsMap(loader.routes)
    }

    /** A refused request changes no list, file, hash, log, table or counter. */
    twostate predicate Untouched()
      reads this, loader, history, engine
    {
      && loader.routes == old(loader.routes) && loader.file == old(loader.file) && loader.hash == old(loader.hash)
      && history.entries == old(history.entries) && history.file == old(history.file)
      && engine.routes == old(engine.routes) && engine.counters == old(engine.counters)
    }

    constructor (loader: ConfigLoader.ConfigLoader, history: RouteHistoryStore, engine: Router.RoutingEngine)
      requires history.Valid()
      requires (loader as object) != history && (loader as object) != engine && (history as object) != engine
      ensures Valid()
      ensures this.loader == loader && this.history == history && this.engine == engine
    {
      this.loader, this.history, this.engine := loader, history, engine;
    }

    /** Start-up: load the configuration and fill the engine; neither the routes file nor the
        Redis hash is written, so they may differ from the list until the first change. */
    method StartUp(keys: seq<string>, redisFails: bool)
      requires Valid() && ConfigLoader.Enumerates(keys, loader.hash)
      modifies loader`routes, engine
      ensures Valid() && engine.routes == loader.routes
      ensures loader.routes ==
              if !redisFails && loader.hash != map[] then ConfigLoader.Loaded(keys, loader.hash) else loader.file
      ensures UniqueIds(loader.file) && (forall k :: k in loader.hash ==> loader.hash[k].id == k) ==>
                UniqueIds(loader.routes)
    {
      loader.Load(keys, redisFails);
      engine.UpdateRoutes(loader.routes);
    }

    /** _find_route */
    method FindRoute(id: string) returns (found: Option<Route>)
      ensures found == Find(loader.routes, id)
    {
      var i := 0;
      while i < |loader.routes|
        invariant 0 <= i <= |loader.routes|
        invariant Find(loader.routes, id) == Find(loader.routes[i..], id)
      {
        if loader.routes[i].id == id {
          return Some(loader.routes[i]);
        }
        assert loader.routes[i..][1..] == loader.routes[i + 1..];
        i := i + 1;
      }
      found := None;
    }

    /** The common end of every successful handler. */
    method Publish(entry: Entry)
      requires Valid() && loader.file == loader.routes
      modifies loader`hash, history, engine
      ensures Valid() && Synced()
      ensures history.entries == old(history.entries) + [entry]
      ensures engine.counters == Router.CountersAfterReload(old(engine.counters), loader.routes)
    {
      history.Append(entry);
      engine.UpdateRoutes(loader.routes);
      loader.SaveToRedis();
    }

    method CreateRoute(payload: Option<Route>, freshId: string) returns (reply: Reply)
      requires Valid()
      modifies loader, history, engine
      ensures Valid() && (reply == Done ==> Synced())
      ensures reply == ReplyOf(old(View()), CreateOp(payload))
      ensures View() == Execute(old(View()), CreateOp(payload), freshId)
      ensures reply.Refused? ==> Untouched()
      ensures reply == Done ==>
                engine.counters == Router.CountersAfterReload(old(engine.counters), loader.routes)
    {
      if payload.None? {
        return Refused(409);
      }
      var error := loader.CreateRoute(payload.value);
      if error.Some? {
        return Refused(409);
      }
      Publish(Entry(freshId, Create, payload.value.id, None, payload, "route-created"));
      reply := Done;
    }

    method UpdateRoute(id: string, payload: Option<Route>, freshId: string) returns (reply: Reply)
      requires Valid()
      modifies loader, history, engine
      ensures Valid() && (reply == Done ==> Synced())
      ensures reply == ReplyOf(old(View()), UpdateOp(id, payload))
      ensures View() == Execute(old(View()), UpdateOp(id, payload), freshId)
      ensures reply.Refused? ==> Untouched()
      ensures reply == Done ==>
                engine.counters == Router.CountersAfterReload(old(engine.counters), loader.routes)
    {
      var before := FindRoute(id);
      if before.None? {
        return Refused(404);
      }
      if payload.None? {
        return Refused(409);
      }
      FindIsPresent(loader.routes, id);
      var error := loader.UpdateRoute(id, payload.value);
      if error.Some? {
        return Refused(409);
      }
      Publish(Entry(freshId, Update, payload.value.id, before, payload, "updated-from:" + id));
      reply := Done;
    }

    method DeleteRoute(id: string, freshId: string) returns (reply: Reply)
      requires Valid()
      modifies loader, history, engine
      ensures Valid() && (reply == Done ==> Synced())
      ensures reply == ReplyOf(old(View()), DeleteOp(id))
      ensures View() == Execute(old(View()), DeleteOp(id), freshId)
      ensures reply.Refused? ==> Untouched()
      ensures reply == Done ==>
                engine.counters == Router.CountersAfterReload(old(engine.counters), loader.routes)
    {
      var route := FindRoute(id);
      if route.None? {
        return Refused(404);
      }
      FindIsPresent(loader.routes, id);
      var error := loader.DeleteRoute(id);
      assert error == None;
      Publish(Entry(freshId, Delete, id, route, None, "route-deleted"));
      reply := Done;
    }

    /** The edits of the three rollback branches; error is an exception the handler lets through. */
    method ApplyRollback(before: Option<Route>, after: Option<Route>)
      returns (refused: Option<int>, rollbackBefore: Option<Route>, rollbackAfter: Option<Route>)
      modifies loader`routes, loader`file
      ensures match RollbackEdit(old(loader.routes), before, after)
              case Ok(edit) =>
                refused == None && loader.routes == edit.routes && loader.file == loader.routes
                && rollbackBefore == edit.before && rollbackAfter == edit.after
              case Err(status) =>
                refused == Some(status) && loader.routes == old(loader.routes) && loader.file == old(loader.file)
    {
      rollbackBefore, rollbackAfter := None, None;
      var error: Option<StoreError> := None;
      if before.None? && after.Some? {
        var target := FindRoute(after.value.id);
        if target.None? {
          return Some(409), None, None;
        }
        FindIsPresent(loader.routes, after.value.id);
        rollbackBefore := target;
        error := loader.DeleteRoute(after.value.id);
      } else if before.Some? && after.None? {
        var existing := FindRoute(before.value.id);
        if existing.None? {
          error := loader.CreateRoute(before.value);
        } else {
          error := loader.UpdateRoute(before.value.id, before.value);
        }
        rollbackBefore, rollbackAfter := existing, before;
      } else if before.Some? && after.Some? {
        var current := FindRoute(after.value.id);
        if current.Some? {
          rollbackBefore := current;
          error := loader.UpdateRoute(after.value.id, before.value);
        } else {
          var restored := FindRoute(before.value.id);
          rollbackBefore := restored;
          if restored.None? {
            error := loader.CreateRoute(before.value);
          } else {
            error := loader.UpdateRoute(before.value.id, before.value);
          }
        }
        rollbackAfter := before;
      } else {
        return Some(422), None, None;
      }
      refused := if error.Some? then Some(500) else None;
    }

    method RollbackRoute(entryId: string, freshId: string) returns (reply: Reply)
      requires Valid()
      modifies loader, history, engine
      ensures Valid() && (reply == Done ==> Synced())
      ensures reply == ReplyOf(old(View()), RollbackOp(entryId))
      ensures View() == Execute(old(View()), RollbackOp(entryId), freshId)
      ensures reply.Refused? ==> Untouched()
      ensures reply == Done ==>
                engine.counters == Router.CountersAfterReload(old(engine.counters), loader.routes)
    {
      var entry := history.Find(entryId);
      if entry.None? {
        return Refused(404);
      }
      var refused, before, after := ApplyRollback(entry.value.before, entry.value.after);
      if refused.Some? {
        return Refused(refused.value);
      }
      Publish(Entry(freshId, Rollback, entry.value.routeId, before, after, "rollback-of:" + entryId));
      reply := Done;
    }
  }
}
