/** What each admin request does, in terms of its arguments and of the table and log before it. */
module RouteRequests {
  import opened Wrappers
  import opened RouteTable
  import opened RouteHistory
  import opened RouteAdmin
  import opened RouteUndo

  /** Creating is refused with 409 for a payload that does not validate and for a taken id, and
      otherwise appends the route. */
  lemma CreateDoes(st: State, payload: Option<Route>, freshId: string)
    requires UniqueIds(st.routes)
    ensures var m := AsMap(st.routes);
            var reply, st' := ReplyOf(st, CreateOp(payload)), Execute(st, CreateOp(payload), freshId);
            if payload.None? || payload.value.id in m then reply == Refused(409) && st' == st
            else
              var r := payload.value;
              && reply == Done
              && st'.routes == st.routes + [r] && AsMap(st'.routes) == m[r.id := r]
              && st'.log == st.log + [Entry(freshId, Create, r.id, None, Some(r), "route-created")]
  {
    if payload.Some? {
      FindIsLookup(st.routes, payload.value.id);
      if !Has(st.routes, payload.value.id) {
        CreatedKeepsUnique(st.routes, payload.value);
      }
    }
  }

  /** Updating is refused with 404 for an absent id, before anything else, and with 409 for a
      payload that does not validate and for a new id that is taken; otherwise the route with
      the id, and no other, is replaced in its place. */
  lemma UpdateDoes(st: State, id: string, payload: Option<Route>, freshId: string)
    requires UniqueIds(st.routes)
    ensures var m := AsMap(st.routes);
            var reply, st' := ReplyOf(st, UpdateOp(id, payload)), Execute(st, UpdateOp(id, payload), freshId);
            if id !in m then reply == Refused(404) && st' == st
            else if payload.None? || (payload.value.id != id && payload.value.id in m) then
              reply == Refused(409) && st' == st
            else
              var r := payload.value;
              && reply == Done
              && |st'.routes| == |st.routes|
              && (forall i :: 0 <= i < |st.routes| ==>
                    st'.routes[i] == if st.routes[i].id == id then r else st.routes[i])
              && AsMap(st'.routes) == (m - {id})[r.id := r]
              && st'.log == st.log + [Entry(freshId, Update, r.id, Some(m[id]), Some(r), "updated-from:" + id)]
  {
    FindIsLookup(st.routes, id);
    if payload.Some? {
      FindIsLookup(st.routes, payload.value.id);
      if Has(st.routes, id) && (payload.value.id == id || !Has(st.routes, payload.value.id)) {
        ReplacedKeepsUnique(st.routes, id, payload.value);
      }
    }
  }

  lemma {:induction false} RemovedConcat(xs: seq<Route>, ys: seq<Route>, id: string)
    ensures Removed(xs + ys, id) == Removed(xs, id) + Removed(ys, id)
    decreases |ys|
  {
    if ys == [] {
      assert xs + ys == xs;
    } else {
      assert (xs + ys)[..|xs + ys| - 1] == xs + ys[..|ys| - 1];
      RemovedConcat(xs, ys[..|ys| - 1], id);
    }
  }

  lemma RemovedFromBetween(xs: seq<Route>, r: Route, ys: seq<Route>)
    requires UniqueIds(xs + [r] + ys)
    ensures Removed(xs + [r] + ys, r.id) == xs + ys
  {
    var all := xs + [r] + ys;
    assert all[|xs|] == r;
    forall i | 0 <= i < |xs| ensures xs[i].id != r.id {
      assert all[i] == xs[i];
    }
    forall i | 0 <= i < |ys| ensures ys[i].id != r.id {
      assert all[|xs| + 1 + i] == ys[i];
    }
    RemovedConcat(xs + [r], ys, r.id);
    RemovedConcat(xs, [r], r.id);
    RemoveAbsent(xs, r.id);
    RemoveAbsent(ys, r.id);
    assert [r][..0] == [];
  }

  /** Deleting is refused with 404 for an absent id, and otherwise takes out the route with the
      id; the others keep their sequence. */
  lemma DeleteDoes(st: State, id: string, freshId: string)
    requires UniqueIds(st.routes)
    ensures var m := AsMap(st.routes);
            var reply, st' := ReplyOf(st, DeleteOp(id)), Execute(st, DeleteOp(id), freshId);
            if id !in m then reply == Refused(404) && st' == st
            else
              && reply == Done
              && (forall xs, ys :: st.routes == xs + [m[id]] + ys ==> st'.routes == xs + ys)
              && AsMap(st'.routes) == m - {id}
              && st'.log == st.log + [Entry(freshId, Delete, id, Some(m[id]), None, "route-deleted")]
  {
    FindIsLookup(st.routes, id);
    AsMapKeys(st.routes, id);
    RemovedKeepsUnique(st.routes, id);
    if Has(st.routes, id) {
      var r := AsMap(st.routes)[id];
      forall xs, ys | st.routes == xs + [r] + ys ensures Removed(st.routes, id) == xs + ys {
        RemovedFromBetween(xs, r, ys);
      }
    }
  }

  // ---------- rollback ----------

  /** The reply and the map after a rollback of an entry with these snapshots. */
  ghost predicate RolledBack(m: map<string, Route>, before: Option<Route>, after: Option<Route>,
                             reply: Reply, m': map<string, Route>)
  {
    match (before, after)
    case (None, None) => reply == Refused(422)
    case (None, Some(a)) =>
      if a.id in m then reply == Done && m' == m - {a.id} else reply == Refused(409)
    case (Some(b), None) => reply == Done && m' == m[b.id := b]
    case (Some(b), Some(a)) =>
      if a.id !in m then reply == Done && m' == m[b.id := b]
      else if b.id == a.id || b.id !in m then reply == Done && m' == (m - {a.id})[b.id := b]
      else reply == Refused(500)
  }

  /** The route that a rollback of an entry with these snapshots takes out or replaces. */
  function Displaced(m: map<string, Route>, before: Option<Route>, after: Option<Route>): Option<Route> {
    if after.Some? && after.value.id in m then Some(m[after.value.id])
    else if before.Some? && before.value.id in m then Some(m[before.value.id])
    else None
  }

  lemma RollbackReply(rs: seq<Route>, before: Option<Route>, after: Option<Route>)
    requires UniqueIds(rs)
    ensures var edit := RollbackEdit(rs, before, after);
            RolledBack(AsMap(rs), before, after, if edit.Ok? then Done else Refused(edit.error),
                       if edit.Ok? then AsMap(edit.value.routes) else AsMap(rs))
  {
    var m := AsMap(rs);
    RollbackIsReverse(rs, before, after);
    if before.Some? {
      FindIsLookup(rs, before.value.id);
      assert (m - {before.value.id})[before.value.id := before.value] == m[before.value.id := before.value];
    }
    if after.Some? {
      FindIsLookup(rs, after.value.id);
      assert after.value.id !in m ==> m - {after.value.id} == m;
    }
  }

  lemma RollbackSnapshots(rs: seq<Route>, before: Option<Route>, after: Option<Route>)
    requires UniqueIds(rs) && RollbackEdit(rs, before, after).Ok?
    ensures var edit := RollbackEdit(rs, before, after).value;
            edit.before == Displaced(AsMap(rs), before, after) && edit.after == before
  {
    if before.Some? {
      FindIsLookup(rs, before.value.id);
    }
    if after.Some? {
      FindIsLookup(rs, after.value.id);
    }
  }

  /** A rollback is refused with 404 exactly if the log has no entry with the id. Otherwise it
      undoes the first entry that has it: an entry that created needs its route, one that
      deleted or changed puts the old route back, in the place of the new one if that is there;
      the new entry holds what was displaced and what was put back. */
  lemma RollbackDoes(st: State, entryId: string, freshId: string)
    requires UniqueIds(st.routes)
    ensures var reply, st' := ReplyOf(st, RollbackOp(entryId)), Execute(st, RollbackOp(entryId), freshId);
            && (reply.Refused? ==> st' == st)
            && (reply == Refused(404) <==> forall i :: 0 <= i < |st.log| ==> st.log[i].id != entryId)
            && forall k: nat :: k < |st.log| && st.log[k].id == entryId
                                && (forall i :: 0 <= i < k ==> st.log[i].id != entryId) ==>
                 var e, m := st.log[k], AsMap(st.routes);
                 && RolledBack(m, e.before, e.after, reply, AsMap(st'.routes))
                 && (reply == Done ==>
                       st'.log == st.log + [Entry(freshId, Rollback, e.routeId, Displaced(m, e.before, e.after), e.before,
                                                  "rollback-of:" + entryId)])
  {
    FindEntryIff(st.log, entryId);
    var found := FindEntry(st.log, entryId);
    if found.Some? {
      RollbackReply(st.routes, found.value.before, found.value.after);
      if ReplyOf(st, RollbackOp(entryId)) == Done {
        RollbackSnapshots(st.routes, found.value.before, found.value.after);
      }
    }
    forall k: nat | k < |st.log| && st.log[k].id == entryId && (forall i :: 0 <= i < k ==> st.log[i].id != entryId)
      ensures found == Some(st.log[k])
    {
      FindEntryAt(st.log, k);
    }
  }
}
