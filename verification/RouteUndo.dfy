/** What rolling back the route history restores. */
module RouteUndo {
  import opened Wrappers
  import opened RouteTable
  import opened RouteHistory
  import opened RouteAdmin
  import ConfigLoader

  // ---------- one entry ----------

  lemma ReplaceBack(prev: seq<Route>, b: Route, a: Route)
    requires UniqueIds(prev) && Truthful(prev, Some(b), Some(a))
    ensures Replaced(Replaced(prev, b.id, a), a.id, b) == prev
  {
    FindIsPresent(prev, b.id);
    var at :| 0 <= at < |prev| && prev[at] == b;
    var back := Replaced(Replaced(prev, b.id, a), a.id, b);
    forall i | 0 <= i < |prev| ensures back[i] == prev[i] {
      assert prev[i].id == b.id ==> i == at;
      assert prev[i].id == a.id ==> Has(prev, a.id);
    }
  }

  lemma RemoveBack(prev: seq<Route>, a: Route)
    requires !Has(prev, a.id)
    ensures Removed(prev + [a], a.id) == prev
  {
    assert (prev + [a])[..|prev + [a]| - 1] == prev;
    RemoveAbsent(prev, a.id);
  }

  lemma UndoCreate(prev: seq<Route>, rs: seq<Route>, a: Route)
    requires UniqueIds(prev) && !Has(prev, a.id)
    requires UniqueIds(rs) && AsMap(rs) == AsMap(prev)[a.id := a]
    ensures RollbackEdit(rs, None, Some(a)) == Ok(Edit(Removed(rs, a.id), Some(a), None))
    ensures UniqueIds(Removed(rs, a.id)) && AsMap(Removed(rs, a.id)) == AsMap(prev)
    ensures rs == prev + [a] ==> Removed(rs, a.id) == prev
  {
    FindIsLookup(prev, a.id);
    FindIsLookup(rs, a.id);
    RemovedKeepsUnique(rs, a.id);
    RemoveBack(prev, a);
    assert AsMap(rs) - {a.id} == AsMap(prev);
  }

  lemma UndoDelete(prev: seq<Route>, rs: seq<Route>, b: Route)
    requires UniqueIds(prev) && Find(prev, b.id) == Some(b)
    requires UniqueIds(rs) && AsMap(rs) == AsMap(prev) - {b.id}
    ensures RollbackEdit(rs, Some(b), None) == Ok(Edit(rs + [b], None, Some(b)))
    ensures UniqueIds(rs + [b]) && AsMap(rs + [b]) == AsMap(prev)
  {
    FindIsLookup(prev, b.id);
    FindIsLookup(rs, b.id);
    CreatedKeepsUnique(rs, b);
    assert AsMap(rs)[b.id := b] == AsMap(prev);
  }

  lemma RenameBackOnMap(m: map<string, Route>, b: Route, a: Route)
    requires Lookup(m, b.id) == Some(b) && (a.id in m ==> a.id == b.id)
    ensures ((m - {b.id})[a.id := a] - {a.id})[b.id := b] == m
  {
  }

  lemma UndoUpdateEdit(prev: seq<Route>, rs: seq<Route>, b: Route, a: Route)
    requires UniqueIds(prev) && Truthful(prev, Some(b), Some(a))
    requires UniqueIds(rs) && AsMap(rs) == (AsMap(prev) - {b.id})[a.id := a]
    ensures Has(rs, a.id) && (b.id == a.id || !Has(rs, b.id))
    ensures RollbackEdit(rs, Some(b), Some(a)) == Ok(Edit(Replaced(rs, a.id, b), Some(a), Some(b)))
  {
    FindIsLookup(rs, b.id);
    FindIsLookup(rs, a.id);
  }

  lemma UndoUpdate(prev: seq<Route>, rs: seq<Route>, b: Route, a: Route)
    requires UniqueIds(prev) && Truthful(prev, Some(b), Some(a))
    requires UniqueIds(rs) && AsMap(rs) == (AsMap(prev) - {b.id})[a.id := a]
    ensures RollbackEdit(rs, Some(b), Some(a)) == Ok(Edit(Replaced(rs, a.id, b), Some(a), Some(b)))
    ensures UniqueIds(Replaced(rs, a.id, b)) && AsMap(Replaced(rs, a.id, b)) == AsMap(prev)
    ensures rs == Replaced(prev, b.id, a) ==> Replaced(rs, a.id, b) == prev
  {
    FindIsLookup(prev, b.id);
    FindIsLookup(prev, a.id);
    UndoUpdateEdit(prev, rs, b, a);
    ReplacedKeepsUnique(rs, a.id, b);
    ReplaceBack(prev, b, a);
    RenameBackOnMap(AsMap(prev), b, a);
  }

  /** Rolling back an entry on a table that is, up to order, the one the entry produced always
      succeeds and gives back the table before the entry, up to order; and exactly it, if the
      entry did not delete. */
  lemma UndoOne(prev: seq<Route>, rs: seq<Route>, before: Option<Route>, after: Option<Route>)
    requires UniqueIds(prev) && Truthful(prev, before, after)
    requires UniqueIds(rs) && AsMap(rs) == AsMap(Redo(prev, before, after))
    ensures var r := RollbackEdit(rs, before, after);
            && r.Ok? && UniqueIds(r.value.routes) && AsMap(r.value.routes) == AsMap(prev)
            && (rs == Redo(prev, before, after) && after.Some? ==> r.value.routes == prev)
            && (rs == Redo(prev, before, after) && after.None? ==>
                  r.value.routes == Removed(prev, before.value.id) + [before.value])
  {
    RedoIsFold(prev, before, after);
    match (before, after)
    case (None, Some(a)) => UndoCreate(prev, rs, a);
    case (Some(b), None) => UndoDelete(prev, rs, b);
    case (Some(b), Some(a)) => UndoUpdate(prev, rs, b, a);
  }

  lemma LastReturnsLast(init: seq<Route>, b: Route)
    requires UniqueIds(init + [b])
    ensures Removed(init + [b], b.id) + [b] == init + [b]
  {
    forall i | 0 <= i < |init| ensures init[i].id != b.id {
      assert (init + [b])[i].id != (init + [b])[|init|].id;
    }
    RemoveBack(init, b);
  }

  /** Undoing a deletion puts the route last, so it restores the list exactly if the route
      was the last one. */
  lemma DeletedRouteReturnsLast(init: seq<Route>, last: Route, b: Route)
    requires UniqueIds(init + [last])
    ensures Removed(init + [last], b.id) + [b] == init + [last] <==> last == b
  {
    if last == b {
      LastReturnsLast(init, b);
    } else {
      var kept := Removed(init + [last], b.id);
      assert (kept + [b])[|kept|] != last;
      assert (init + [last])[|init|] == last;
    }
  }

  /** Rolling back the newest entry undoes whatever operation wrote it; when that operation
      was itself a rollback, this redoes what the rollback had undone. */
  lemma UndoNewest(st: State, op: Op, freshId: string, freshId': string)
    requires UniqueIds(st.routes) && ReplyOf(st, op) == Done
    requires forall i :: 0 <= i < |st.log| ==> st.log[i].id != freshId
    ensures var st1 := Execute(st, op, freshId);
            var st2 := Execute(st1, RollbackOp(freshId), freshId');
            && ReplyOf(st1, RollbackOp(freshId)) == Done
            && AsMap(st2.routes) == AsMap(st.routes)
            && (st1.log[|st.log|].after.Some? ==> st2.routes == st.routes)
  {
    ExecuteIsLogged(st, op, freshId);
    var st1 := Execute(st, op, freshId);
    var e := st1.log[|st.log|];
    FindEntryAt(st1.log, |st.log|);
    RedoIsFold(st.routes, e.before, e.after);
    UndoOne(st.routes, st1.routes, e.before, e.after);
  }

  // ---------- any entry, any table ----------

  /** When the rollback of an entry is accepted on a table: a created route must still be there,
      and a rename can only be reversed if the old id is free. */
  predicate CanRollBack(rs: seq<Route>, before: Option<Route>, after: Option<Route>) {
    match (before, after)
    case (None, Some(a)) => Has(rs, a.id)
    case (Some(b), Some(a)) => a.id == b.id || !Has(rs, a.id) || !Has(rs, b.id)
    case (Some(_), None) => true
    case (None, None) => false
  }

  lemma RestoreEffect(rs: seq<Route>, id: string, b: Route)
    requires UniqueIds(rs) && (id == b.id || Has(rs, id))
    ensures Restore(rs, id, b).Ok? <==> id == b.id || !Has(rs, b.id)
    ensures Restore(rs, id, b).Ok? ==>
              && UniqueIds(Restore(rs, id, b).value.routes)
              && AsMap(Restore(rs, id, b).value.routes) == (AsMap(rs) - {id})[b.id := b]
  {
    FindIsLookup(rs, id);
    FindIsLookup(rs, b.id);
    if !Has(rs, id) {
      CreatedKeepsUnique(rs, b);
      assert AsMap(rs) - {id} == AsMap(rs);
    } else if id == b.id || !Has(rs, b.id) {
      ReplacedKeepsUnique(rs, id, b);
    }
  }

  /** Rolling back any entry on any table with unique ids is accepted exactly under
      CanRollBack, and is then the reversed entry: after.id is removed and before is put. */
  lemma RollbackIsReverse(rs: seq<Route>, before: Option<Route>, after: Option<Route>)
    requires UniqueIds(rs)
    ensures RollbackEdit(rs, before, after).Ok? <==> CanRollBack(rs, before, after)
    ensures RollbackEdit(rs, before, after).Ok? ==>
              var rs' := RollbackEdit(rs, before, after).value.routes;
              UniqueIds(rs') && AsMap(rs') == RedoMap(AsMap(rs), after, before)
  {
    match (before, after)
    case (None, Some(a)) =>
      FindIsLookup(rs, a.id);
      RemovedKeepsUnique(rs, a.id);
    case (Some(b), None) =>
      RestoreEffect(rs, b.id, b);
      assert (AsMap(rs) - {b.id})[b.id := b] == AsMap(rs)[b.id := b];
    case (Some(b), Some(a)) =>
      FindIsLookup(rs, a.id);
      if Has(rs, a.id) {
        RestoreEffect(rs, a.id, b);
      } else {
        RestoreEffect(rs, b.id, b);
        assert AsMap(rs) - {a.id} == AsMap(rs);
        assert (AsMap(rs) - {b.id})[b.id := b] == AsMap(rs)[b.id := b];
      }
    case (None, None) =>
  }

  // ---------- whole runs ----------

  ghost predicate DistinctIds(log: seq<Entry>) {
    forall i, j :: 0 <= i < j < |log| ==> log[i].id != log[j].id
  }

  /** Rolls back the entries n - 1, n - 2, ..., k by their ids; None if one is refused. */
  function UndoTo(st: State, n: nat, k: nat, newIds: seq<string>): Option<State>
    requires k <= n <= |st.log| && n - k <= |newIds|
    decreases n - k
  {
    if n == k then Some(st)
    else
      var op := RollbackOp(st.log[n - 1].id);
      if ReplyOf(st, op) != Done then None
      else UndoTo(Execute(st, op, newIds[0]), n - 1, k, newIds[1..])
  }

  lemma RollbackExecutes(st: State, e: Entry, newId: string)
    requires FindEntry(st.log, e.id) == Some(e) && RollbackEdit(st.routes, e.before, e.after).Ok?
    ensures ReplyOf(st, RollbackOp(e.id)) == Done
    ensures var st' := Execute(st, RollbackOp(e.id), newId);
            && st'.routes == RollbackEdit(st.routes, e.before, e.after).value.routes
            && |st'.log| == |st.log| + 1 && st'.log[..|st.log|] == st.log
  {
    ExecuteIsLogged(st, RollbackOp(e.id), newId);
  }

  /** The edit is accepted and gives back prev, up to order or exactly. */
  ghost predicate GivesBack(r: Result<Edit, int>, prev: seq<Route>, exact: bool) {
    && r.Ok? && UniqueIds(r.value.routes) && AsMap(r.value.routes) == AsMap(prev)
    && (exact ==> r.value.routes == prev)
  }

  lemma EntryGivesBack(rs: seq<Route>, prev: seq<Route>, e: Entry)
    requires UniqueIds(prev) && Truthful(prev, e.before, e.after)
    requires UniqueIds(rs) && AsMap(rs) == AsMap(Redo(prev, e.before, e.after))
    ensures GivesBack(RollbackEdit(rs, e.before, e.after), prev,
                      rs == Redo(prev, e.before, e.after) && e.after.Some?)
  {
    UndoOne(prev, rs, e.before, e.after);
  }

  lemma UndoFound(st: State, prev: seq<Route>, e: Entry, newId: string)
    requires FindEntry(st.log, e.id) == Some(e)
    requires UniqueIds(prev) && Truthful(prev, e.before, e.after)
    requires UniqueIds(st.routes) && AsMap(st.routes) == AsMap(Redo(prev, e.before, e.after))
    ensures ReplyOf(st, RollbackOp(e.id)) == Done
    ensures var st' := Execute(st, RollbackOp(e.id), newId);
            && |st'.log| > |st.log| && st'.log[..|st.log|] == st.log
            && UniqueIds(st'.routes) && AsMap(st'.routes) == AsMap(prev)
            && (st.routes == Redo(prev, e.before, e.after) && e.after.Some? ==> st'.routes == prev)
  {
    EntryGivesBack(st.routes, prev, e);
    RollbackExecutes(st, e, newId);
  }

  /** The longer log still has every entry of log at its place. */
  ghost predicate Keeps(longer: seq<Entry>, log: seq<Entry>) {
    |log| <= |longer| && forall i :: 0 <= i < |log| ==> longer[i] == log[i]
  }

  lemma FindKept(log: seq<Entry>, longer: seq<Entry>, k: nat)
    requires DistinctIds(log) && Keeps(longer, log) && k < |log|
    ensures FindEntry(longer, log[k].id) == Some(log[k])
  {
    forall i | 0 <= i < k ensures longer[i].id != longer[k].id {
      assert longer[i] == log[i] && longer[k] == log[k];
    }
    FindEntryAt(longer, k);
  }

  /** next is what the truthful entry e makes of prev. */
  ghost predicate Link(prev: seq<Route>, next: seq<Route>, e: Entry) {
    && UniqueIds(prev) && Truthful(prev, e.before, e.after)
    && next == Redo(prev, e.before, e.after)
  }

  /** The tables that the entries from base on pass through; the others are not looked at. */
  ghost predicate Chain(tables: seq<seq<Route>>, log: seq<Entry>, base: nat) {
    |tables| == |log| + 1 && forall i :: base <= i < |log| ==> LinkAt(tables, log, i)
  }

  ghost predicate LinkAt(tables: seq<seq<Route>>, log: seq<Entry>, i: int)
    requires |tables| == |log| + 1 && 0 <= i < |log|
  {
    Link(tables[i], tables[i + 1], log[i])
  }

  /** The table of st is the given one up to order, and its log still has every entry of log. */
  ghost predicate StandsAt(table: seq<Route>, log: seq<Entry>, st: State) {
    && DistinctIds(log) && Keeps(st.log, log)
    && UniqueIds(st.routes) && AsMap(st.routes) == AsMap(table)
  }

  /** Rolling back entry n - 1 by its id leads from the table after it to the table before it. */
  lemma UndoStep(prev: seq<Route>, next: seq<Route>, log: seq<Entry>, n: nat, st: State, newId: string)
    requires 1 <= n <= |log| && Link(prev, next, log[n - 1]) && StandsAt(next, log, st)
    ensures st.log[n - 1] == log[n - 1]
    ensures ReplyOf(st, RollbackOp(log[n - 1].id)) == Done
    ensures StandsAt(prev, log, Execute(st, RollbackOp(log[n - 1].id), newId))
    ensures st.routes == next && log[n - 1].after.Some? ==>
              Execute(st, RollbackOp(log[n - 1].id), newId).routes == prev
  {
    FindKept(log, st.log, n - 1);
    UndoFound(st, prev, log[n - 1], newId);
    var st' := Execute(st, RollbackOp(log[n - 1].id), newId);
    forall i | 0 <= i < |log| ensures st'.log[i] == log[i] {
      assert st'.log[..|st.log|][i] == st.log[i];
    }
  }

  lemma UndoOnce(prev: seq<Route>, next: seq<Route>, log: seq<Entry>, n: nat, st: State, k: nat, newIds: seq<string>)
    returns (st': State)
    requires k < n <= |log| && n - k <= |newIds|
    requires Link(prev, next, log[n - 1]) && StandsAt(next, log, st)
    ensures n <= |st.log| && StandsAt(prev, log, st') && n - 1 <= |st'.log|
    ensures UndoTo(st, n, k, newIds) == UndoTo(st', n - 1, k, newIds[1..])
    ensures st.routes == next && log[n - 1].after.Some? ==> st'.routes == prev
  {
    UndoStep(prev, next, log, n, st, newIds[0]);
    st' := Execute(st, RollbackOp(log[n - 1].id), newIds[0]);
  }

  /** None of the entries k, ..., n - 1 deleted a route. */
  ghost predicate NoDeletion(log: seq<Entry>, k: nat, n: nat)
    requires n <= |log|
  {
    forall i :: k <= i < n ==> log[i].after.Some?
  }

  /** The rollbacks succeeded and left the table up to order, or exactly. */
  ghost predicate Left(done: Option<State>, table: seq<Route>, exact: bool) {
    done.Some? && AsMap(done.value.routes) == AsMap(table) && (exact ==> done.value.routes == table)
  }

  lemma {:induction false} UndoSteps(tables: seq<seq<Route>>, log: seq<Entry>, base: nat, n: nat, st: State,
                                     k: nat, newIds: seq<string>, exact: bool)
    requires Chain(tables, log, base) && base <= k <= n <= |log| && n - k <= |newIds|
    requires StandsAt(tables[n], log, st)
    requires exact ==> st.routes == tables[n] && NoDeletion(log, k, n)
    ensures n <= |st.log| && Left(UndoTo(st, n, k, newIds), tables[k], exact)
    decreases n
  {
    if n == k {
    } else {
      assert LinkAt(tables, log, n - 1);
      var st' := UndoOnce(tables[n - 1], tables[n], log, n, st, k, newIds);
      UndoSteps(tables, log, base, n - 1, st', k, newIds[1..], exact);
    }
  }

  /** The tables of a truthful log. */
  function Tables(rs0: seq<Route>, log: seq<Entry>, base: nat): seq<seq<Route>>
    requires base <= |log|
  {
    seq(|log| + 1, i requires 0 <= i <= |log| => if i < base then [] else Replay(rs0, log[base..i]))
  }

  lemma TruthfulPrefix(rs0: seq<Route>, log: seq<Entry>, n: nat)
    requires TruthfulLog(rs0, log) && n <= |log|
    ensures TruthfulLog(rs0, log[..n])
    decreases |log|
  {
    if n == |log| {
      assert log[..n] == log;
    } else {
      TruthfulPrefix(rs0, log[..|log| - 1], n);
      assert log[..|log| - 1][..n] == log[..n];
    }
  }

  lemma LinkOfLog(rs0: seq<Route>, log: seq<Entry>, base: nat, i: nat)
    requires base <= i < |log| && UniqueIds(rs0) && TruthfulLog(rs0, log[base..])
    ensures Link(Replay(rs0, log[base..i]), Replay(rs0, log[base..i + 1]), log[i])
  {
    var slice := log[base..i + 1];
    TruthfulPrefix(rs0, log[base..], i + 1 - base);
    assert log[base..][..i + 1 - base] == slice;
    assert slice[..|slice| - 1] == log[base..i] && slice[|slice| - 1] == log[i];
    ReplayIsFold(rs0, log[base..i]);
  }

  lemma ChainOfLog(rs0: seq<Route>, log: seq<Entry>, base: nat)
    requires base <= |log| && UniqueIds(rs0) && TruthfulLog(rs0, log[base..])
    ensures Chain(Tables(rs0, log, base), log, base)
  {
    var tables := Tables(rs0, log, base);
    forall i | base <= i < |log| ensures LinkAt(tables, log, i) {
      LinkOfLog(rs0, log, base, i);
    }
  }

  /** In any state whose log explains its table up to order, rolling back the entries above k,
      newest first, always succeeds and restores the map as it stood after entry k. */
  lemma UndoRestores(rs0: seq<Route>, st: State, k: nat, newIds: seq<string>)
    requires Explained(rs0, st) && DistinctIds(st.log)
    requires k <= |st.log| && |st.log| - k <= |newIds|
    ensures var done := UndoTo(st, |st.log|, k, newIds);
            done.Some? && AsMap(done.value.routes) == Fold(AsMap(rs0), st.log[..k])
  {
    assert st.log[0..] == st.log && st.log[0..|st.log|] == st.log && st.log[0..k] == st.log[..k];
    var tables := Tables(rs0, st.log, 0);
    ChainOfLog(rs0, st.log, 0);
    UndoSteps(tables, st.log, 0, |st.log|, st, k, newIds, false);
    TruthfulPrefix(rs0, st.log, k);
    ReplayIsFold(rs0, st.log[..k]);
  }

  /** When the entries from base on explain the list exactly, rolling back those above k
      restores the list, if none of them deleted a route. */
  lemma UndoRestoresList(rs0: seq<Route>, base: nat, st: State, k: nat, newIds: seq<string>)
    requires base <= k <= |st.log| && |st.log| - k <= |newIds|
    requires UniqueIds(rs0) && TruthfulLog(rs0, st.log[base..]) && st.routes == Replay(rs0, st.log[base..])
    requires DistinctIds(st.log) && NoDeletion(st.log, k, |st.log|)
    ensures var done := UndoTo(st, |st.log|, k, newIds);
            done.Some? && done.value.routes == Replay(rs0, st.log[base..k])
  {
    assert st.log[base..|st.log|] == st.log[base..];
    ReplayIsFold(rs0, st.log[base..]);
    var tables := Tables(rs0, st.log, base);
    ChainOfLog(rs0, st.log, base);
    UndoSteps(tables, st.log, base, |st.log|, st, k, newIds, true);
  }

  /** The identifiers of new entries are new and different. */
  ghost predicate FreshIds(log: seq<Entry>, acts: seq<Act>) {
    && (forall i, j :: 0 <= i < j < |acts| ==> acts[i].freshId != acts[j].freshId)
    && (forall i, j :: 0 <= i < |log| && 0 <= j < |acts| ==> log[i].id != acts[j].freshId)
  }

  lemma AppendKeepsDistinct(log: seq<Entry>, log': seq<Entry>, newId: string)
    requires DistinctIds(log) && forall i :: 0 <= i < |log| ==> log[i].id != newId
    requires |log'| == |log| + 1 && log'[..|log|] == log && log'[|log|].id == newId
    ensures DistinctIds(log')
  {
    assert forall i :: 0 <= i < |log| ==> log'[i] == log'[..|log|][i];
  }

  ghost predicate IdAmong(id: string, acts: seq<Act>) {
    exists j :: 0 <= j < |acts| && acts[j].freshId == id
  }

  /** Every entry is an old one or has the identifier of one of the acts. */
  ghost predicate IdsFrom(log: seq<Entry>, old_: seq<Entry>, acts: seq<Act>) {
    && |old_| <= |log|
    && (forall i :: 0 <= i < |old_| ==> log[i] == old_[i])
    && (forall i :: |old_| <= i < |log| ==> IdAmong(log[i].id, acts))
  }

  lemma AmongMore(id: string, acts: seq<Act>, act: Act)
    ensures IdAmong(id, acts + [act]) <==> IdAmong(id, acts) || id == act.freshId
  {
    assert (acts + [act])[|acts|] == act;
    if IdAmong(id, acts) {
      var j :| 0 <= j < |acts| && acts[j].freshId == id;
      assert (acts + [act])[j].freshId == id;
    }
  }

  lemma IdsFromMore(log: seq<Entry>, old_: seq<Entry>, acts: seq<Act>, act: Act)
    requires IdsFrom(log, old_, acts)
    ensures IdsFrom(log, old_, acts + [act])
  {
    forall i | |old_| <= i < |log| ensures IdAmong(log[i].id, acts + [act]) {
      AmongMore(log[i].id, acts, act);
    }
  }

  lemma IdsFromEntry(log: seq<Entry>, old_: seq<Entry>, acts: seq<Act>, act: Act, e: Entry)
    requires IdsFrom(log, old_, acts) && e.id == act.freshId
    ensures IdsFrom(log + [e], old_, acts + [act])
  {
    forall i | |old_| <= i < |log + [e]| ensures IdAmong((log + [e])[i].id, acts + [act]) {
      AmongMore((log + [e])[i].id, acts, act);
    }
  }

  lemma FreshIsNew(log: seq<Entry>, old_: seq<Entry>, acts: seq<Act>, i: nat)
    requires acts != [] && FreshIds(old_, acts) && IdsFrom(log, old_, acts[..|acts| - 1]) && i < |log|
    ensures log[i].id != acts[|acts| - 1].freshId
  {
    var init := acts[..|acts| - 1];
    if i >= |old_| {
      assert IdAmong(log[i].id, init);
      var j :| 0 <= j < |init| && init[j].freshId == log[i].id;
      assert acts[j] == init[j];
    }
  }

  lemma {:induction false} RunKeepsDistinct(st: State, acts: seq<Act>)
    requires DistinctIds(st.log) && FreshIds(st.log, acts)
    ensures DistinctIds(RunOps(st, acts).log) && IdsFrom(RunOps(st, acts).log, st.log, acts)
    decreases |acts|
  {
    if acts == [] {
    } else {
      var init, last := acts[..|acts| - 1], acts[|acts| - 1];
      RunKeepsDistinct(st, init);
      var st1 := RunOps(st, init);
      var st2 := Execute(st1, last.op, last.freshId);
      ExecuteIsLogged(st1, last.op, last.freshId);
      assert acts == init + [last];
      if st2 == st1 {
        IdsFromMore(st1.log, st.log, init, last);
      } else {
        forall i | 0 <= i < |st1.log| ensures st1.log[i].id != last.freshId {
          FreshIsNew(st1.log, st.log, acts, i);
        }
        AppendKeepsDistinct(st1.log, st2.log, last.freshId);
        assert st2.log == st1.log + [st2.log[|st1.log|]];
        IdsFromEntry(st1.log, st.log, init, last, st2.log[|st1.log|]);
      }
    }
  }

  /** Undo over whole runs. Start from any table and log that explains it up to order, such as
      a table with unique ids and no log, or what a restart leaves (RestartKeepsHistory). After
      any sequence of operations, renames, refused operations and rollbacks included, rolling
      back the entries above k, those from before the run included, succeeds and restores the
      map as it stood after entry k; and the list, if all of these entries are from this run
      and none deleted a route. */
  lemma UndoOverRuns(rs0: seq<Route>, st0: State, acts: seq<Act>, k: nat, newIds: seq<string>)
    requires Explained(rs0, st0) && DistinctIds(st0.log) && FreshIds(st0.log, acts)
    requires k <= |RunOps(st0, acts).log| <= k + |newIds|
    ensures var st := RunOps(st0, acts);
            var done := UndoTo(st, |st.log|, k, newIds);
            && st0.log <= st.log
            && done.Some? && AsMap(done.value.routes) == Fold(AsMap(rs0), st.log[..k])
            && (|st0.log| <= k && NoDeletion(st.log, k, |st.log|) ==>
                  done.value.routes == Replay(st0.routes, st.log[|st0.log|..k]))
  {
    var st := RunOps(st0, acts);
    RunKeepsExplained(rs0, st0, acts);
    RunKeepsDistinct(st0, acts);
    HistoryIsExact(st0, acts);
    UndoRestores(rs0, st, k, newIds);
    if |st0.log| <= k && NoDeletion(st.log, k, |st.log|) {
      UndoRestoresList(st0.routes, |st0.log|, st, k, newIds);
    }
  }

  // ---------- after a restart ----------

  lemma {:induction false} SplitLog(rs0: seq<Route>, xs: seq<Entry>, ys: seq<Entry>)
    requires TruthfulLog(rs0, xs + ys)
    ensures TruthfulLog(rs0, xs) && TruthfulLog(Replay(rs0, xs), ys)
    ensures Replay(rs0, xs + ys) == Replay(Replay(rs0, xs), ys)
    decreases |ys|
  {
    if ys == [] {
      assert xs + ys == xs;
    } else {
      assert (xs + ys)[..|xs + ys| - 1] == xs + ys[..|ys| - 1];
      SplitLog(rs0, xs, ys[..|ys| - 1]);
    }
  }

  lemma DistinctSuffix(log: seq<Entry>, cut: nat)
    requires DistinctIds(log) && cut <= |log|
    ensures DistinctIds(log[cut..])
  {
    var kept := log[cut..];
    forall i, j | 0 <= i < j < |kept| ensures kept[i].id != kept[j].id {
      assert log[cut + i].id != log[cut + j].id;
    }
  }

  /** After a restart the table is loaded from the Redis hash, in whatever order that returns,
      and the history holds only the newest entries, those above some cut. They still explain
      the table up to order, from the table as it stood before them, so UndoOverRuns applies. */
  lemma RestartKeepsHistory(rs0: seq<Route>, st: State, cut: nat, keys: seq<string>)
    requires Explained(rs0, st) && DistinctIds(st.log) && cut <= |st.log|
    requires ConfigLoader.Enumerates(keys, AsMap(st.routes))
    ensures AsMap(Replay(rs0, st.log[..cut])) == Fold(AsMap(rs0), st.log[..cut])
    ensures Explained(Replay(rs0, st.log[..cut]),
                      State(ConfigLoader.Loaded(keys, AsMap(st.routes)), st.log[cut..]))
    ensures DistinctIds(st.log[cut..])
  {
    assert st.log == st.log[..cut] + st.log[cut..];
    SplitLog(rs0, st.log[..cut], st.log[cut..]);
    ReplayIsFold(rs0, st.log[..cut]);
    DistinctSuffix(st.log, cut);
    ConfigLoader.SaveLoadRoundTrip(st.routes, keys);
  }

  /** Undo across a restart: a run, a restart that keeps the entries above cut and loads the
      hash in any order, and another run; rolling back to entry k of the kept history succeeds
      and restores the map as it stood after that entry. */
  lemma UndoAcrossRestart(rs0: seq<Route>, acts: seq<Act>, cut: nat, keys: seq<string>,
                          acts': seq<Act>, k: nat, newIds: seq<string>)
    requires UniqueIds(rs0) && FreshIds([], acts)
    requires var st := RunOps(State(rs0, []), acts);
             && cut <= |st.log| && ConfigLoader.Enumerates(keys, AsMap(st.routes))
             && FreshIds(st.log[cut..], acts')
    requires var st := RunOps(State(rs0, []), acts);
             var back := State(ConfigLoader.Loaded(keys, AsMap(st.routes)), st.log[cut..]);
             k <= |RunOps(back, acts').log| <= k + |newIds|
    ensures var st := RunOps(State(rs0, []), acts);
            var back := State(ConfigLoader.Loaded(keys, AsMap(st.routes)), st.log[cut..]);
            var st' := RunOps(back, acts');
            var done := UndoTo(st', |st'.log|, k, newIds);
            && done.Some?
            && AsMap(done.value.routes) == Fold(Fold(AsMap(rs0), st.log[..cut]), st'.log[..k])
  {
    var st := RunOps(State(rs0, []), acts);
    RunKeepsExplained(rs0, State(rs0, []), acts);
    RunKeepsDistinct(State(rs0, []), acts);
    RestartKeepsHistory(rs0, st, cut, keys);
    var back := State(ConfigLoader.Loaded(keys, AsMap(st.routes)), st.log[cut..]);
    UndoOverRuns(Replay(rs0, st.log[..cut]), back, acts', k, newIds);
  }
}
