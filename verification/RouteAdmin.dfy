/** The admin operations on the route table: what each does to the table and to the history,
    and what rollbacks undo. */
module RouteAdmin {
  import opened Wrappers
  import opened RouteTable
  import opened RouteHistory

  datatype State = State(routes: seq<Route>, log: seq<Entry>)

  /** A payload that does not validate is None. */
  datatype Op =
    | CreateOp(payload: Option<Route>)
    | UpdateOp(id: string, payload: Option<Route>)
    | DeleteOp(id: string)
    | RollbackOp(entryId: string)

  /** HTTP status of a refused operation; 500 is an exception that no handler catches. */
  datatype Reply = Done | Refused(status: int)

  /** A table edit together with the snapshots that the handler logs. */
  datatype Edit = Edit(routes: seq<Route>, before: Option<Route>, after: Option<Route>)

  function FromStore(r: Result<seq<Route>, StoreError>, before: Option<Route>, after: Option<Route>)
    : Result<Edit, int>
  {
    match r
    case Ok(routes) => Ok(Edit(routes, before, after))
    case Err(AlreadyExists) => Err(409)
    case Err(NoSuchRoute) => Err(500)
  }

  function CreateEdit(rs: seq<Route>, payload: Option<Route>): Result<Edit, int> {
    if payload.None? then Err(409)
    else FromStore(Created(rs, payload.value), None, payload)
  }

  function UpdateEdit(rs: seq<Route>, id: string, payload: Option<Route>): Result<Edit, int> {
    if Find(rs, id).None? then Err(404)
    else if payload.None? then Err(409)
    else FromStore(Updated(rs, id, payload.value), Find(rs, id), payload)
  }

  function DeleteEdit(rs: seq<Route>, id: string): Result<Edit, int> {
    if Find(rs, id).None? then Err(404)
    else FromStore(Deleted(rs, id), Find(rs, id), None)
  }

  /** The rollback handler does not catch the loader's errors. */
  function Uncaught(r: Result<Edit, int>): Result<Edit, int> {
    if r.Err? then Err(500) else r
  }

  /** Puts a snapshot in the place of the route with the id, or appends it. */
  function Restore(rs: seq<Route>, id: string, snapshot: Route): Result<Edit, int> {
    if Find(rs, id).None? then Uncaught(FromStore(Created(rs, snapshot), None, Some(snapshot)))
    else Uncaught(FromStore(Updated(rs, id, snapshot), Find(rs, id), Some(snapshot)))
  }

  function RollbackEdit(rs: seq<Route>, before: Option<Route>, after: Option<Route>): Result<Edit, int> {
    match (before, after)
    case (None, Some(a)) =>
      if Find(rs, a.id).None? then Err(409)
      else Uncaught(FromStore(Deleted(rs, a.id), Find(rs, a.id), None))
    case (Some(b), None) => Restore(rs, b.id, b)
    case (Some(b), Some(a)) =>
      if Find(rs, a.id).Some? then Restore(rs, a.id, b) else Restore(rs, b.id, b)
    case (None, None) => Err(422)
  }

  function EditOf(st: State, op: Op): Result<Edit, int> {
    match op
    case CreateOp(payload) => CreateEdit(st.routes, payload)
    case UpdateOp(id, payload) => UpdateEdit(st.routes, id, payload)
    case DeleteOp(id) => DeleteEdit(st.routes, id)
    case RollbackOp(entryId) =>
      var e := FindEntry(st.log, entryId);
      if e.None? then Err(404) else RollbackEdit(st.routes, e.value.before, e.value.after)
  }

  function EntryOf(st: State, op: Op, edit: Edit, freshId: string): Entry {
    match op
    case CreateOp(_) =>
      Entry(freshId, Create, if edit.after.Some? then edit.after.value.id else "", edit.before, edit.after,
            "route-created")
    case UpdateOp(id, _) =>
      Entry(freshId, Update, if edit.after.Some? then edit.after.value.id else "", edit.before, edit.after,
            "updated-from:" + id)
    case DeleteOp(id) => Entry(freshId, Delete, id, edit.before, edit.after, "route-deleted")
    case RollbackOp(entryId) =>
      var e := FindEntry(st.log, entryId);
      Entry(freshId, Rollback, if e.Some? then e.value.routeId else "", edit.before, edit.after,
            "rollback-of:" + entryId)
  }

  /** One admin request; freshId is the identifier a new history entry gets. */
  function Execute(st: State, op: Op, freshId: string): State {
    match EditOf(st, op)
    case Ok(edit) => State(edit.routes, st.log + [EntryOf(st, op, edit, freshId)])
    case Err(_) => st
  }

  function ReplyOf(st: State, op: Op): Reply {
    match EditOf(st, op)
    case Ok(_) => Done
    case Err(status) => Refused(status)
  }

  // ---------- the log explains the table ----------

  /** What an entry says happened to the table. */
  function Redo(rs: seq<Route>, before: Option<Route>, after: Option<Route>): seq<Route> {
    match (before, after)
    case (None, Some(a)) => rs + [a]
    case (Some(b), None) => Removed(rs, b.id)
    case (Some(b), Some(a)) => Replaced(rs, b.id, a)
    case (None, None) => rs
  }

  /** The snapshots are true of the table the entry applies to: before is the route really
      present, and the id of after is free or freed by the entry itself. */
  ghost predicate Truthful(rs: seq<Route>, before: Option<Route>, after: Option<Route>) {
    && (before.Some? || after.Some?)
    && (before.Some? ==> Find(rs, before.value.id) == before)
    && (after.Some? ==> !Has(rs, after.value.id) || (before.Some? && before.value.id == after.value.id))
  }

  function Replay(rs0: seq<Route>, log: seq<Entry>): seq<Route> {
    if log == [] then rs0
    else Redo(Replay(rs0, log[..|log| - 1]), log[|log| - 1].before, log[|log| - 1].after)
  }

  ghost predicate TruthfulLog(rs0: seq<Route>, log: seq<Entry>) {
    log != [] ==>
      && TruthfulLog(rs0, log[..|log| - 1])
      && Truthful(Replay(rs0, log[..|log| - 1]), log[|log| - 1].before, log[|log| - 1].after)
  }

  /** The fold over the map: remove before.id, put after. */
  function RedoMap(m: map<string, Route>, before: Option<Route>, after: Option<Route>): map<string, Route> {
    var removed := if before.Some? then m - {before.value.id} else m;
    if after.Some? then removed[after.value.id := after.value] else removed
  }

  lemma RedoIsFold(rs: seq<Route>, before: Option<Route>, after: Option<Route>)
    requires UniqueIds(rs) && Truthful(rs, before, after)
    ensures UniqueIds(Redo(rs, before, after))
    ensures AsMap(Redo(rs, before, after)) == RedoMap(AsMap(rs), before, after)
  {
    if before.Some? {
      FindIsPresent(rs, before.value.id);
    }
    match (before, after)
    case (None, Some(a)) => CreatedKeepsUnique(rs, a);
    case (Some(b), None) => RemovedKeepsUnique(rs, b.id);
    case (Some(b), Some(a)) => ReplacedKeepsUnique(rs, b.id, a);
  }

  /** Whether an edit's snapshots are true of the table and its replay is the edited table. */
  ghost predicate IsTrueEdit(rs: seq<Route>, edit: Edit) {
    Truthful(rs, edit.before, edit.after) && edit.routes == Redo(rs, edit.before, edit.after)
  }

  lemma RestoreIsTrue(rs: seq<Route>, id: string, snapshot: Route)
    ensures Restore(rs, id, snapshot).Ok? ==> IsTrueEdit(rs, Restore(rs, id, snapshot).value)
  {
    FindIsPresent(rs, id);
    FindIsPresent(rs, snapshot.id);
  }

  lemma RollbackIsTrue(rs: seq<Route>, before: Option<Route>, after: Option<Route>)
    ensures RollbackEdit(rs, before, after).Ok? ==> IsTrueEdit(rs, RollbackEdit(rs, before, after).value)
  {
    if after.Some? {
      FindIsPresent(rs, after.value.id);
    }
    match (before, after)
    case (Some(b), None) => RestoreIsTrue(rs, b.id, b);
    case (Some(b), Some(a)) =>
      RestoreIsTrue(rs, a.id, b);
      RestoreIsTrue(rs, b.id, b);
    case _ =>
  }

  lemma UpdateIsTrue(rs: seq<Route>, id: string, payload: Option<Route>)
    ensures UpdateEdit(rs, id, payload).Ok? ==> IsTrueEdit(rs, UpdateEdit(rs, id, payload).value)
  {
    FindIsPresent(rs, id);
  }

  lemma DeleteIsTrue(rs: seq<Route>, id: string)
    ensures DeleteEdit(rs, id).Ok? ==> IsTrueEdit(rs, DeleteEdit(rs, id).value)
  {
    FindIsPresent(rs, id);
  }

  lemma EditIsTruthful(st: State, op: Op)
    requires EditOf(st, op).Ok?
    ensures IsTrueEdit(st.routes, EditOf(st, op).value)
  {
    match op
    case CreateOp(_) =>
    case UpdateOp(id, payload) => UpdateIsTrue(st.routes, id, payload);
    case DeleteOp(id) => DeleteIsTrue(st.routes, id);
    case RollbackOp(entryId) =>
      var e := FindEntry(st.log, entryId).value;
      RollbackIsTrue(st.routes, e.before, e.after);
  }

  /** A successful operation adds one truthful entry whose replay is the new table; a refused
      one changes neither table nor log. */
  lemma ExecuteIsLogged(st: State, op: Op, freshId: string)
    ensures ReplyOf(st, op).Refused? ==> Execute(st, op, freshId) == st
    ensures ReplyOf(st, op) == Done ==>
              var st' := Execute(st, op, freshId);
              && |st'.log| == |st.log| + 1 && st'.log[..|st.log|] == st.log
              && var e := st'.log[|st.log|];
              && e.id == freshId
              && Truthful(st.routes, e.before, e.after)
              && st'.routes == Redo(st.routes, e.before, e.after)
  {
    if EditOf(st, op).Ok? {
      EditIsTruthful(st, op);
    }
  }

  // ---------- runs ----------

  /** The map-level fold over a whole log. */
  function Fold(m: map<string, Route>, log: seq<Entry>): map<string, Route> {
    if log == [] then m
    else RedoMap(Fold(m, log[..|log| - 1]), log[|log| - 1].before, log[|log| - 1].after)
  }

  lemma {:induction false} ReplayIsFold(rs0: seq<Route>, log: seq<Entry>)
    requires UniqueIds(rs0) && TruthfulLog(rs0, log)
    ensures UniqueIds(Replay(rs0, log)) && AsMap(Replay(rs0, log)) == Fold(AsMap(rs0), log)
    decreases |log|
  {
    if log == [] {
    } else {
      var init := log[..|log| - 1];
      ReplayIsFold(rs0, init);
      RedoIsFold(Replay(rs0, init), log[|log| - 1].before, log[|log| - 1].after);
    }
  }

  /** The log explains the table up to its order, from the table rs0. */
  ghost predicate Explained(rs0: seq<Route>, st: State) {
    && UniqueIds(rs0) && TruthfulLog(rs0, st.log)
    && UniqueIds(st.routes) && AsMap(st.routes) == AsMap(Replay(rs0, st.log))
  }

  /** Truth of an entry depends on the table only as a map. */
  lemma TruthfulUpToOrder(rs: seq<Route>, rs': seq<Route>, before: Option<Route>, after: Option<Route>)
    requires UniqueIds(rs) && UniqueIds(rs') && AsMap(rs) == AsMap(rs')
    requires Truthful(rs, before, after)
    ensures Truthful(rs', before, after)
    ensures AsMap(Redo(rs, before, after)) == AsMap(Redo(rs', before, after))
  {
    if before.Some? {
      FindIsLookup(rs, before.value.id);
      FindIsLookup(rs', before.value.id);
    }
    if after.Some? {
      FindIsLookup(rs, after.value.id);
      FindIsLookup(rs', after.value.id);
    }
    RedoIsFold(rs, before, after);
    RedoIsFold(rs', before, after);
  }

  lemma AppendEntry(rs0: seq<Route>, log: seq<Entry>, e: Entry)
    requires TruthfulLog(rs0, log) && Truthful(Replay(rs0, log), e.before, e.after)
    ensures TruthfulLog(rs0, log + [e])
    ensures Replay(rs0, log + [e]) == Redo(Replay(rs0, log), e.before, e.after)
  {
    assert (log + [e])[..|log + [e]| - 1] == log;
  }

  lemma StepKeepsExplained(rs0: seq<Route>, st: State, op: Op, freshId: string)
    requires Explained(rs0, st)
    ensures Explained(rs0, Execute(st, op, freshId))
  {
    ExecuteIsLogged(st, op, freshId);
    var st' := Execute(st, op, freshId);
    if st' != st {
      var e := st'.log[|st.log|];
      assert st'.log == st.log + [e];
      ReplayIsFold(rs0, st.log);
      TruthfulUpToOrder(st.routes, Replay(rs0, st.log), e.before, e.after);
      AppendEntry(rs0, st.log, e);
      RedoIsFold(st.routes, e.before, e.after);
    }
  }

  datatype Act = Act(op: Op, freshId: string)

  function RunOps(st: State, acts: seq<Act>): State {
    if acts == [] then st
    else Execute(RunOps(st, acts[..|acts| - 1]), acts[|acts| - 1].op, acts[|acts| - 1].freshId)
  }

  lemma {:induction false} RunKeepsExplained(rs0: seq<Route>, st: State, acts: seq<Act>)
    requires Explained(rs0, st)
    ensures Explained(rs0, RunOps(st, acts))
    decreases |acts|
  {
    if acts == [] {
    } else {
      var init, last := acts[..|acts| - 1], acts[|acts| - 1];
      RunKeepsExplained(rs0, st, init);
      StepKeepsExplained(rs0, RunOps(st, init), last.op, last.freshId);
    }
  }

  /** What a run from st adds to the log, and that it explains the table exactly. */
  ghost predicate Extends(st: State, st': State, more: seq<Entry>) {
    && st'.log == st.log + more
    && TruthfulLog(st.routes, more)
    && st'.routes == Replay(st.routes, more)
  }

  lemma StepExtends(st0: State, st: State, more: seq<Entry>, op: Op, freshId: string) returns (more': seq<Entry>)
    requires Extends(st0, st, more)
    ensures Extends(st0, Execute(st, op, freshId), more')
  {
    ExecuteIsLogged(st, op, freshId);
    var st' := Execute(st, op, freshId);
    more' := more;
    if st' != st {
      var e := st'.log[|st.log|];
      assert st'.log == st0.log + (more + [e]);
      AppendEntry(st0.routes, more, e);
      more' := more + [e];
    }
  }

  lemma {:induction false} RunExtends(st: State, acts: seq<Act>) returns (more: seq<Entry>)
    ensures Extends(st, RunOps(st, acts), more)
    decreases |acts|
  {
    if acts == [] {
      more := [];
    } else {
      var init, last := acts[..|acts| - 1], acts[|acts| - 1];
      more := RunExtends(st, init);
      more := StepExtends(st, RunOps(st, init), more, last.op, last.freshId);
    }
  }

  /** The history is an exact event log: whatever log and table a run of operations starts
      from, failed ones included, it only appends to the log; every new entry was truthful when
      it was written, replaying them from the starting list gives the current list, folding
      them over the starting map gives the current map, and ids stay unique. */
  lemma HistoryIsExact(st: State, acts: seq<Act>)
    requires UniqueIds(st.routes)
    ensures var st' := RunOps(st, acts);
            && st.log <= st'.log
            && var more := st'.log[|st.log|..];
            && TruthfulLog(st.routes, more)
            && st'.routes == Replay(st.routes, more)
            && AsMap(st'.routes) == Fold(AsMap(st.routes), more)
            && UniqueIds(st'.routes)
  {
    var more := RunExtends(st, acts);
    assert RunOps(st, acts).log[|st.log|..] == more;
    ReplayIsFold(st.routes, more);
  }
}
