/** The route change history: an append-only log in memory, bounded on disk. */
module RouteHistory {
  import opened Wrappers
  import opened RouteTable

  datatype Action = Create | Update | Delete | Rollback

  datatype Entry = Entry(
    id: string,
    action: Action,
    routeId: string,
    before: Option<Route>,
    after: Option<Route>,
    note: string)

  /** The first entry with the id. */
  function FindEntry(entries: seq<Entry>, id: string): Option<Entry> {
    if entries == [] then None
    else if entries[0].id == id then Some(entries[0])
    else FindEntry(entries[1..], id)
  }

  function Last<T>(s: seq<T>, n: nat): seq<T> {
    if n >= |s| then s else s[|s| - n..]
  }

  function Reversed<T>(s: seq<T>): seq<T> {
    seq(|s|, i requires 0 <= i < |s| => s[|s| - 1 - i])
  }

  /** The limit, but at most max and at least 1. */
  function Bounded(limit: int, max: int): (n: int)
    requires max >= 1
    ensures 1 <= n <= max && (1 <= limit <= max ==> n == limit) && (limit > max ==> n == max) && (limit < 1 ==> n == 1)
  {
    var m := if limit < max then limit else max;
    if 1 > m then 1 else m
  }

  lemma {:induction false} FindEntryAt(entries: seq<Entry>, k: nat)
    requires k < |entries|
    requires forall i :: 0 <= i < k ==> entries[i].id != entries[k].id
    ensures FindEntry(entries, entries[k].id) == Some(entries[k])
    decreases |entries|
  {
    if k == 0 {
    } else {
      assert entries[0].id != entries[k].id;
      forall i | 0 <= i < k - 1 ensures entries[1..][i].id != entries[1..][k - 1].id {
        assert entries[i + 1].id != entries[k].id;
      }
      FindEntryAt(entries[1..], k - 1);
    }
  }

  /** The first entry with the id is found, and nothing is found exactly if no entry has it. */
  lemma {:induction false} FindEntryIff(entries: seq<Entry>, id: string)
    ensures FindEntry(entries, id) == None <==> forall i :: 0 <= i < |entries| ==> entries[i].id != id
    ensures FindEntry(entries, id).Some? ==>
              exists i :: && 0 <= i < |entries| && FindEntry(entries, id) == Some(entries[i]) && entries[i].id == id
                          && forall j :: 0 <= j < i ==> entries[j].id != id
    decreases |entries|
  {
    if k: nat :| k < |entries| && entries[k].id == id {
      var first := FirstWithId(entries, id, k);
      FindEntryAt(entries, first);
    } else {
      AbsentIsNotFound(entries, id);
    }
  }

  lemma {:induction false} FirstWithId(entries: seq<Entry>, id: string, k: nat) returns (first: nat)
    requires k < |entries| && entries[k].id == id
    ensures first < |entries| && entries[first].id == id && forall j :: 0 <= j < first ==> entries[j].id != id
    decreases k
  {
    if k': nat :| k' < k && entries[k'].id == id {
      first := FirstWithId(entries, id, k');
    } else {
      first := k;
    }
  }

  lemma {:induction false} AbsentIsNotFound(entries: seq<Entry>, id: string)
    requires forall i :: 0 <= i < |entries| ==> entries[i].id != id
    ensures FindEntry(entries, id) == None
    decreases |entries|
  {
    if entries == [] {
    } else {
      AbsentIsNotFound(entries[1..], id);
    }
  }

  /** The i-th element counted from the end. */
  function FromEnd<T>(s: seq<T>, i: nat): T
    requires i < |s|
  {
    s[|s| - 1 - i]
  }

  lemma LastFromEnd<T>(s: seq<T>, n: nat, i: nat)
    requires i < n && i < |s|
    ensures i < |Last(s, n)| <= |s| && FromEnd(Last(s, n), i) == FromEnd(s, i)
  {
  }

  lemma ReversedAt<T>(s: seq<T>, i: nat)
    requires i < |s|
    ensures Reversed(s)[i] == FromEnd(s, i)
  {
  }

  /** What a listing shows at place i, and that the file still holds it. */
  lemma ListedAt(entries: seq<Entry>, file: seq<Entry>, max: nat, n: nat, i: nat)
    requires Last(file, max) == Last(entries, max) && n <= max && i < n && i < |entries|
    ensures i < |Reversed(Last(entries, n))|
    ensures Reversed(Last(entries, n))[i] == FromEnd(entries, i)
    ensures FromEnd(entries, i) in file
  {
    LastFromEnd(entries, n, i);
    ReversedAt(Last(entries, n), i);
    LastFromEnd(entries, max, i);
    assert |Last(file, max)| <= |file|;
    LastFromEnd(file, max, i);
  }

  class RouteHistoryStore {
    const maxEntries: int
    var entries: seq<Entry>
    var file: seq<Entry>

    /** The file holds the newest maxEntries entries; a longer file, written under a larger
        bound, is kept as it is until the next append. */
    ghost predicate Valid()
      reads this
    {
      maxEntries >= 1 && Last(file, maxEntries) == Last(entries, maxEntries)
    }

    /** Starts from whatever the file holds; an absent file is an empty one. */
    constructor (maxEntries: int, file: seq<Entry>)
      requires maxEntries >= 1
      ensures Valid() && this.maxEntries == maxEntries && entries == file
    {
      this.maxEntries, entries, this.file := maxEntries, file, file;
    }

    method Append(entry: Entry)
      requires Valid()
      modifies this
      ensures Valid() && entries == old(entries) + [entry] && file == Last(entries, maxEntries)
    {
      entries := entries + [entry];
      Persist();
    }

    method Persist()
      requires maxEntries >= 1
      modifies this`file
      ensures Valid() && file == Last(entries, maxEntries)
    {
      file := Last(entries, maxEntries);
    }

    method Find(entryId: string) returns (found: Option<Entry>)
      ensures found == FindEntry(entries, entryId)
    {
      var i := 0;
      while i < |entries|
        invariant 0 <= i <= |entries|
        invariant FindEntry(entries, entryId) == FindEntry(entries[i..], entryId)
      {
        if entries[i].id == entryId {
          return Some(entries[i]);
        }
        assert entries[i..][1..] == entries[i + 1..];
        i := i + 1;
      }
      found := None;
    }

    /** The newest entries, newest first. */
    method ListEntries(limit: int) returns (listed: seq<Entry>)
      requires Valid()
      ensures |listed| == if |entries| < Bounded(limit, maxEntries) then |entries| else Bounded(limit, maxEntries)
      ensures forall i :: 0 <= i < |listed| ==> listed[i] == FromEnd(entries, i) && listed[i] in file
    {
      var n := Bounded(limit, maxEntries);
      listed := Reversed(Last(entries, n));
      forall i | 0 <= i < |listed| ensures listed[i] == FromEnd(entries, i) && listed[i] in file {
        ListedAt(entries, file, maxEntries, n, i);
      }
    }
  }
}
