/** Replaying what an event listing returns: the log of one workspace of a store that holds many. */
module WorkspaceReplay {
  import opened Sequences
  import opened EventStore
  import opened Projections
  import opened Writers
  import opened Replay
  import opened TornExports

  function OfWorkspace(workspace: string): Row -> bool {
    (r: Row) => r.workspace == workspace
  }

  function EventOfWorkspace(workspace: string): Event -> bool {
    (e: Event) => e.workspace == workspace
  }

  function PointersOf(db: Db, workspace: string): map<ObjectKey, int> {
    map k | k in db.current && k.workspace == workspace :: db.current[k]
  }

  /** The workspace as a store of its own. */
  function Restrict(db: Db, workspace: string): Db {
    Db(Filter(EventOfWorkspace(workspace), db.events), Filter(OfWorkspace(workspace), db.rows),
      PointersOf(db, workspace))
  }

  lemma {:induction false} FilterPairs(events: seq<Event>, rows: seq<Row>, workspace: string)
    requires |events| == |rows| && forall i :: 0 <= i < |rows| ==> Describes(events[i], rows[i])
    ensures var es, rs := Filter(EventOfWorkspace(workspace), events), Filter(OfWorkspace(workspace), rows);
      |es| == |rs| && forall i :: 0 <= i < |rs| ==> Describes(es[i], rs[i])
  {
    if rows != [] {
      var n := |rows| - 1;
      FilterPairs(events[..n], rows[..n], workspace);
      assert Describes(events[n], rows[n]);
    }
  }

  lemma {:induction false} FilterUniqueEvents(p: Event -> bool, events: seq<Event>)
    requires UniqueEvents(events)
    ensures UniqueEvents(Filter(p, events))
  {
    if events != [] {
      var n := |events| - 1;
      FilterUniqueEvents(p, events[..n]);
      var before := Filter(p, events[..n]);
      forall i | 0 <= i < |before| ensures before[i].id != events[n].id && !SameKey(before[i], events[n]) {
        var j := PlaceInFilter(p, events[..n], i);
        assert events[j] == before[i];
      }
    }
  }

  lemma PlaceInFilter<T(!new)>(p: T -> bool, s: seq<T>, i: nat) returns (j: nat)
    requires i < |Filter(p, s)|
    ensures j < |s| && s[j] == Filter(p, s)[i]
  {
    FilterMembers(p, s);
    assert Filter(p, s)[i] in s;
    j :| 0 <= j < |s| && s[j] == Filter(p, s)[i];
  }

  lemma {:induction false} FilterUniqueRows(p: Row -> bool, rows: seq<Row>)
    requires UniqueRows(rows)
    ensures UniqueRows(Filter(p, rows))
  {
    if rows != [] {
      var n := |rows| - 1;
      FilterUniqueRows(p, rows[..n]);
      var before := Filter(p, rows[..n]);
      forall i | 0 <= i < |before| ensures !Clash(before[i], rows[n]) {
        var j := PlaceInFilter(p, rows[..n], i);
        assert rows[j] == before[i];
      }
    }
  }

  lemma RestrictKeepsRow(db: Db, workspace: string, k: ObjectKey, v: int)
    requires HasRow(db.rows, k, v) && k.workspace == workspace
    ensures HasRow(Restrict(db, workspace).rows, k, v)
  {
    var i :| 0 <= i < |db.rows| && ObjectOf(db.rows[i]) == k && db.rows[i].version == v;
    FilterMembers(OfWorkspace(workspace), db.rows);
    var rows := Restrict(db, workspace).rows;
    assert db.rows[i] in rows;
    var j :| 0 <= j < |rows| && rows[j] == db.rows[i];
  }

  /** One workspace of a consistent store is a consistent store. */
  lemma RestrictIsConsistent(db: Db, workspace: string)
    requires Consistent(db)
    ensures Consistent(Restrict(db, workspace))
  {
    FilterPairs(db.events, db.rows, workspace);
    FilterUniqueEvents(EventOfWorkspace(workspace), db.events);
    FilterUniqueRows(OfWorkspace(workspace), db.rows);
    var part := Restrict(db, workspace);
    RestrictStaysWithin(db, workspace);
    forall k, v | k in part.current && 1 <= v <= part.current[k] ensures HasRow(part.rows, k, v) {
      assert HasRow(db.rows, k, v);
      RestrictKeepsRow(db, workspace, k, v);
    }
  }

  lemma RestrictStaysWithin(db: Db, workspace: string)
    requires RowsWithinVersions(db)
    ensures RowsWithinVersions(Restrict(db, workspace))
  {
    var part := Restrict(db, workspace);
    FilterMembers(OfWorkspace(workspace), db.rows);
    forall i | 0 <= i < |part.rows|
      ensures var r := part.rows[i];
        if r.kind.Scope? then r.version == 1
        else 1 <= r.version && ObjectOf(r) in part.current && r.version <= part.current[ObjectOf(r)]
    {
      assert part.rows[i] in db.rows && part.rows[i].workspace == workspace;
      var j :| 0 <= j < |db.rows| && db.rows[j] == part.rows[i];
    }
  }

  /**
   For every run of service writes, the log of one workspace in version order replays to the rows and
   pointers of that workspace.
   */
  lemma ReplayOfWorkspace(actions: seq<Action>, workspace: string, events: seq<Event>)
    requires multiset(events) == multiset(LogFor(After(actions).db, workspace)) && VersionsAscend(events)
    ensures var o := ReplayEvents(events, EMPTY); var db := After(actions).db;
      && o.status.Done?
      && multiset(o.db.events) == multiset(LogFor(db, workspace))
      && multiset(Transform(Strip, o.db.rows)) == multiset(Transform(Strip, Filter(OfWorkspace(workspace), db.rows)))
      && o.db.current == PointersOf(db, workspace)
  {
    EveryRunKeepsInvariant(actions);
    var part := Restrict(After(actions).db, workspace);
    RestrictIsConsistent(After(actions).db, workspace);
    assert part.events == LogFor(After(actions).db, workspace);
    ReplayRebuildsEveryRow(part, events);
    ReplayPointersExact(part, events);
    AscendingLogEndsAtNewest(part, events);
  }

  /**
   In any other order the pointers of the workspace come out right exactly when each object's newest
   event came last.
   */
  lemma WorkspacePointersExact(actions: seq<Action>, workspace: string, events: seq<Event>)
    requires multiset(events) == multiset(LogFor(After(actions).db, workspace))
    ensures ReplayEvents(events, EMPTY).db.current == PointersOf(After(actions).db, workspace)
      <==> LastIsNewest(Transform(PayloadOf, events))
  {
    EveryRunKeepsInvariant(actions);
    RestrictIsConsistent(After(actions).db, workspace);
    assert Restrict(After(actions).db, workspace).events == LogFor(After(actions).db, workspace);
    ReplayPointersExact(Restrict(After(actions).db, workspace), events);
  }
}
