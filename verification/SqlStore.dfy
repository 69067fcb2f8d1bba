/** The store object: its methods change the tables step by step, each against its specification. */
module SqlStore {
  import opened Sequences
  import opened EventStore
  import opened Projections
  import opened Snapshots
  import MemoryIndex
  import Replay
  import WorkspaceIsolation
  import WorkspaceReplay

  class SQLStore {
    var events: seq<Event>
    var rows: seq<Row>
    var current: map<ObjectKey, int>
    var memoryIndex: seq<MemoryIndex.IndexRow>

    ghost function State(): Db
      reads this
    {
      Db(events, rows, current)
    }

    ghost function Indexed(): MemoryIndex.Indexed
      reads this
    {
      MemoryIndex.Indexed(State(), memoryIndex)
    }

    constructor ()
      ensures State() == EMPTY && memoryIndex == []
    {
      events, rows, current, memoryIndex := [], [], map[], [];
    }

    /** Insert the event, insert the row, move the pointer; any violated constraint rolls everything back. */
    method EventTx(e: Event, r: Row) returns (ok: bool)
      modifies this`events, this`rows, this`current
      ensures State() == Commit(old(State()), e, r).db
      ensures ok <==> Commit(old(State()), e, r).status.Done?
      ensures ok <==>
        && (forall x :: x in old(events) ==> x.id != e.id && !(x.workspace == e.workspace && x.key == e.key))
        && (forall x :: x in old(rows) && x.kind == r.kind ==>
              if r.kind.Scope? then x.id != r.id && !(x.workspace == r.workspace && x.canonicalKey == r.canonicalKey)
              else !(x.workspace == r.workspace && x.id == r.id && x.version == r.version))
      ensures events == (if ok then old(events) + [e] else old(events))
      ensures rows == (if ok then old(rows) + [r] else old(rows))
      ensures !ok ==> current == old(current)
    {
      var before := events;
      EventFitsExactly(State(), e);
      RowFitsExactly(State(), r);
      if !EventFits(Db(events, rows, current), e) {
        return false;
      }
      events := events + [e];
      if !RowFits(Db(events, rows, current), r) {
        events := before;
        return false;
      }
      rows := rows + [r];
      UpsertCurrent(r);
      return true;
    }

    method UpsertCurrent(r: Row)
      modifies this`current
      ensures current == MovePointer(old(current), r)
      ensures !r.kind.Scope? ==> ObjectOf(r) in current && current[ObjectOf(r)] == r.version
      ensures forall k | r.kind.Scope? || k != ObjectOf(r) ::
        (k in current <==> k in old(current)) && (k in current ==> current[k] == old(current)[k])
    {
      if !r.kind.Scope? {
        current := current[ObjectOf(r) := r.version];
      }
    }

    /** The transaction of a put, then for a memory the refresh of the full-text table. */
    method Put(e: Event, r: Row) returns (ok: bool)
      modifies this
      ensures Indexed() == MemoryIndex.PutIndexed(old(Indexed()), e, r)
      ensures ok <==> Commit(old(State()), e, r).status.Done?
    {
      ok := EventTx(e, r);
      if ok && r.kind.Memory? {
        memoryIndex := Filter(MemoryIndex.NotFor(r.workspace, r.id), memoryIndex);
        memoryIndex := memoryIndex + [MemoryIndex.IndexOf(r)];
      }
    }

    /** Whether the lookup returns a non-nil event: it does when the key exists, and also when it fails. */
    method GetEventByIdempotency(workspace: string, key: string, fails: bool) returns (found: bool)
      ensures found <==> fails || HasKey(State(), workspace, key)
    {
      if fails {
        return true;
      }
      for i := 0 to |events|
        invariant forall j :: 0 <= j < i ==> !(events[j].workspace == workspace && events[j].key == key)
      {
        if events[i].workspace == workspace && events[i].key == key {
          return true;
        }
      }
      return false;
    }

    method SetEmbeddingState(workspace: string, id: string, version: int, state: string)
      modifies this`rows
      ensures State() == EventStore.SetEmbeddingState(old(State()), workspace, id, version, state)
    {
      var updated: seq<Row> := [];
      for i := 0 to |rows|
        invariant |updated| == i
        invariant forall j :: 0 <= j < i ==>
          updated[j] == EventStore.SetEmbeddingState(State(), workspace, id, version, state).rows[j]
        invariant rows == old(rows)
      {
        var r := rows[i];
        if r.kind.Memory? && r.workspace == workspace && r.id == id && r.version == version {
          r := r.(embedding := state);
        }
        updated := updated + [r];
      }
      ghost var spec := EventStore.SetEmbeddingState(State(), workspace, id, version, state);
      assert updated == spec.rows;
      rows := updated;
    }

    /** The events of a snapshot one by one, up to a point where the process may die. */
    method ImportEvents(snap: Snapshot, faults: set<nat>, stop: nat) returns (status: Status)
      requires stop <= |snap.events|
      modifies this
      ensures Outcome(State(), status) == Snapshots.ImportEvents(old(State()), snap, faults, stop)
    {
      status := Done;
      var n := 0;
      while n < stop
        invariant n <= stop
        invariant status.Done?
        invariant Outcome(State(), Done) == Snapshots.ImportEvents(old(State()), snap, faults, n)
      {
        var e := snap.events[n];
        ghost var before := State();
        var found := GetEventByIdempotency(e.workspace, e.key, n in faults);
        if !found && !e.kind.Unsupported? {
          var ok := Put(e, Find(snap.rows, e));
          if !ok {
            ConflictStops(old(State()), snap, faults, n + 1, stop);
            return Conflict;
          }
        }
        n := n + 1;
      }
    }

    method Import(snap: Snapshot, faults: set<nat>) returns (status: Status)
      modifies this
      ensures Outcome(State(), status) == Snapshots.Import(old(State()), snap, faults)
      ensures snap.schema != "vessica.knowledge/v1" ==> status.UnsupportedSchema? && State() == old(State())
      ensures snap.schema == "vessica.knowledge/v1" && !snap.checksumValid ==>
        status.ChecksumMismatch? && State() == old(State())
      ensures Covered(snap) && WorkspaceIsolation.BringsOnlyNewIds(old(State()), snap) ==>
        WorkspaceIsolation.AnswersAlike(old(State()), snap.workspace, Outcome(State(), status),
          Snapshots.Import(WorkspaceReplay.Restrict(old(State()), snap.workspace), snap, faults))
    {
      if Covered(snap) && WorkspaceIsolation.BringsOnlyNewIds(State(), snap) {
        WorkspaceIsolation.ImportIsIsolated(State(), snap, faults);
      }
      if snap.schema != API_VERSION {
        return UnsupportedSchema;
      }
      if !snap.checksumValid {
        return ChecksumMismatch;
      }
      status := ImportEvents(snap, faults, |snap.events|);
      if !status.Done? {
        return;
      }
      var left := snap.counts.Keys;
      while left != {}
        invariant left <= snap.counts.Keys
        invariant forall k :: k in snap.counts.Keys - left ==> CountOf(State(), snap.workspace, k) == snap.counts[k]
        decreases left
      {
        var k :| k in left;
        left := left - {k};
        if CountOf(Db(events, rows, current), snap.workspace, k) != snap.counts[k] {
          return CountMismatch;
        }
      }
    }

    /** The rebuild of one of the four pointer tables: delete the workspace's pointers, insert the maxima. */
    method RebuildPointers(kind: Kind, workspace: string)
      requires !kind.Scope?
      modifies this`current
      ensures current == RebuiltTable(old(current), rows, kind, workspace)
    {
      current := map k | k in current && !(k.kind == kind && k.workspace == workspace) :: current[k];
      ghost var kept := current;
      for i := 0 to |rows|
        invariant current == kept + MaxOfKind(rows[..i], kind, workspace)
      {
        var r := rows[i];
        MaxOfKindStep(kept, rows, i, kind, workspace);
        if r.kind == kind && r.workspace == workspace {
          var k := ObjectOf(r);
          current := current[k := if k in current && current[k] > r.version then current[k] else r.version];
        }
      }
      assert rows[..|rows|] == rows;
    }

    method RebuildProjections(workspace: string)
      requires forall i :: 0 <= i < |rows| ==> !rows[i].kind.Unsupported?
      requires forall k :: k in current ==> !k.kind.Unsupported? && !k.kind.Scope?
      modifies this
      ensures State() == Rebuild(old(State()), workspace)
      ensures memoryIndex == MemoryIndex.RebuildIndex(State(), old(memoryIndex), workspace)
    {
      ghost var before := current;
      RebuildPointers(Entity, workspace);
      RebuildPointers(Artifact, workspace);
      RebuildPointers(Memory, workspace);
      RebuildPointers(Relationship, workspace);
      FourTablesAreTheRebuild(before, rows, workspace);
      memoryIndex := Filter((x: MemoryIndex.IndexRow) => x.workspace != workspace, memoryIndex);
      memoryIndex := memoryIndex
        + Transform(MemoryIndex.RebuiltIndexOf, Filter(MemoryIndex.IsCurrentMemory(current, workspace), rows));
    }
  }

  /** Replay drives a destination store and stops at the first error. */
  method ReplayEvents(events: seq<Event>, destination: SQLStore) returns (status: Status)
    modifies destination
    ensures Outcome(destination.State(), status) == Replay.ReplayEvents(events, old(destination.State()))
  {
    status := Done;
    var n := 0;
    while n < |events|
      invariant n <= |events|
      invariant status.Done?
      invariant Outcome(destination.State(), Done) == Replay.ReplayEvents(events[..n], old(destination.State()))
    {
      var e := events[n];
      assert events[..n + 1][..n] == events[..n];
      if e.kind.Unsupported? {
        status := UnsupportedType;
      } else if e.payload.None? {
        status := NoPayload;
      } else {
        var ok := destination.Put(e, e.payload.value);
        if !ok {
          status := Conflict;
        }
      }
      if !status.Done? {
        ErrorStops(events, old(destination.State()), n + 1);
        return;
      }
      n := n + 1;
    }
    assert events[..n] == events;
  }

  lemma {:induction false} ConflictStops(db: Db, snap: Snapshot, faults: set<nat>, m: nat, n: nat)
    requires m <= n <= |snap.events| && !Snapshots.ImportEvents(db, snap, faults, m).status.Done?
    ensures Snapshots.ImportEvents(db, snap, faults, n) == Snapshots.ImportEvents(db, snap, faults, m)
  {
    if m < n { ConflictStops(db, snap, faults, m, n - 1); }
  }

  lemma {:induction false} ErrorStops(events: seq<Event>, db: Db, m: nat)
    requires m <= |events| && !Replay.ReplayEvents(events[..m], db).status.Done?
    ensures Replay.ReplayEvents(events, db) == Replay.ReplayEvents(events[..m], db)
  {
    if m == |events| {
      assert events[..m] == events;
    } else {
      var n := |events| - 1;
      assert events[..n][..m] == events[..m];
      ErrorStops(events[..n], db, m);
    }
  }

  // --- The four pointer tables together --------------------------------------------------------

  function MaxOfKind(rows: seq<Row>, kind: Kind, workspace: string): map<ObjectKey, int> {
    if rows == [] then map[]
    else
      var m, r := MaxOfKind(rows[..|rows| - 1], kind, workspace), rows[|rows| - 1];
      if r.kind == kind then WithMax(m, r, workspace) else m
  }

  function RebuiltTable(current: map<ObjectKey, int>, rows: seq<Row>, kind: Kind,
                        workspace: string): map<ObjectKey, int> {
    (map k | k in current && !(k.kind == kind && k.workspace == workspace) :: current[k])
      + MaxOfKind(rows, kind, workspace)
  }

  lemma MaxOfKindStep(kept: map<ObjectKey, int>, rows: seq<Row>, i: nat, kind: Kind, workspace: string)
    requires i < |rows| && !kind.Scope?
    requires forall k: ObjectKey :: k in kept ==> !(k.kind == kind && k.workspace == workspace)
    ensures var c, r := kept + MaxOfKind(rows[..i], kind, workspace), rows[i];
      kept + MaxOfKind(rows[..i + 1], kind, workspace) == if r.kind == kind then WithMax(c, r, workspace) else c
  {
    assert rows[..i + 1][..i] == rows[..i];
    var t, r := MaxOfKind(rows[..i], kind, workspace), rows[i];
    var t' := MaxOfKind(rows[..i + 1], kind, workspace);
    assert t' == if r.kind == kind then WithMax(t, r, workspace) else t;
    if r.kind == kind && r.workspace == workspace {
      assert ObjectOf(r) !in kept;
      assert (kept + t)[ObjectOf(r) := t'[ObjectOf(r)]] == kept + t';
    }
  }

  lemma {:induction false} MaxOfKindRestricts(rows: seq<Row>, kind: Kind, workspace: string)
    ensures var m := MaxVersions(rows, workspace); var t := MaxOfKind(rows, kind, workspace);
      && (forall k :: k in m ==> k.workspace == workspace)
      && (forall k :: k in t <==> k in m && k.kind == kind)
      && (forall k :: k in t ==> t[k] == m[k])
  {
    if rows != [] {
      var n := |rows| - 1;
      MaxOfKindRestricts(rows[..n], kind, workspace);
      var m, t, r := MaxVersions(rows[..n], workspace), MaxOfKind(rows[..n], kind, workspace), rows[n];
      assert MaxVersions(rows, workspace) == WithMax(m, r, workspace);
      assert MaxOfKind(rows, kind, workspace) == if r.kind == kind then WithMax(t, r, workspace) else t;
      assert ObjectOf(r) in m && r.kind == kind ==> ObjectOf(r) in t;
    }
  }

  lemma RebuiltTableAt(current: map<ObjectKey, int>, rows: seq<Row>, kind: Kind, workspace: string)
    ensures var m := MaxVersions(rows, workspace); var t := RebuiltTable(current, rows, kind, workspace);
      forall k: ObjectKey ::
        if k.kind == kind && k.workspace == workspace then (k in t <==> k in m) && (k in t ==> t[k] == m[k])
        else (k in t <==> k in current) && (k in t ==> t[k] == current[k])
  {
    MaxOfKindRestricts(rows, kind, workspace);
  }

  lemma FourTablesAreTheRebuild(current: map<ObjectKey, int>, rows: seq<Row>, workspace: string)
    requires forall i :: 0 <= i < |rows| ==> !rows[i].kind.Unsupported?
    requires forall k :: k in current ==> !k.kind.Unsupported? && !k.kind.Scope?
    ensures var c1 := RebuiltTable(current, rows, Entity, workspace);
      var c2 := RebuiltTable(c1, rows, Artifact, workspace);
            var c3 := RebuiltTable(c2, rows, Memory, workspace);
      RebuiltTable(c3, rows, Relationship, workspace) == Kept(current, workspace) + MaxVersions(rows, workspace)
  {
    var m := MaxVersions(rows, workspace);
    var c1 := RebuiltTable(current, rows, Entity, workspace);
    var c2 := RebuiltTable(c1, rows, Artifact, workspace);
    var c3 := RebuiltTable(c2, rows, Memory, workspace);
    var c4 := RebuiltTable(c3, rows, Relationship, workspace);
    var all := Kept(current, workspace) + m;
    RebuiltTableAt(current, rows, Entity, workspace);
    RebuiltTableAt(c1, rows, Artifact, workspace);
    RebuiltTableAt(c2, rows, Memory, workspace);
    RebuiltTableAt(c3, rows, Relationship, workspace);
    forall k: ObjectKey ensures k in c4 <==> k in all
                        ensures k in c4 ==> c4[k] == all[k]
    {
      MaxKey(rows, workspace, k);
    }
    assert c4.Keys == all.Keys;
  }

  lemma MaxKey(rows: seq<Row>, workspace: string, k: ObjectKey)
    requires forall i :: 0 <= i < |rows| ==> !rows[i].kind.Unsupported?
    ensures k in MaxVersions(rows, workspace) ==> !k.kind.Unsupported? && !k.kind.Scope? && k.workspace == workspace
  {
    MaxVersionsAreGreatest(rows, workspace);
    if k in MaxVersions(rows, workspace) {
      assert HasObject(rows, k);
    }
  }
}
