/** ReplayEvents: the log alone, supplied in some order, put into an empty store. */
module Replay {
  import opened Sequences
  import opened EventStore
  import opened Projections
  import opened Writers

  /** One event: decode its payload and put it; the type is checked before the payload. */
  function ReplayOne(db: Db, e: Event): Outcome {
    if e.kind.Unsupported? then Outcome(db, UnsupportedType)
    else if e.payload.None? then Outcome(db, NoPayload)
    else Commit(db, e, e.payload.value)
  }

  /** The loop: it stops at the first error and keeps what it has committed. */
  function ReplayEvents(events: seq<Event>, destination: Db): Outcome {
    if events == [] then Outcome(destination, Done)
    else
      var o := ReplayEvents(events[..|events| - 1], destination);
      if o.status.Done? then ReplayOne(o.db, events[|events| - 1]) else o
  }

  /** The store holds the first n events behind what it held, each with its payload as its row. */
  ghost predicate Appended(db: Db, events: seq<Event>, n: nat, after: Db)
    requires n <= |events|
  {
    && after.events == db.events + events[..n]
    && |after.rows| == |db.rows| + n && after.rows[..|db.rows|] == db.rows
    && forall i :: 0 <= i < n ==>
      !events[i].kind.Unsupported? && events[i].payload == Some(after.rows[|db.rows| + i])
  }

  /** Why an event cannot be replayed next. */
  ghost predicate Refused(db: Db, e: Event, status: Status) {
    if e.kind.Unsupported? then status == UnsupportedType
    else if e.payload.None? then status == NoPayload
    else
      && status == Conflict
      && ((exists x :: x in db.events && (x.id == e.id || (x.workspace == e.workspace && x.key == e.key)))
          || exists x :: x in db.rows && Clash(x, e.payload.value))
  }

  /** The first n events were taken, and the next one, if there is one, is refused. */
  ghost predicate StoppedAt(db: Db, events: seq<Event>, n: nat, o: Outcome) {
    && n <= |events| && Appended(db, events, n, o.db)
    && if n == |events| then o.status.Done? else Refused(o.db, events[n], o.status)
  }

  lemma ReplayOneOutcome(db: Db, events: seq<Event>, n: nat, before: Db)
    requires n < |events| && Appended(db, events, n, before)
    ensures var o := ReplayOne(before, events[n]);
      if o.status.Done? then Appended(db, events, n + 1, o.db)
      else o.db == before && Refused(before, events[n], o.status)
  {
    var o, e := ReplayOne(before, events[n]), events[n];
    TakeNext(events, n);
    if o.status.Conflict? {
      if !EventFits(before, e) {
        var i :| 0 <= i < |before.events| && (before.events[i].id == e.id || SameKey(before.events[i], e));
        assert before.events[i] in before.events;
      } else {
        var i :| 0 <= i < |before.rows| && Clash(before.rows[i], e.payload.value);
        assert before.rows[i] in before.rows;
      }
    }
  }

  /**
   A replay into any store keeps what it held and appends the events up to the first one that it cannot take; the
   error says what is wrong with that one.
   */
  lemma {:induction false} ReplayStopsAtFirstError(events: seq<Event>, db: Db) returns (n: nat)
    ensures StoppedAt(db, events, n, ReplayEvents(events, db))
  {
    n := 0;
    if events != [] {
      var m := |events| - 1;
      n := ReplayStopsAtFirstError(events[..m], db);
      if n == m {
        n := StoppedNext(db, events, ReplayEvents(events[..m], db));
      } else {
        StoppedStays(db, events, n, ReplayEvents(events[..m], db));
      }
    }
  }

  lemma StoppedNext(db: Db, events: seq<Event>, o: Outcome) returns (n: nat)
    requires events != [] && StoppedAt(db, events[..|events| - 1], |events| - 1, o)
    ensures StoppedAt(db, events, n, ReplayOne(o.db, events[|events| - 1]))
  {
    var m := |events| - 1;
    assert events[..m][..m] == events[..m];
    ReplayOneOutcome(db, events, m, o.db);
    n := if ReplayOne(o.db, events[m]).status.Done? then m + 1 else m;
  }

  lemma StoppedStays(db: Db, events: seq<Event>, n: nat, o: Outcome)
    requires events != [] && n < |events| - 1 && StoppedAt(db, events[..|events| - 1], n, o)
    ensures StoppedAt(db, events, n, o) && !o.status.Done?
  {
    assert events[..|events| - 1][..n] == events[..n];
  }

  ghost predicate LogOf(db: Db, events: seq<Event>) {
    Consistent(db) && multiset(events) == multiset(db.events)
  }

  /** Every event of a reordered log is an event of the store, with its row beside it. */
  lemma LogEntry(db: Db, events: seq<Event>, i: nat) returns (j: nat)
    requires LogOf(db, events) && i < |events|
    ensures j < |db.rows| && db.events[j] == events[i] && Describes(events[i], db.rows[j])
  {
    assert events[i] in multiset(db.events);
    j :| 0 <= j < |db.events| && db.events[j] == events[i];
  }

  lemma LogStaysUnique(db: Db, events: seq<Event>)
    requires LogOf(db, events)
    ensures Distinct(events) && UniqueEvents(events)
    ensures UniqueRows(Transform(PayloadOf, events))
  {
    PermutationDistinct(db.events, events);
    forall i, j | 0 <= i < j < |events|
      ensures events[i].id != events[j].id && !SameKey(events[i], events[j])
      ensures !Clash(PayloadOf(events[i]), PayloadOf(events[j]))
    {
      var i' := LogEntry(db, events, i);
      var j' := LogEntry(db, events, j);
      assert events[i] != events[j];
      assert i' != j';
      if i' < j' { assert !Clash(db.rows[i'], db.rows[j']); } else { assert !Clash(db.rows[j'], db.rows[i']); }
    }
  }

  /** The store that holds these events with their payloads as rows. */
  function Replayed(events: seq<Event>): Db {
    Db(events, Transform(PayloadOf, events), Pointers(Transform(PayloadOf, events)))
  }

  lemma ReplayedSnoc(events: seq<Event>, e: Event)
    ensures var db := Replayed(events);
      Replayed(events + [e]) == Db(db.events + [e], db.rows + [PayloadOf(e)], MovePointer(db.current, PayloadOf(e)))
  {
    var rows, rows' := Transform(PayloadOf, events), Transform(PayloadOf, events + [e]);
    assert rows' == rows + [PayloadOf(e)];
    assert rows'[..|events|] == rows;
  }

  lemma NextEventFits(db: Db, events: seq<Event>, n: nat)
    requires LogOf(db, events) && n < |events|
    ensures EventFits(Replayed(events[..n]), events[n]) && RowFits(Replayed(events[..n]), PayloadOf(events[n]))
  {
    LogStaysUnique(db, events);
    var all := Transform(PayloadOf, events);
    forall i | 0 <= i < n
      ensures events[i].id != events[n].id && !SameKey(events[i], events[n])
      ensures !Clash(PayloadOf(events[i]), PayloadOf(events[n]))
    {
      assert !Clash(all[i], all[n]);
    }
  }

  /** Whatever the order, a replay of a whole log succeeds, row by row. */
  lemma {:induction false} ReplaySucceeds(db: Db, events: seq<Event>, n: nat)
    requires LogOf(db, events) && n <= |events|
    ensures ReplayEvents(events[..n], EMPTY) == Outcome(Replayed(events[..n]), Done)
  {
    if n > 0 {
      var m := n - 1;
      ReplaySucceeds(db, events, m);
      assert events[..n][..m] == events[..m] && events[..n] == events[..m] + [events[m]];
      var _ := LogEntry(db, events, m);
      NextEventFits(db, events, m);
      ReplayedSnoc(events[..m], events[m]);
    }
  }

  /** Replaying a log in any order rebuilds exactly the source's events and rows, but for the embedding column. */
  lemma ReplayRebuildsEveryRow(db: Db, events: seq<Event>)
    requires LogOf(db, events)
    ensures var o := ReplayEvents(events, EMPTY);
      && o.status.Done?
      && multiset(o.db.events) == multiset(db.events)
      && multiset(Transform(Strip, o.db.rows)) == multiset(Transform(Strip, db.rows))
  {
    ReplaySucceeds(db, events, |events|);
    assert events[..|events|] == events;
    var o := ReplayEvents(events, EMPTY);
    var stripped := (e: Event) => Strip(PayloadOf(e));
    assert Transform(Strip, o.db.rows) == Transform(stripped, events);
    assert Transform(Strip, db.rows) == Transform(stripped, db.events) by {
      forall i | 0 <= i < |db.rows| ensures Strip(db.rows[i]) == stripped(db.events[i]) {
        assert Describes(db.events[i], db.rows[i]);
      }
    }
    TransformPermutation(stripped, db.events, events);
  }

  /** Pointers depend on the rows only through object and version. */
  lemma NewestPointersTransfer(db: Db, events: seq<Event>, current: map<ObjectKey, int>)
    requires LogOf(db, events)
    ensures NewestPointers(current, db.rows) <==> NewestPointers(current, Transform(PayloadOf, events))
  {
    var rows := Transform(PayloadOf, events);
    forall k, v ensures HasRow(db.rows, k, v) <==> HasRow(rows, k, v) {
      PayloadHasRow(db, events, k, v);
    }
    if NewestPointers(current, db.rows) { SameVersions(db.rows, rows, current); }
    if NewestPointers(current, rows) { SameVersions(rows, db.rows, current); }
  }

  lemma PayloadHasRow(db: Db, events: seq<Event>, k: ObjectKey, v: int)
    requires LogOf(db, events)
    ensures HasRow(db.rows, k, v) <==> HasRow(Transform(PayloadOf, events), k, v)
  {
    var rows := Transform(PayloadOf, events);
    if HasRow(rows, k, v) {
      var i :| 0 <= i < |rows| && ObjectOf(rows[i]) == k && rows[i].version == v;
      var j := LogEntry(db, events, i);
    }
    if HasRow(db.rows, k, v) {
      var j :| 0 <= j < |db.rows| && ObjectOf(db.rows[j]) == k && db.rows[j].version == v;
      assert Describes(db.events[j], db.rows[j]);
      assert db.events[j] in multiset(events);
      var i :| 0 <= i < |events| && events[i] == db.events[j];
      assert ObjectOf(rows[i]) == k;
    }
  }

  lemma SameVersions(rows: seq<Row>, rows': seq<Row>, current: map<ObjectKey, int>)
    requires forall k, v :: HasRow(rows, k, v) <==> HasRow(rows', k, v)
    requires NewestPointers(current, rows)
    ensures NewestPointers(current, rows')
  {
    forall k ensures HasObject(rows, k) <==> HasObject(rows', k) {
      ObjectKept(rows, rows', k);
      ObjectKept(rows', rows, k);
    }
    forall j | 0 <= j < |rows'| && !rows'[j].kind.Scope? ensures rows'[j].version <= current[ObjectOf(rows'[j])] {
      assert HasRow(rows', ObjectOf(rows'[j]), rows'[j].version);
      var i :| 0 <= i < |rows| && ObjectOf(rows[i]) == ObjectOf(rows'[j]) && rows[i].version == rows'[j].version;
    }
  }

  lemma ObjectKept(rows: seq<Row>, rows': seq<Row>, k: ObjectKey)
    requires forall v :: HasRow(rows, k, v) ==> HasRow(rows', k, v)
    ensures HasObject(rows, k) ==> HasObject(rows', k)
  {
    if HasObject(rows, k) {
      var i :| 0 <= i < |rows| && ObjectOf(rows[i]) == k;
      assert HasRow(rows, k, rows[i].version);
      var j :| 0 <= j < |rows'| && ObjectOf(rows'[j]) == k && rows'[j].version == rows[i].version;
    }
  }

  /**
   The pointers of the replayed store equal the source's exactly when, for every object, the event
   with the greatest version came last; ascending versions for each object are enough.
   */
  lemma ReplayPointersExact(db: Db, events: seq<Event>)
    requires LogOf(db, events)
    ensures ReplayEvents(events, EMPTY).db.current == db.current <==> LastIsNewest(Transform(PayloadOf, events))
  {
    ReplaySucceeds(db, events, |events|);
    assert events[..|events|] == events;
    var rows := Transform(PayloadOf, events);
    ConsistentIsNewest(db);
    NewestPointersTransfer(db, events, db.current);
    InsertionPointersRightExactlyWhenLastIsNewest(rows);
    if NewestPointers(Pointers(rows), rows) {
      NewestPointersUnique(Pointers(rows), db.current, rows);
    }
  }

  /** Stream order in the sense replay needs: for each object, versions ascend. */
  ghost predicate VersionsAscend(events: seq<Event>) {
    forall i, j | 0 <= i < j < |events| && events[i].kind == events[j].kind
      && events[i].workspace == events[j].workspace
               && events[i].aggregateId == events[j].aggregateId ::
      events[i].version <= events[j].version
  }

  lemma AscendingLogEndsAtNewest(db: Db, events: seq<Event>)
    requires LogOf(db, events) && VersionsAscend(events)
    ensures LastIsNewest(Transform(PayloadOf, events))
  {
    var rows := Transform(PayloadOf, events);
    forall i, j | 0 <= i < |rows| && 0 <= j < |rows| && !rows[j].kind.Scope? && LastOfObject(rows, j)
               && ObjectOf(rows[i]) == ObjectOf(rows[j])
      ensures rows[i].version <= rows[j].version
    {
      var i' := LogEntry(db, events, i);
      var j' := LogEntry(db, events, j);
      assert i <= j;
    }
  }

  /** For every run of service writes, its log in per-object version order replays to the same store. */
  lemma ReplayOfRun(actions: seq<Action>, events: seq<Event>)
    requires multiset(events) == multiset(After(actions).db.events) && VersionsAscend(events)
    ensures var o := ReplayEvents(events, EMPTY); var db := After(actions).db;
      && o.status.Done?
      && multiset(o.db.events) == multiset(db.events)
      && multiset(Transform(Strip, o.db.rows)) == multiset(Transform(Strip, db.rows))
      && o.db.current == db.current
  {
    EveryRunKeepsInvariant(actions);
    ReplayRebuildsEveryRow(After(actions).db, events);
    ReplayPointersExact(After(actions).db, events);
    AscendingLogEndsAtNewest(After(actions).db, events);
  }

  /** The commit order itself is such an order, so the log as committed replays to the source row for row. */
  lemma ReplayInCommitOrder(actions: seq<Action>)
    ensures var o := ReplayEvents(After(actions).db.events, EMPTY); var db := After(actions).db;
      && o.status.Done? && o.db.events == db.events && o.db.current == db.current
      && |o.db.rows| == |db.rows|
      && forall i :: 0 <= i < |db.rows| ==> SameContent(o.db.rows[i], db.rows[i])
  {
    EveryRunKeepsInvariant(actions);
    CommitOrderAscends(actions);
    var db := After(actions).db;
    ReplayOfRun(actions, db.events);
    ReplaySucceeds(db, db.events, |db.events|);
    assert db.events[..|db.events|] == db.events;
    forall i | 0 <= i < |db.rows| ensures SameContent(ReplayEvents(db.events, EMPTY).db.rows[i], db.rows[i]) {
      assert Describes(db.events[i], db.rows[i]);
    }
  }

  lemma {:induction false} CommitOrderAscends(actions: seq<Action>)
    ensures VersionsAscend(After(actions).db.events)
  {
    EveryRunKeepsInvariant(actions);
    if actions != [] {
      var n := |actions| - 1;
      CommitOrderAscends(actions[..n]);
      EveryRunKeepsInvariant(actions[..n]);
      var db, db' := After(actions[..n]).db, After(actions).db;
      StepKeepsInvariant(After(actions[..n]), actions[n]);
      if |db'.events| > |db.events| {
        var last := |db.events|;
        forall i | 0 <= i < last
          ensures Describes(db'.events[i], db'.rows[i]) && Describes(db'.events[last], db'.rows[last])
        {
        }
        NewEventIsNewest(After(actions[..n]), actions[n]);
      }
    }
  }

  lemma NewEventIsNewest(s: System, a: Action)
    requires Invariant(s) && |Step(s, a).db.events| > |s.db.events|
    ensures var es := Step(s, a).db.events; var last := |s.db.events|;
      && |es| == last + 1 && es[..last] == s.db.events
      && forall i | 0 <= i < last && es[i].kind == es[last].kind && es[i].workspace == es[last].workspace
                 && es[i].aggregateId == es[last].aggregateId ::
           es[i].version <= es[last].version
  {
    var p := s.writers[a.w];
    CommitKeepsConsistent(s.db, EventOf(p, a), RowOf(p, a), p.base);
    var es := Step(s, a).db.events;
    var last := |s.db.events|;
    forall i | 0 <= i < last && es[i].kind == es[last].kind && es[i].workspace == es[last].workspace
            && es[i].aggregateId == es[last].aggregateId
      ensures es[i].version <= es[last].version
    {
      assert Describes(s.db.events[i], s.db.rows[i]);
    }
  }

  /** A log in which an object's newest event is not last leaves a stale pointer; a rebuild repairs it. */
  lemma RebuildAfterReplay(db: Db, events: seq<Event>, workspace: string)
    requires LogOf(db, events)
    requires forall i :: 0 <= i < |db.rows| ==> db.rows[i].workspace == workspace
    ensures Rebuild(ReplayEvents(events, EMPTY).db, workspace).current == db.current
  {
    ReplaySucceeds(db, events, |events|);
    assert events[..|events|] == events;
    var replayed := ReplayEvents(events, EMPTY).db;
    forall i | 0 <= i < |replayed.rows| ensures replayed.rows[i].workspace == workspace {
      var j := LogEntry(db, events, i);
    }
    forall k | k in replayed.current ensures k.workspace == workspace {
      PointerHasLast(replayed.rows, k);
      var i :| 0 <= i < |replayed.rows| && ObjectOf(replayed.rows[i]) == k;
      assert replayed.rows[i].workspace == workspace;
    }
    RebuildSingleWorkspace(replayed, workspace);
    ConsistentIsNewest(db);
    NewestPointersTransfer(db, events, db.current);
    NewestPointersUnique(Rebuild(replayed, workspace).current, db.current, replayed.rows);
  }
}
