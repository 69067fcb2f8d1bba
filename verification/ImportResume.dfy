/**
 Imports that die part way and are run again. An attempt processes a first part of the snapshot's
 events; any of its idempotency lookups may fail.
 */
module ImportResume {
  import opened Sequences
  import opened EventStore
  import opened Projections
  import opened Snapshots
  import MemoryIndex

  datatype Attempt = Attempt(faults: set<nat>, stop: nat)

  ghost predicate Fits(snap: Snapshot, tries: seq<Attempt>) {
    forall i :: 0 <= i < |tries| ==> tries[i].stop <= |snap.events|
  }

  ghost predicate NoFaults(tries: seq<Attempt>) {
    forall i :: 0 <= i < |tries| ==> tries[i].faults == {}
  }

  /** The store after a series of interrupted attempts. */
  ghost function Attempts(db: Db, snap: Snapshot, tries: seq<Attempt>): Db
    requires Fits(snap, tries)
  {
    if tries == [] then db
    else
      var n := |tries| - 1;
      ImportEvents(Attempts(db, snap, tries[..n]), snap, tries[n].faults, tries[n].stop).db
  }

  function Furthest(tries: seq<Attempt>): nat {
    if tries == [] then 0
    else
      var m, stop := Furthest(tries[..|tries| - 1]), tries[|tries| - 1].stop;
      if m < stop then stop else m
  }

  lemma EmptyIsLoaded(snap: Snapshot)
    ensures Loaded(snap, []) == EMPTY
  {
  }

  // --- Without failed lookups: the very same store ---------------------------------------------

  lemma {:induction false} ResumedLanding(events: seq<Event>, m: nat, n: nat)
    requires Distinct(events) && m <= |events| && n <= |events|
    ensures Land(events[..m], events, {}, n) == events[..if m < n then n else m]
  {
    if n > 0 {
      ResumedLanding(events, m, n - 1);
      if n <= m {
        assert events[..m][n - 1] == events[n - 1];
      } else {
        assert events[n - 1] !in events[..n - 1];
        assert events[..n] == events[..n - 1] + [events[n - 1]];
      }
    }
  }

  lemma {:induction false} FurthestFits(snap: Snapshot, tries: seq<Attempt>)
    requires Fits(snap, tries)
    ensures Furthest(tries) <= |snap.events|
  {
    if tries != [] { FurthestFits(snap, tries[..|tries| - 1]); }
  }

  lemma CoveredDistinct(snap: Snapshot)
    requires Covered(snap)
    ensures Distinct(snap.events)
  {
  }

  lemma {:induction false} CleanAttemptsLeaveAPrefix(snap: Snapshot, tries: seq<Attempt>)
    requires Covered(snap) && Fits(snap, tries) && NoFaults(tries)
    ensures Furthest(tries) <= |snap.events|
    ensures Attempts(EMPTY, snap, tries) == Loaded(snap, snap.events[..Furthest(tries)])
  {
    FurthestFits(snap, tries);
    EmptyIsLoaded(snap);
    if tries != [] {
      var n := |tries| - 1;
      FurthestFits(snap, tries[..n]);
      CleanAttemptsLeaveAPrefix(snap, tries[..n]);
      CoveredDistinct(snap);
      var m := Furthest(tries[..n]);
      PrefixIsLanding(snap, m);
      ResumedLanding(snap.events, m, tries[n].stop);
      ImportLands(snap, snap.events[..m], {}, tries[n].stop);
    }
  }

  lemma PrefixIsLanding(snap: Snapshot, m: nat)
    requires Covered(snap) && m <= |snap.events|
    ensures Landing(snap, snap.events[..m])
  {
    CoveredDistinct(snap);
  }

  /**
   Interrupted after any numbers of events and rerun any number of times, an import ends exactly as
   one uninterrupted import: the same log, rows, pointers and verdict.
   */
  lemma ResumeReachesTheUninterruptedImport(snap: Snapshot, tries: seq<Attempt>)
    requires Covered(snap) && Fits(snap, tries) && NoFaults(tries)
    ensures Import(Attempts(EMPTY, snap, tries), snap, {}) == Import(EMPTY, snap, {})
    ensures Import(EMPTY, snap, {}).db == Loaded(snap, snap.events)
  {
    CleanAttemptsLeaveAPrefix(snap, tries);
    EmptyIsLoaded(snap);
    assert snap.events[..0] == [];
    ResumeFromPrefix(snap, Furthest(tries));
    ResumeFromPrefix(snap, 0);
  }

  /** From any prefix a clean import ends with everything loaded, and with one verdict. */
  lemma ResumeFromPrefix(snap: Snapshot, m: nat)
    requires Covered(snap) && m <= |snap.events|
    ensures var o := Import(Loaded(snap, snap.events[..m]), snap, {});
      o.db == Loaded(snap, snap.events) && o.status == VerdictOf(snap)
  {
    var n := |snap.events|;
    CoveredDistinct(snap);
    PrefixIsLanding(snap, m);
    ResumedLanding(snap.events, m, n);
    assert snap.events[..n] == snap.events;
    ImportLands(snap, snap.events[..m], {}, n);
  }

  ghost function VerdictOf(snap: Snapshot): Status {
    if CountsMatch(Loaded(snap, snap.events), snap) then Done else CountMismatch
  }

  // --- With failed lookups ---------------------------------------------------------------------

  lemma {:induction false} AttemptsLand(snap: Snapshot, tries: seq<Attempt>) returns (landed: seq<Event>)
    requires Covered(snap) && Fits(snap, tries)
    ensures Landing(snap, landed) && Attempts(EMPTY, snap, tries) == Loaded(snap, landed)
  {
    if tries == [] {
      EmptyIsLoaded(snap);
      landed := [];
    } else {
      var n := |tries| - 1;
      var before := AttemptsLand(snap, tries[..n]);
      ImportLands(snap, before, tries[n].faults, tries[n].stop);
      landed := Land(before, snap.events, tries[n].faults, tries[n].stop);
    }
  }

  /**
   After any attempts, with any failed lookups in them and in the last run, an import reports success
   exactly when the store holds all events and all rows of the snapshot, each once.
   */
  lemma SuccessMeansEverythingLanded(snap: Snapshot, tries: seq<Attempt>, faults: set<nat>)
    requires Covered(snap) && Fits(snap, tries)
    ensures var o := Import(Attempts(EMPTY, snap, tries), snap, faults);
      && (o.status.Done? <==>
            multiset(o.db.events) == multiset(snap.events) && multiset(o.db.rows) == multiset(snap.rows))
      && (!o.status.Done? ==> o.status.CountMismatch?)
  {
    var landed := AttemptsLand(snap, tries);
    ImportVerdict(snap, landed, faults);
    var after := Land(landed, snap.events, faults, |snap.events|);
    if multiset(after) == multiset(snap.events) {
      TransformPermutation((e: Event) => Find(snap.rows, e), after, snap.events);
    }
  }

  /** The store after an import holds one workspace, and no row twice. */
  lemma ImportHoldsOneWorkspace(snap: Snapshot, tries: seq<Attempt>, faults: set<nat>)
    requires Covered(snap) && Fits(snap, tries)
    ensures var db := Import(Attempts(EMPTY, snap, tries), snap, faults).db;
      && UniqueRows(db.rows)
      && (forall i :: 0 <= i < |db.rows| ==> db.rows[i].workspace == snap.workspace)
      && (forall k :: k in db.current ==> k.workspace == snap.workspace)
  {
    var landed := AttemptsLand(snap, tries);
    ImportVerdict(snap, landed, faults);
    var after := Land(landed, snap.events, faults, |snap.events|);
    ImportLands(snap, landed, faults, |snap.events|);
    LoadedWorkspace(snap, after);
  }

  lemma LoadedWorkspace(snap: Snapshot, landed: seq<Event>)
    requires Covered(snap) && Landing(snap, landed)
    ensures var db := Loaded(snap, landed);
      && UniqueRows(db.rows)
      && (forall i :: 0 <= i < |db.rows| ==> db.rows[i].workspace == snap.workspace)
      && (forall k :: k in db.current ==> k.workspace == snap.workspace)
  {
    var db := Loaded(snap, landed);
    forall i | 0 <= i < |db.rows| ensures db.rows[i].workspace == snap.workspace {
      LandedEntry(snap, landed, i);
    }
    forall i, j | 0 <= i < j < |db.rows| ensures !Clash(db.rows[i], db.rows[j]) {
      FoundClash(snap, landed[i], landed[j]);
    }
    forall k | k in db.current ensures k.workspace == snap.workspace {
      PointerHasLast(db.rows, k);
      var i :| 0 <= i < |db.rows| && ObjectOf(db.rows[i]) == k;
    }
  }

  /**
   After an import in any event order a rebuild sets every pointer to the greatest version, and the
   index is exact for them.
   */
  lemma RebuildRepairsImport(snap: Snapshot, tries: seq<Attempt>, faults: set<nat>, index: seq<MemoryIndex.IndexRow>)
    requires Covered(snap) && Fits(snap, tries)
    requires forall x :: x in index ==> x.workspace == snap.workspace
    ensures var db := Import(Attempts(EMPTY, snap, tries), snap, faults).db; var rebuilt := Rebuild(db, snap.workspace);
      && NewestPointers(rebuilt.current, db.rows)
      && MemoryIndex.Exact(MemoryIndex.Indexed(rebuilt, MemoryIndex.RebuildIndex(rebuilt, index, snap.workspace)))
  {
    ImportHoldsOneWorkspace(snap, tries, faults);
    var db := Import(Attempts(EMPTY, snap, tries), snap, faults).db;
    RebuildSingleWorkspace(db, snap.workspace);
    MemoryIndex.RebuildRepairsTheIndex(db, index, snap.workspace);
  }

  // --- A failed lookup can cost a pointer ------------------------------------------------------

  function Without(events: seq<Event>, i: nat): seq<Event>
    requires i < |events|
  {
    events[..i] + events[i + 1..]
  }

  lemma {:induction false} SkippingLanding(events: seq<Event>, i: nat, n: nat)
    requires Distinct(events) && i < |events| && n <= |events|
    ensures Land([], events, {i}, n) == if n <= i then events[..n] else events[..i] + events[i + 1..n]
  {
    if n > 0 {
      var m := n - 1;
      SkippingLanding(events, i, m);
      if m < i {
        TakeNext(events, m);
        assert events[m] !in events[..m];
      } else if m > i {
        SkippedNext(events, i, m);
      }
    }
  }

  lemma SkippingAll(events: seq<Event>, i: nat)
    requires Distinct(events) && i < |events|
    ensures Land([], events, {i}, |events|) == Without(events, i)
  {
    SkippingLanding(events, i, |events|);
    assert events[i + 1..|events|] == events[i + 1..];
  }

  lemma SkippedNext(events: seq<Event>, i: nat, m: nat)
    requires Distinct(events) && i < m < |events|
    ensures events[m] !in events[..i] + events[i + 1..m]
    ensures events[..i] + events[i + 1..m] + [events[m]] == events[..i] + events[i + 1..m + 1]
  {
    assert events[m] !in events[..i] && events[m] !in events[i + 1..m];
  }

  lemma {:induction false} LateLanding(events: seq<Event>, i: nat, n: nat)
    requires Distinct(events) && i < |events| && n <= |events|
    ensures Land(Without(events, i), events, {}, n)
         == if n <= i then Without(events, i) else Without(events, i) + [events[i]]
  {
    if n > 0 {
      var m := n - 1;
      LateLanding(events, i, m);
      var rest := Without(events, i);
      if m < i { assert rest[m] == events[m]; }
      if m > i { assert rest[m - 1] == events[m]; }
      if m == i { assert events[i] !in rest; }
    }
  }

  lemma WithoutIsLanding(snap: Snapshot, i: nat)
    requires Covered(snap) && i < |snap.events|
    ensures Landing(snap, Without(snap.events, i))
    ensures multiset(Without(snap.events, i) + [snap.events[i]]) == multiset(snap.events)
  {
    CoveredDistinct(snap);
    ElementRemove(snap.events, i);
  }

  lemma AfterSkippingAttempt(snap: Snapshot, i: nat)
    requires Covered(snap) && i < |snap.events|
    ensures Attempts(EMPTY, snap, [Attempt({i}, |snap.events|)]) == Loaded(snap, Without(snap.events, i))
  {
    var n := |snap.events|;
    OneAttempt(EMPTY, snap, Attempt({i}, n));
    CoveredDistinct(snap);
    SkippingAll(snap.events, i);
    FirstAttempt(snap, {i}, n);
  }

  lemma FirstAttempt(snap: Snapshot, faults: set<nat>, n: nat)
    requires Covered(snap) && n <= |snap.events|
    ensures ImportEvents(EMPTY, snap, faults, n).db == Loaded(snap, Land([], snap.events, faults, n))
  {
    EmptyIsLoaded(snap);
    ImportLands(snap, [], faults, n);
  }

  lemma OneAttempt(db: Db, snap: Snapshot, a: Attempt)
    requires a.stop <= |snap.events|
    ensures Attempts(db, snap, [a]) == ImportEvents(db, snap, a.faults, a.stop).db
  {
    assert [a][..0] == [];
  }

  /**
   A first attempt in which the lookup of one event fails, then a clean rerun: the rerun reports
   success, every row is there, and the object's pointer is at that event's version. So whenever the
   event is not its object's newest, a successful import leaves a stale pointer.
   */
  lemma FailedLookupMovesThePointerBack(snap: Snapshot, i: nat)
    requires Covered(snap) && OneToOne(snap) && i < |snap.events| && !snap.events[i].kind.Scope?
    ensures var tries := [Attempt({i}, |snap.events|)]; var e := snap.events[i];
            var k := ObjectKey(e.kind, e.workspace, e.aggregateId);
      && Fits(snap, tries)
      && var o := Import(Attempts(EMPTY, snap, tries), snap, {});
      && o.status.Done? && multiset(o.db.rows) == multiset(snap.rows)
      && k in o.db.current && o.db.current[k] == e.version
  {
    var n, rest := |snap.events|, Without(snap.events, i);
    var tries := [Attempt({i}, n)];
    AfterSkippingAttempt(snap, i);
    CoveredDistinct(snap);
    LateLanding(snap.events, i, n);
    WithoutIsLanding(snap, i);
    ImportVerdict(snap, rest, {});
    TransformPermutation((e: Event) => Find(snap.rows, e), rest + [snap.events[i]], snap.events);
    LastLandedPointer(snap, rest, snap.events[i]);
  }

  lemma LastLandedPointer(snap: Snapshot, rest: seq<Event>, e: Event)
    requires Covered(snap) && e in snap.events && !e.kind.Scope?
    ensures var current := Loaded(snap, rest + [e]).current; var k := ObjectKey(e.kind, e.workspace, e.aggregateId);
      k in current && current[k] == e.version
  {
    var i :| 0 <= i < |snap.events| && snap.events[i] == e;
    assert Describes(e, Find(snap.rows, e));
    LoadedSnoc(snap, rest, e);
  }
}
