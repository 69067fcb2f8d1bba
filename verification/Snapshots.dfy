/**
 Export and Import. An export reads the log first and the five tables afterwards, each in a read
 of its own; an import puts each event with the row it finds for it, skips events whose
 idempotency key is already there, and compares counts at the end.
 */
module Snapshots {
  import opened Sequences
  import opened EventStore
  import opened Projections
  import opened Writers

  const API_VERSION := "vessica.knowledge/v1"

  datatype CountKey = Events | Rows(kind: Kind)

  /** `rows` holds the five lists one after another; `checksumValid` stands for the digest comparison. */
  datatype Snapshot = Snapshot(schema: string, checksumValid: bool, workspace: string,
                               events: seq<Event>, rows: seq<Row>, counts: map<CountKey, int>)

  // --- Import ----------------------------------------------------------------------------------

  /** The row that the snapshot supplies for an event. */
  predicate Supplies(r: Row, e: Event) {
    r.kind == e.kind && r.id == e.aggregateId && (e.kind.Scope? || r.version == e.version)
  }

  /** The first row with the event's identity, or the zero value. */
  function Find(rows: seq<Row>, e: Event): (r: Row)
    ensures (exists i :: 0 <= i < |rows| && Supplies(rows[i], e)) ==> r in rows && Supplies(r, e)
    ensures (forall i :: 0 <= i < |rows| ==> !Supplies(rows[i], e)) ==> r == ZeroRow(e.kind)
  {
    if rows == [] then ZeroRow(e.kind)
    else if Supplies(rows[0], e) then rows[0]
    else Find(rows[1..], e)
  }

  /**
   One event of an import. A lookup that finds the key skips the event, and so does a lookup that
   fails, since the error is dropped and the pointer is not nil. Unknown aggregate types match no case.
   */
  function ImportOne(db: Db, rows: seq<Row>, e: Event, lookupFailed: bool): Outcome {
    if lookupFailed || HasKey(db, e.workspace, e.key) then Outcome(db, Done)
    else if e.kind.Unsupported? then Outcome(db, Done)
    else Commit(db, e, Find(rows, e))
  }

  /** The first n events; `faults` are the positions whose lookup failed. An attempt that dies stops at some n. */
  function ImportEvents(db: Db, snap: Snapshot, faults: set<nat>, n: nat): Outcome
    requires n <= |snap.events|
  {
    if n == 0 then Outcome(db, Done)
    else
      var o := ImportEvents(db, snap, faults, n - 1);
      if o.status.Done? then ImportOne(o.db, snap.rows, snap.events[n - 1], n - 1 in faults) else o
  }

  function CountOf(db: Db, workspace: string, k: CountKey): int {
    match k
    case Events => EventCount(db, workspace)
    case Rows(kind) => RowCount(db, workspace, kind)
  }

  predicate CountsMatch(db: Db, snap: Snapshot) {
    forall k :: k in snap.counts ==> CountOf(db, snap.workspace, k) == snap.counts[k]
  }

  function Import(db: Db, snap: Snapshot, faults: set<nat>): Outcome {
    if snap.schema != API_VERSION then Outcome(db, UnsupportedSchema)
    else if !snap.checksumValid then Outcome(db, ChecksumMismatch)
    else
      var o := ImportEvents(db, snap, faults, |snap.events|);
      if !o.status.Done? then o
      else Outcome(o.db, if CountsMatch(o.db, snap) then Done else CountMismatch)
  }

  /**
   An event of a known type whose row is missing from the snapshot is imported all the same, with an empty row that
   belongs to no workspace.
   */
  lemma MissingRowIsImportedEmpty(db: Db, rows: seq<Row>, e: Event)
    requires !e.kind.Unsupported? && !HasKey(db, e.workspace, e.key)
    requires forall r :: r in rows ==>
      !(r.kind == e.kind && r.id == e.aggregateId && (e.kind.Scope? || r.version == e.version))
    ensures ImportOne(db, rows, e, false)
         == Commit(db, e, Row(e.kind, "", "", 0, "", MemoryText("", "", "", "", ""), "", ""))
  {
    forall i | 0 <= i < |rows| ensures !Supplies(rows[i], e) { assert rows[i] in rows; }
  }

  /** These events one after another, with no failed lookup. */
  function Imported(db: Db, rows: seq<Row>, events: seq<Event>): Outcome {
    if events == [] then Outcome(db, Done)
    else
      var o := Imported(db, rows, events[..|events| - 1]);
      if o.status.Done? then ImportOne(o.db, rows, events[|events| - 1], false) else o
  }

  lemma ImportedSnoc(db: Db, rows: seq<Row>, events: seq<Event>, e: Event)
    ensures Imported(db, rows, events + [e]) ==
      if Imported(db, rows, events).status.Done? then ImportOne(Imported(db, rows, events).db, rows, e, false)
      else Imported(db, rows, events)
  {
    assert (events + [e])[..|events|] == events;
  }

  lemma {:induction false} CleanImportIsImported(db: Db, snap: Snapshot, n: nat)
    requires n <= |snap.events|
    ensures ImportEvents(db, snap, {}, n) == Imported(db, snap.rows, snap.events[..n])
  {
    if n > 0 {
      CleanImportIsImported(db, snap, n - 1);
      assert snap.events[..n] == snap.events[..n - 1] + [snap.events[n - 1]];
      ImportedSnoc(db, snap.rows, snap.events[..n - 1], snap.events[n - 1]);
    }
  }

  function OfKnownType(): Event -> bool { (e: Event) => !e.kind.Unsupported? }

  lemma {:induction false} KnownTypesAreImported(db: Db, rows: seq<Row>, events: seq<Event>)
    ensures Imported(db, rows, events) == Imported(db, rows, Filter(OfKnownType(), events))
  {
    if events != [] {
      var before, e := events[..|events| - 1], events[|events| - 1];
      KnownTypesAreImported(db, rows, before);
      var kept := Filter(OfKnownType(), before);
      if e.kind.Unsupported? {
        assert Filter(OfKnownType(), events) == kept;
      } else {
        assert Filter(OfKnownType(), events) == kept + [e];
        ImportedSnoc(db, rows, kept, e);
      }
    }
  }

  /** Events of unknown types are passed over: an import goes as if the snapshot did not contain them. */
  lemma UnknownTypesAreSkipped(db: Db, snap: Snapshot)
    ensures var known := Filter((e: Event) => !e.kind.Unsupported?, snap.events);
      ImportEvents(db, snap, {}, |snap.events|) == ImportEvents(db, snap.(events := known), {}, |known|)
  {
    var known := Filter(OfKnownType(), snap.events);
    CleanImportIsImported(db, snap, |snap.events|);
    CleanImportIsImported(db, snap.(events := known), |known|);
    assert snap.events[..|snap.events|] == snap.events && known[..|known|] == known;
    KnownTypesAreImported(db, snap.rows, snap.events);
  }

  // --- Snapshots whose events all have a row --------------------------------------------------

  function OfKind(kind: Kind): Row -> bool {
    (r: Row) => r.kind == kind
  }

  function CountsOf(events: seq<Event>, rows: seq<Row>): map<CountKey, int> {
    map[Rows(Scope) := |Filter(OfKind(Scope), rows)|, Rows(Entity) := |Filter(OfKind(Entity), rows)|,
        Rows(Artifact) := |Filter(OfKind(Artifact), rows)|, Rows(Memory) := |Filter(OfKind(Memory), rows)|,
        Rows(Relationship) := |Filter(OfKind(Relationship), rows)|, Events := |events|]
  }

  /** The snapshot describes one workspace, and each of its events has its own row in it; rows may be left over. */
  ghost predicate Covered(snap: Snapshot) {
    && snap.schema == API_VERSION && snap.checksumValid
    && snap.counts == CountsOf(snap.events, snap.rows)
    && UniqueEvents(snap.events)
    && UniqueRows(snap.rows)
    && (forall i :: 0 <= i < |snap.rows| ==>
          snap.rows[i].workspace == snap.workspace && !snap.rows[i].kind.Unsupported?)
    && (forall i :: 0 <= i < |snap.events| ==>
          Find(snap.rows, snap.events[i]) in snap.rows && Describes(snap.events[i], Find(snap.rows, snap.events[i])))
    && Distinct(FoundRows(snap, snap.events))
  }

  /** The rows the events ask for. */
  function FoundRows(snap: Snapshot, landed: seq<Event>): seq<Row> {
    Transform((e: Event) => Find(snap.rows, e), landed)
  }

  /** The rows of the snapshot correspond one to one to its events. */
  ghost predicate OneToOne(snap: Snapshot) {
    multiset(FoundRows(snap, snap.events)) == multiset(snap.rows)
  }

  /** The store that holds exactly these events of the snapshot, landed in this order. */
  function Loaded(snap: Snapshot, landed: seq<Event>): Db {
    Db(landed, FoundRows(snap, landed), Pointers(FoundRows(snap, landed)))
  }

  /** Some events of the snapshot, each once, in any order: what an earlier attempt can have left. */
  ghost predicate Landing(snap: Snapshot, landed: seq<Event>) {
    Distinct(landed) && forall e :: e in landed ==> e in snap.events
  }

  /** The landed events after one more attempt. */
  function Land(landed: seq<Event>, events: seq<Event>, faults: set<nat>, n: nat): seq<Event>
    requires n <= |events|
  {
    if n == 0 then landed
    else
      LandEvent(Land(landed, events, faults, n - 1), events[n - 1], n - 1 in faults)
  }

  /** An event lands unless its lookup failed or it is there already. */
  function LandEvent(landed: seq<Event>, e: Event, lookupFailed: bool): seq<Event> {
    if lookupFailed || e in landed then landed else landed + [e]
  }

  lemma FoundDiffer(snap: Snapshot, i: nat, j: nat)
    requires Covered(snap) && i < |snap.events| && j < |snap.events| && i != j
    ensures Find(snap.rows, snap.events[i]) != Find(snap.rows, snap.events[j])
  {
    var rows := FoundRows(snap, snap.events);
    assert rows[i] != rows[j];
  }

  lemma FoundClash(snap: Snapshot, a: Event, b: Event)
    requires Covered(snap) && a in snap.events && b in snap.events && a != b
    ensures !Clash(Find(snap.rows, a), Find(snap.rows, b))
    ensures a.id != b.id && !SameKey(a, b)
  {
    var i :| 0 <= i < |snap.events| && snap.events[i] == a;
    var j :| 0 <= j < |snap.events| && snap.events[j] == b;
    var ra, rb := Find(snap.rows, a), Find(snap.rows, b);
    FoundDiffer(snap, i, j);
    UniqueRowsApart(snap.rows, ra, rb);
  }

  lemma UniqueRowsApart(rows: seq<Row>, a: Row, b: Row)
    requires UniqueRows(rows) && a in rows && b in rows && a != b
    ensures !Clash(a, b)
  {
    var x :| 0 <= x < |rows| && rows[x] == a;
    var y :| 0 <= y < |rows| && rows[y] == b;
    if x < y { assert !Clash(rows[x], rows[y]); } else { assert !Clash(rows[y], rows[x]); }
  }

  lemma KeyPresentOnlyWhenLanded(snap: Snapshot, landed: seq<Event>, e: Event)
    requires Covered(snap) && Landing(snap, landed) && e in snap.events
    ensures HasKey(Loaded(snap, landed), e.workspace, e.key) <==> e in landed
  {
    if HasKey(Loaded(snap, landed), e.workspace, e.key) {
      var i :| 0 <= i < |landed| && landed[i].workspace == e.workspace && landed[i].key == e.key;
      if landed[i] != e { FoundClash(snap, landed[i], e); }
    }
  }

  lemma MissingEventFits(snap: Snapshot, landed: seq<Event>, e: Event)
    requires Covered(snap) && Landing(snap, landed) && e in snap.events && e !in landed
    ensures EventFits(Loaded(snap, landed), e) && RowFits(Loaded(snap, landed), Find(snap.rows, e))
    ensures !e.kind.Unsupported?
  {
    var j :| 0 <= j < |snap.events| && snap.events[j] == e;
    assert Describes(snap.events[j], Find(snap.rows, e));
    forall i | 0 <= i < |landed|
      ensures landed[i].id != e.id && !SameKey(landed[i], e) && !Clash(Find(snap.rows, landed[i]), Find(snap.rows, e))
    {
      FoundClash(snap, landed[i], e);
    }
  }

  lemma LoadedSnoc(snap: Snapshot, landed: seq<Event>, e: Event)
    ensures var db := Loaded(snap, landed); var r := Find(snap.rows, e);
      Loaded(snap, landed + [e]) == Db(db.events + [e], db.rows + [r], MovePointer(db.current, r))
  {
    var rows, rows' := FoundRows(snap, landed), FoundRows(snap, landed + [e]);
    assert rows' == rows + [Find(snap.rows, e)];
    assert rows'[..|landed|] == rows;
  }

  lemma LandOne(snap: Snapshot, landed: seq<Event>, e: Event, lookupFailed: bool)
    requires Covered(snap) && Landing(snap, landed) && e in snap.events
    ensures var landed' := LandEvent(landed, e, lookupFailed);
      Landing(snap, landed') && ImportOne(Loaded(snap, landed), snap.rows, e, lookupFailed)
        == Outcome(Loaded(snap, landed'), Done)
  {
    KeyPresentOnlyWhenLanded(snap, landed, e);
    if !lookupFailed && e !in landed {
      MissingEventFits(snap, landed, e);
      LoadedSnoc(snap, landed, e);
    }
  }

  /** After n events of an import into `db`, exactly `after` has landed. */
  ghost predicate Reached(snap: Snapshot, landed: seq<Event>, db: Db, faults: set<nat>, n: nat, after: seq<Event>) {
    && n <= |snap.events|
    && after == Land(landed, snap.events, faults, n) && Landing(snap, after)
    && ImportEvents(db, snap, faults, n) == Outcome(Loaded(snap, after), Done)
  }

  lemma ReachedNext(snap: Snapshot, landed: seq<Event>, db: Db, faults: set<nat>, n: nat, before: seq<Event>)
    returns (after: seq<Event>)
    requires Covered(snap) && Reached(snap, landed, db, faults, n, before) && n < |snap.events|
    ensures Reached(snap, landed, db, faults, n + 1, after)
  {
    LandOne(snap, before, snap.events[n], n in faults);
    after := LandEvent(before, snap.events[n], n in faults);
  }

  lemma ReachedAll(snap: Snapshot, landed: seq<Event>, db: Db, faults: set<nat>, n: nat) returns (after: seq<Event>)
    requires Covered(snap) && Reached(snap, landed, db, faults, 0, landed) && n <= |snap.events|
    ensures Reached(snap, landed, db, faults, n, after)
  {
    after := landed;
    for i := 0 to n
      invariant Reached(snap, landed, db, faults, i, after)
    {
      after := ReachedNext(snap, landed, db, faults, i, after);
    }
  }

  /** An attempt of any length, with any failed lookups, never hits a constraint and only adds events. */
  lemma ImportLands(snap: Snapshot, landed: seq<Event>, faults: set<nat>, n: nat)
    requires Covered(snap) && Landing(snap, landed) && n <= |snap.events|
    ensures Landing(snap, Land(landed, snap.events, faults, n))
    ensures ImportEvents(Loaded(snap, landed), snap, faults, n)
      == Outcome(Loaded(snap, Land(landed, snap.events, faults, n)), Done)
  {
    var after := ReachedAll(snap, landed, Loaded(snap, landed), faults, n);
  }

  // --- The verdict of an import ----------------------------------------------------------------

  lemma {:induction false} KindsPartition(rows: seq<Row>)
    requires forall i :: 0 <= i < |rows| ==> !rows[i].kind.Unsupported?
    ensures |rows| == |Filter(OfKind(Scope), rows)| + |Filter(OfKind(Entity), rows)| + |Filter(OfKind(Artifact), rows)|
                      + |Filter(OfKind(Memory), rows)| + |Filter(OfKind(Relationship), rows)|
  {
    if rows != [] {
      KindsPartition(rows[..|rows| - 1]);
    }
  }

  lemma {:induction false} SingleWorkspaceCounts(rows: seq<Row>, workspace: string, kind: Kind)
    requires forall i :: 0 <= i < |rows| ==> rows[i].workspace == workspace
    ensures |Filter((r: Row) => r.workspace == workspace && r.kind == kind, rows)| == |Filter(OfKind(kind), rows)|
  {
    if rows != [] {
      SingleWorkspaceCounts(rows[..|rows| - 1], workspace, kind);
    }
  }

  lemma {:induction false} SingleWorkspaceEvents(events: seq<Event>, workspace: string)
    requires forall i :: 0 <= i < |events| ==> events[i].workspace == workspace
    ensures |Filter((e: Event) => e.workspace == workspace, events)| == |events|
  {
    if events != [] {
      SingleWorkspaceEvents(events[..|events| - 1], workspace);
    }
  }

  lemma LandedEntry(snap: Snapshot, landed: seq<Event>, i: nat)
    requires Covered(snap) && Landing(snap, landed) && i < |landed|
    ensures landed[i] in snap.events && FoundRows(snap, landed)[i] in snap.rows
    ensures Describes(landed[i], FoundRows(snap, landed)[i])
    ensures landed[i].workspace == snap.workspace == FoundRows(snap, landed)[i].workspace
  {
    assert landed[i] in snap.events;
    var j :| 0 <= j < |snap.events| && snap.events[j] == landed[i];
    assert Describes(snap.events[j], Find(snap.rows, snap.events[j]));
  }

  lemma LoadedCounts(snap: Snapshot, landed: seq<Event>)
    requires Covered(snap) && Landing(snap, landed)
    ensures CountOf(Loaded(snap, landed), snap.workspace, Events) == |landed|
    ensures forall kind ::
      CountOf(Loaded(snap, landed), snap.workspace, Rows(kind)) == |Filter(OfKind(kind), FoundRows(snap, landed))|
  {
    var rows := FoundRows(snap, landed);
    forall i | 0 <= i < |landed| ensures landed[i].workspace == snap.workspace == rows[i].workspace {
      LandedEntry(snap, landed, i);
    }
    SingleWorkspaceEvents(landed, snap.workspace);
    forall kind ensures CountOf(Loaded(snap, landed), snap.workspace, Rows(kind)) == |Filter(OfKind(kind), rows)| {
      SingleWorkspaceCounts(rows, snap.workspace, kind);
    }
  }

  lemma FoundRowsDistinct(snap: Snapshot, landed: seq<Event>)
    requires Covered(snap) && Landing(snap, landed)
    ensures Distinct(FoundRows(snap, landed))
    ensures forall r :: r in FoundRows(snap, landed) ==> r in snap.rows
  {
    var rows := FoundRows(snap, landed);
    forall i, j | 0 <= i < j < |rows| ensures rows[i] != rows[j] {
      LandedEntry(snap, landed, i);
      FoundClash(snap, landed[i], landed[j]);
    }
    forall r | r in rows ensures r in snap.rows {
      var i :| 0 <= i < |rows| && rows[i] == r;
      LandedEntry(snap, landed, i);
    }
  }

  ghost predicate SameKindCounts(rows: seq<Row>, rows': seq<Row>) {
    forall kind: Kind :: !kind.Unsupported? ==> |Filter(OfKind(kind), rows)| == |Filter(OfKind(kind), rows')|
  }

  ghost predicate KindsKnown(rows: seq<Row>) {
    forall i :: 0 <= i < |rows| ==> !rows[i].kind.Unsupported?
  }

  /** Distinct rows drawn from a list are all of it exactly when every kind is as numerous. */
  lemma PermutationExactlyByCounts(rows: seq<Row>, all: seq<Row>)
    requires Distinct(rows) && KindsKnown(rows) && KindsKnown(all)
    requires forall r :: r in rows ==> r in all
    ensures multiset(rows) == multiset(all) <==> SameKindCounts(rows, all)
  {
    if multiset(rows) == multiset(all) {
      forall kind ensures |Filter(OfKind(kind), rows)| == |Filter(OfKind(kind), all)| {
        FilterPermutation(OfKind(kind), rows, all);
      }
    }
    if SameKindCounts(rows, all) {
      KindsPartition(rows);
      KindsPartition(all);
      DistinctInside(rows, all);
    }
  }

  lemma OneToOneExactlyByCounts(snap: Snapshot, landed: seq<Event>)
    requires Covered(snap) && Landing(snap, landed) && multiset(landed) == multiset(snap.events)
    ensures OneToOne(snap) <==> SameKindCounts(FoundRows(snap, landed), snap.rows)
  {
    var rows := FoundRows(snap, landed);
    TransformPermutation((e: Event) => Find(snap.rows, e), landed, snap.events);
    FoundRowsDistinct(snap, landed);
    forall i | 0 <= i < |rows| ensures !rows[i].kind.Unsupported? {
      LandedEntry(snap, landed, i);
    }
    PermutationExactlyByCounts(rows, snap.rows);
  }

  lemma EventsAreLanding(snap: Snapshot)
    requires Covered(snap)
    ensures Landing(snap, snap.events) && Landing(snap, [])
  {
  }

  /**
   An import into a store that holds any part of the snapshot succeeds exactly when every event has
   landed and the rows of the snapshot correspond one to one to its events; it never reports anything
   but success or a count mismatch.
   */
  lemma ImportVerdict(snap: Snapshot, landed: seq<Event>, faults: set<nat>)
    requires Covered(snap) && Landing(snap, landed)
    ensures var after := Land(landed, snap.events, faults, |snap.events|);
            var o := Import(Loaded(snap, landed), snap, faults);
      && o.db == Loaded(snap, after)
      && (o.status.Done? <==> multiset(after) == multiset(snap.events) && OneToOne(snap))
      && (!o.status.Done? ==> o.status.CountMismatch?)
  {
    var after := Land(landed, snap.events, faults, |snap.events|);
    ImportLands(snap, landed, faults, |snap.events|);
    LoadedCounts(snap, after);
    EventsAreLanding(snap);
    DistinctInside(after, snap.events);
    if multiset(after) == multiset(snap.events) {
      assert |after| == |multiset(after)| == |snap.events|;
      OneToOneExactlyByCounts(snap, after);
    }
    CountsMatchExactly(snap, after);
  }

  lemma CountsMatchExactly(snap: Snapshot, after: seq<Event>)
    requires Covered(snap) && Landing(snap, after)
    ensures CountsMatch(Loaded(snap, after), snap) <==>
              |after| == |snap.events| && SameKindCounts(FoundRows(snap, after), snap.rows)
  {
    LoadedCounts(snap, after);
    CountsListed(snap.events, snap.rows);
    MatchListed(Loaded(snap, after), snap);
  }

  lemma CountsListed(events: seq<Event>, rows: seq<Row>)
    ensures forall k :: k in CountsOf(events, rows) <==> k.Events? || !k.kind.Unsupported?
    ensures CountsOf(events, rows)[Events] == |events|
    ensures forall kind: Kind :: !kind.Unsupported? ==>
      CountsOf(events, rows)[Rows(kind)] == |Filter(OfKind(kind), rows)|
  {
  }

  lemma MatchListed(db: Db, snap: Snapshot)
    requires forall k :: k in snap.counts <==> k.Events? || !k.kind.Unsupported?
    ensures CountsMatch(db, snap) <==>
              && CountOf(db, snap.workspace, Events) == snap.counts[Events]
              && forall kind: Kind :: !kind.Unsupported? ==>
                    CountOf(db, snap.workspace, Rows(kind)) == snap.counts[Rows(kind)]
  {
  }
}
