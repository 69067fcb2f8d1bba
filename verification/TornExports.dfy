/**
 Exports taken while writers keep committing. The log is read first and each table later, so rows
 can be ahead of the log; the import of such a snapshot is what has to notice.
 */
module TornExports {
  import opened Sequences
  import opened EventStore
  import opened Writers
  import opened Snapshots

  /** The store at the moment the log is read and at the moments the five tables are read. */
  datatype Reads = Reads(log: Db, scopes: Db, entities: Db, artifacts: Db, memories: Db, relationships: Db) {
    function At(kind: Kind): Db {
      match kind
      case Scope => scopes
      case Entity => entities
      case Artifact => artifacts
      case Memory => memories
      case Relationship => relationships
      case Unsupported(_) => log
    }
  }

  function InTable(workspace: string, kind: Kind): Row -> bool {
    (r: Row) => r.workspace == workspace && r.kind == kind
  }

  function Table(db: Db, workspace: string, kind: Kind): seq<Row> {
    Filter(InTable(workspace, kind), db.rows)
  }

  function LogFor(db: Db, workspace: string): seq<Event> {
    Filter((e: Event) => e.workspace == workspace, db.events)
  }

  function TablesRead(cut: Reads, workspace: string): seq<Row> {
    Table(cut.scopes, workspace, Scope) + Table(cut.entities, workspace, Entity)
      + Table(cut.artifacts, workspace, Artifact)
    + Table(cut.memories, workspace, Memory) + Table(cut.relationships, workspace, Relationship)
  }

  /** The exported snapshot; `events` is the log as listed, in whatever order its timestamps give. */
  function Export(cut: Reads, workspace: string, events: seq<Event>): Snapshot {
    var rows := TablesRead(cut, workspace);
    Snapshot(API_VERSION, true, workspace, events, rows, CountsOf(events, rows))
  }

  /** Every table is read in a state that the log's state grew into. */
  ghost predicate LogReadFirst(cut: Reads) {
    && Consistent(cut.log)
    && forall kind :: Consistent(cut.At(kind)) && Grows(cut.log, cut.At(kind))
  }

  ghost predicate Listing(cut: Reads, workspace: string, events: seq<Event>) {
    multiset(events) == multiset(LogFor(cut.log, workspace))
  }

  /** No row of the workspace entered a table between the read of the log and the read of that table. */
  ghost predicate Quiet(cut: Reads, workspace: string) {
    forall kind: Kind :: !kind.Unsupported? ==> NothingWritten(cut.log, cut.At(kind), workspace, kind)
  }

  ghost predicate NothingWritten(d: Db, d': Db, workspace: string, kind: Kind)
  {
    forall i :: |d.rows| <= i < |d'.rows| ==> !InTable(workspace, kind)(d'.rows[i])
  }

  // --- Every exported event has its row --------------------------------------------------------

  lemma RowRead(cut: Reads, workspace: string, r: Row)
    ensures r in TablesRead(cut, workspace) <==>
      !r.kind.Unsupported? && r in cut.At(r.kind).rows && r.workspace == workspace
  {
    TableMembers(cut.scopes, workspace, Scope);
    TableMembers(cut.entities, workspace, Entity);
    TableMembers(cut.artifacts, workspace, Artifact);
    TableMembers(cut.memories, workspace, Memory);
    TableMembers(cut.relationships, workspace, Relationship);
  }

  lemma TableMembers(db: Db, workspace: string, kind: Kind)
    ensures forall r :: r in Table(db, workspace, kind) <==> r in db.rows && r.workspace == workspace && r.kind == kind
  {
    FilterMembers(InTable(workspace, kind), db.rows);
  }

  lemma UniqueByMembers(rows: seq<Row>)
    ensures UniqueRows(rows) <==> Distinct(rows) && forall a, b :: a in rows && b in rows && a != b ==> !Clash(a, b)
  {
    if UniqueRows(rows) {
      forall a, b | a in rows && b in rows && a != b ensures !Clash(a, b) {
        var i :| 0 <= i < |rows| && rows[i] == a;
        var j :| 0 <= j < |rows| && rows[j] == b;
        if i < j { assert !Clash(rows[i], rows[j]); } else { assert !Clash(rows[j], rows[i]); }
      }
      forall i, j | 0 <= i < j < |rows| ensures rows[i] != rows[j] {
        assert !Clash(rows[i], rows[j]);
      }
    }
  }

  lemma DistinctAppend<T(!new)>(s: seq<T>, t: seq<T>)
    requires Distinct(s) && Distinct(t) && forall x :: x in s ==> x !in t
    ensures Distinct(s + t)
  {
    forall i, j | 0 <= i < j < |s + t| ensures (s + t)[i] != (s + t)[j] {
      if i < |s| && |s| <= j { assert (s + t)[j] in t; assert (s + t)[i] in s; }
    }
  }

  lemma TableDistinct(db: Db, workspace: string, kind: Kind)
    requires UniqueRows(db.rows)
    ensures Distinct(Table(db, workspace, kind)) && forall r :: r in Table(db, workspace, kind) ==> r.kind == kind
  {
    UniqueByMembers(db.rows);
    FilterDistinct(InTable(workspace, kind), db.rows);
    TableMembers(db, workspace, kind);
  }

  lemma DistinctByKind(s: seq<Row>, e: seq<Row>, a: seq<Row>, m: seq<Row>, r: seq<Row>)
    requires Distinct(s) && Distinct(e) && Distinct(a) && Distinct(m) && Distinct(r)
    requires (forall x :: x in s ==> x.kind.Scope?) && (forall x :: x in e ==> x.kind.Entity?)
    requires (forall x :: x in a ==> x.kind.Artifact?)
    requires (forall x :: x in m ==> x.kind.Memory?) && (forall x :: x in r ==> x.kind.Relationship?)
    ensures Distinct(s + e + a + m + r)
  {
    DistinctAppend(s, e);
    DistinctAppend(s + e, a);
    DistinctAppend(s + e + a, m);
    DistinctAppend(s + e + a + m, r);
  }

  lemma TablesReadDistinct(cut: Reads, workspace: string)
    requires UniqueRows(cut.scopes.rows) && UniqueRows(cut.entities.rows) && UniqueRows(cut.artifacts.rows)
    requires UniqueRows(cut.memories.rows) && UniqueRows(cut.relationships.rows)
    ensures Distinct(TablesRead(cut, workspace))
  {
    TableDistinct(cut.scopes, workspace, Scope);
    TableDistinct(cut.entities, workspace, Entity);
    TableDistinct(cut.artifacts, workspace, Artifact);
    TableDistinct(cut.memories, workspace, Memory);
    TableDistinct(cut.relationships, workspace, Relationship);
    DistinctByKind(Table(cut.scopes, workspace, Scope), Table(cut.entities, workspace, Entity),
                   Table(cut.artifacts, workspace, Artifact),
                   Table(cut.memories, workspace, Memory), Table(cut.relationships, workspace, Relationship));
  }

  lemma TablesReadUnique(cut: Reads, workspace: string)
    requires LogReadFirst(cut)
    ensures UniqueRows(TablesRead(cut, workspace))
  {
    assert Consistent(cut.At(Scope)) && Consistent(cut.At(Entity)) && Consistent(cut.At(Artifact))
      && Consistent(cut.At(Memory)) && Consistent(cut.At(Relationship));
    TablesReadDistinct(cut, workspace);
    var rows := TablesRead(cut, workspace);
    forall x, y | x in rows && y in rows && x != y ensures !Clash(x, y) {
      RowsReadDoNotClash(cut, workspace, x, y);
    }
    UniqueByMembers(rows);
  }

  lemma RowsReadDoNotClash(cut: Reads, workspace: string, x: Row, y: Row)
    requires LogReadFirst(cut) && x in TablesRead(cut, workspace) && y in TablesRead(cut, workspace) && x != y
    ensures !Clash(x, y)
  {
    RowRead(cut, workspace, x);
    RowRead(cut, workspace, y);
    if x.kind == y.kind {
      assert Consistent(cut.At(x.kind));
      UniqueByMembers(cut.At(x.kind).rows);
    }
  }

  /** The event's row is in the table read later, and the import finds it and no other. */
  lemma EventFindsItsRow(cut: Reads, workspace: string, i: nat)
    requires LogReadFirst(cut) && i < |cut.log.events| && cut.log.events[i].workspace == workspace
    ensures var e := cut.log.events[i]; var rows := TablesRead(cut, workspace);
      && i < |cut.At(e.kind).rows|
      && Find(rows, e) == cut.At(e.kind).rows[i]
      && Find(rows, e) in rows && Describes(e, Find(rows, e))
  {
    var e := cut.log.events[i];
    var rows := TablesRead(cut, workspace);
    RowOfEvent(cut, i);
    var r := cut.At(e.kind).rows[i];
    RowRead(cut, workspace, r);
    var x :| 0 <= x < |rows| && rows[x] == r;
    assert Supplies(rows[x], e);
    SuppliersClash(cut, workspace, e, r, Find(rows, e));
  }

  /** The row that was committed with the event is still there when the table is read. */
  lemma RowOfEvent(cut: Reads, i: nat)
    requires LogReadFirst(cut) && i < |cut.log.events|
    ensures var e := cut.log.events[i];
      i < |cut.At(e.kind).rows| && Describes(e, cut.At(e.kind).rows[i]) && Supplies(cut.At(e.kind).rows[i], e)
  {
    var e := cut.log.events[i];
    var db := cut.At(e.kind);
    assert Grows(cut.log, db) && Describes(e, cut.log.rows[i]) && SameContent(cut.log.rows[i], db.rows[i]);
  }

  /** No second row read fits the same event. */
  lemma SuppliersClash(cut: Reads, workspace: string, e: Event, x: Row, y: Row)
    requires LogReadFirst(cut) && x in TablesRead(cut, workspace) && y in TablesRead(cut, workspace)
    requires Supplies(x, e) && Supplies(y, e)
    ensures x == y
  {
    RowRead(cut, workspace, x);
    RowRead(cut, workspace, y);
    if x != y { RowsReadDoNotClash(cut, workspace, x, y); }
  }

  lemma ListedEvent(cut: Reads, workspace: string, events: seq<Event>, e: Event) returns (i: nat)
    requires Listing(cut, workspace, events) && e in events
    ensures i < |cut.log.events| && cut.log.events[i] == e && e.workspace == workspace
  {
    assert e in multiset(events);
    assert e in LogFor(cut.log, workspace);
    FilterMembers((e: Event) => e.workspace == workspace, cut.log.events);
    i :| 0 <= i < |cut.log.events| && cut.log.events[i] == e;
  }

  lemma ListingUnique(cut: Reads, workspace: string, events: seq<Event>)
    requires Consistent(cut.log) && Listing(cut, workspace, events)
    ensures Distinct(events) && UniqueEvents(events)
  {
    FilterDistinct((e: Event) => e.workspace == workspace, cut.log.events);
    PermutationDistinct(LogFor(cut.log, workspace), events);
    forall i, j | 0 <= i < j < |events| ensures events[i].id != events[j].id && !SameKey(events[i], events[j]) {
      var i' := ListedEvent(cut, workspace, events, events[i]);
      var j' := ListedEvent(cut, workspace, events, events[j]);
      assert i' != j';
    }
  }

  lemma ExportIsCovered(cut: Reads, workspace: string, events: seq<Event>)
    requires LogReadFirst(cut) && Listing(cut, workspace, events)
    ensures Covered(Export(cut, workspace, events))
  {
    var snap := Export(cut, workspace, events);
    ListingUnique(cut, workspace, events);
    TablesReadUnique(cut, workspace);
    forall i | 0 <= i < |snap.rows| ensures snap.rows[i].workspace == workspace && !snap.rows[i].kind.Unsupported? {
      RowRead(cut, workspace, snap.rows[i]);
    }
    forall i | 0 <= i < |events|
      ensures Find(snap.rows, events[i]) in snap.rows && Describes(events[i], Find(snap.rows, events[i]))
    {
      var i' := ListedEvent(cut, workspace, events, events[i]);
      EventFindsItsRow(cut, workspace, i');
    }
    forall i, j | 0 <= i < j < |events| ensures Find(snap.rows, events[i]) != Find(snap.rows, events[j]) {
      var i' := ListedEvent(cut, workspace, events, events[i]);
      var j' := ListedEvent(cut, workspace, events, events[j]);
      EventFindsItsRow(cut, workspace, i');
      EventFindsItsRow(cut, workspace, j');
      assert i' != j';
      if events[i].kind == events[j].kind {
        var rows := cut.At(events[i].kind).rows;
        if i' < j' { assert !Clash(rows[i'], rows[j']); } else { assert !Clash(rows[j'], rows[i']); }
      }
    }
  }

  // --- Counting rows against events ------------------------------------------------------------

  function EventOfKind(kind: Kind): Event -> bool {
    (e: Event) => e.kind == kind
  }

  /** The log of a workspace has as many events of a kind as that table has rows. */
  lemma {:induction false} LogMatchesTable(db: Db, workspace: string, kind: Kind)
    requires Paired(db)
    ensures |Filter(EventOfKind(kind), LogFor(db, workspace))| == |Table(db, workspace, kind)|
    decreases |db.rows|
  {
    if db.rows != [] {
      var n := |db.rows| - 1;
      var shorter := db.(events := db.events[..n], rows := db.rows[..n]);
      assert forall i :: 0 <= i < n ==> Describes(db.events[i], db.rows[i]);
      LogMatchesTable(shorter, workspace, kind);
      assert Describes(db.events[n], db.rows[n]);
      FilterAppend(EventOfKind(kind), LogFor(shorter, workspace),
                   if db.events[n].workspace == workspace then [db.events[n]] else []);
    }
  }

  lemma {:induction false} FoundKinds(snap: Snapshot, events: seq<Event>, kind: Kind)
    requires forall i :: 0 <= i < |events| ==> Find(snap.rows, events[i]).kind == events[i].kind
    ensures |Filter(OfKind(kind), FoundRows(snap, events))| == |Filter(EventOfKind(kind), events)|
  {
    if events != [] {
      var n := |events| - 1;
      FoundKinds(snap, events[..n], kind);
      assert FoundRows(snap, events)[..n] == FoundRows(snap, events[..n]);
    }
  }

  lemma KindOfTable(db: Db, workspace: string, kind: Kind, other: Kind)
    ensures Filter(OfKind(kind), Table(db, workspace, other))
         == if kind == other then Table(db, workspace, other) else []
  {
    TableMembers(db, workspace, other);
    if kind == other { FilterAll(OfKind(kind), Table(db, workspace, other)); }
    else { FilterNone(OfKind(kind), Table(db, workspace, other)); }
  }

  lemma FilterFive(p: Row -> bool, s: seq<Row>, e: seq<Row>, a: seq<Row>, m: seq<Row>, r: seq<Row>)
    ensures Filter(p, s + e + a + m + r) == Filter(p, s) + Filter(p, e) + Filter(p, a) + Filter(p, m) + Filter(p, r)
  {
    FilterAppend(p, s, e);
    FilterAppend(p, s + e, a);
    FilterAppend(p, s + e + a, m);
    FilterAppend(p, s + e + a + m, r);
  }

  lemma EmptyAppend(t: seq<Row>)
    ensures [] + t == t && t + [] == t
  {
  }

  lemma KindOfTablesRead(cut: Reads, workspace: string, kind: Kind)
    requires !kind.Unsupported?
    ensures Filter(OfKind(kind), TablesRead(cut, workspace)) == Table(cut.At(kind), workspace, kind)
  {
    var s, e, a, m, r := Table(cut.scopes, workspace, Scope), Table(cut.entities, workspace, Entity),
      Table(cut.artifacts, workspace, Artifact), Table(cut.memories, workspace, Memory),
      Table(cut.relationships, workspace, Relationship);
    FilterFive(OfKind(kind), s, e, a, m, r);
    EmptyAppend(s);
    EmptyAppend(e);
    EmptyAppend(a);
    EmptyAppend(m);
    EmptyAppend(r);
    EmptyAppend([]);
    KindOfTable(cut.scopes, workspace, kind, Scope);
    KindOfTable(cut.entities, workspace, kind, Entity);
    KindOfTable(cut.artifacts, workspace, kind, Artifact);
    KindOfTable(cut.memories, workspace, kind, Memory);
    KindOfTable(cut.relationships, workspace, kind, Relationship);
  }

  lemma {:induction false} FilterSameContent(p: Row -> bool, s: seq<Row>, t: seq<Row>)
    requires |s| == |t| && forall i :: 0 <= i < |s| ==> SameContent(s[i], t[i])
    requires forall a, b :: SameContent(a, b) ==> p(a) == p(b)
    ensures |Filter(p, s)| == |Filter(p, t)|
  {
    if s != [] {
      var n := |s| - 1;
      FilterSameContent(p, s[..n], t[..n]);
      assert SameContent(s[n], t[n]);
    }
  }

  lemma FilterNoneExactly<T(!new)>(p: T -> bool, s: seq<T>)
    ensures |Filter(p, s)| == 0 <==> forall i :: 0 <= i < |s| ==> !p(s[i])
  {
    FilterMembers(p, s);
    if i :| 0 <= i < |s| && p(s[i]) {
      assert s[i] in Filter(p, s);
    } else {
      FilterNone(p, s);
    }
  }

  lemma TableGrowth(d: Db, d': Db, workspace: string, kind: Kind)
    requires Grows(d, d')
    ensures |Table(d', workspace, kind)|
         == |Table(d, workspace, kind)| + |Filter(InTable(workspace, kind), d'.rows[|d.rows|..])|
  {
    var n, p := |d.rows|, InTable(workspace, kind);
    assert d'.rows == d'.rows[..n] + d'.rows[n..];
    FilterAppend(p, d'.rows[..n], d'.rows[n..]);
    FilterSameContent(p, d.rows, d'.rows[..n]);
  }

  /** A table gains no row exactly when its count stays. */
  lemma NothingWrittenExactlyByCount(d: Db, d': Db, workspace: string, kind: Kind)
    requires Grows(d, d')
    ensures NothingWritten(d, d', workspace, kind) <==> |Table(d, workspace, kind)| == |Table(d', workspace, kind)|
  {
    var n, p := |d.rows|, InTable(workspace, kind);
    var added := d'.rows[n..];
    TableGrowth(d, d', workspace, kind);
    FilterNoneExactly(p, added);
    if NothingWritten(d, d', workspace, kind) {
      forall i | 0 <= i < |added| ensures !p(added[i]) {
        assert added[i] == d'.rows[n + i];
      }
    }
    if forall i :: 0 <= i < |added| ==> !p(added[i]) {
      forall i | n <= i < |d'.rows| ensures !p(d'.rows[i]) {
        assert d'.rows[i] == added[i - n];
      }
    }
  }

  lemma OneToOneExactlyWhenQuiet(cut: Reads, workspace: string, events: seq<Event>)
    requires LogReadFirst(cut) && Listing(cut, workspace, events)
    ensures OneToOne(Export(cut, workspace, events)) <==> Quiet(cut, workspace)
  {
    var snap := Export(cut, workspace, events);
    ExportIsCovered(cut, workspace, events);
    ListingUnique(cut, workspace, events);
    OneToOneExactlyByCounts(snap, events);
    forall kind: Kind | !kind.Unsupported?
      ensures |Filter(OfKind(kind), FoundRows(snap, events))| == |Filter(OfKind(kind), snap.rows)|
              <==> NothingWritten(cut.log, cut.At(kind), workspace, kind)
    {
      forall i | 0 <= i < |events| ensures Find(snap.rows, events[i]).kind == events[i].kind {
        assert Describes(events[i], Find(snap.rows, events[i]));
      }
      FoundKinds(snap, events, kind);
      FilterPermutation(EventOfKind(kind), events, LogFor(cut.log, workspace));
      LogMatchesTable(cut.log, workspace, kind);
      KindOfTablesRead(cut, workspace, kind);
      NothingWrittenExactlyByCount(cut.log, cut.At(kind), workspace, kind);
    }
  }

  // --- The verdict ------------------------------------------------------------------------------

  lemma {:induction false} CleanLanding(events: seq<Event>, n: nat)
    requires Distinct(events) && n <= |events|
    ensures Land([], events, {}, n) == events[..n]
  {
    if n > 0 {
      CleanLanding(events, n - 1);
      assert events[n - 1] !in events[..n - 1];
      assert events[..n] == events[..n - 1] + [events[n - 1]];
    }
  }

  /**
   Torn exports are caught: the import of an export into an empty store succeeds exactly when no row
   of the workspace was written between the reads, and reports a count mismatch otherwise.
   */
  lemma TornExportIsCaught(cut: Reads, workspace: string, events: seq<Event>)
    requires LogReadFirst(cut) && Listing(cut, workspace, events)
    ensures var o := Import(EMPTY, Export(cut, workspace, events), {});
      && (o.status.Done? <==> Quiet(cut, workspace))
      && (o.status.Done? <==> OneToOne(Export(cut, workspace, events)))
      && (!o.status.Done? ==> o.status.CountMismatch?)
      && o.db.events == events
  {
    var snap := Export(cut, workspace, events);
    ExportIsCovered(cut, workspace, events);
    OneToOneExactlyWhenQuiet(cut, workspace, events);
    ListingUnique(cut, workspace, events);
    CleanLanding(events, |events|);
    assert events[..|events|] == events;
    assert Loaded(snap, []) == EMPTY;
    ImportVerdict(snap, [], {});
  }

  /** The same for the reads of one export at six points of one run, with writers active in between. */
  lemma TornExportOfRunIsCaught(actions: seq<Action>, cuts: seq<nat>, workspace: string,
                                                   events: seq<Event>)
    requires |cuts| == 6 && cuts[5] <= |actions| && forall i, j :: 0 <= i < j < 6 ==> cuts[i] <= cuts[j]
    requires multiset(events) == multiset(LogFor(After(actions[..cuts[0]]).db, workspace))
    ensures var cut := ReadsAt(actions, cuts); var o := Import(EMPTY, Export(cut, workspace, events), {});
      && (o.status.Done? <==> Quiet(cut, workspace))
      && (o.status.Done? <==> OneToOne(Export(cut, workspace, events)))
      && (!o.status.Done? ==> o.status.CountMismatch?)
  {
    var cut := ReadsAt(actions, cuts);
    forall k | 0 <= k < 6
      ensures Consistent(After(actions[..cuts[k]]).db)
      ensures Grows(After(actions[..cuts[0]]).db, After(actions[..cuts[k]]).db)
    {
      EveryRunKeepsInvariant(actions[..cuts[k]]);
      assert cuts[0] <= cuts[k];
      RunsOnlyGrow(actions[..cuts[k]], cuts[0]);
      assert actions[..cuts[k]][..cuts[0]] == actions[..cuts[0]];
    }
    forall kind ensures Consistent(cut.At(kind)) && Grows(cut.log, cut.At(kind)) {
      match kind
      case Scope => assert cut.At(kind) == After(actions[..cuts[1]]).db;
      case Entity => assert cut.At(kind) == After(actions[..cuts[2]]).db;
      case Artifact => assert cut.At(kind) == After(actions[..cuts[3]]).db;
      case Memory => assert cut.At(kind) == After(actions[..cuts[4]]).db;
      case Relationship => assert cut.At(kind) == After(actions[..cuts[5]]).db;
      case Unsupported(_) => assert cut.At(kind) == After(actions[..cuts[0]]).db;
    }
    TornExportIsCaught(cut, workspace, events);
  }

  function ReadsAt(actions: seq<Action>, cuts: seq<nat>): Reads
    requires |cuts| == 6 && forall k :: 0 <= k < 6 ==> cuts[k] <= |actions|
  {
    Reads(After(actions[..cuts[0]]).db, After(actions[..cuts[1]]).db, After(actions[..cuts[2]]).db,
          After(actions[..cuts[3]]).db, After(actions[..cuts[4]]).db, After(actions[..cuts[5]]).db)
  }

  // --- What an import leaves behind ------------------------------------------------------------

  /** The rows and the events of the workspace carry the same contents, entry by entry. */
  ghost predicate SamePayloads(rows: seq<Row>, events: seq<Event>, workspace: string) {
    Transform(Strip, Filter((r: Row) => r.workspace == workspace, rows))
    == Transform((e: Event) => Strip(PayloadOf(e)), Filter((e: Event) => e.workspace == workspace, events))
  }

  lemma WorkspacePayloads(rows: seq<Row>, events: seq<Event>, workspace: string)
    requires |rows| == |events| && forall i :: 0 <= i < |rows| ==> Describes(events[i], rows[i])
    ensures SamePayloads(rows, events, workspace)
  {
    assert rows[..0] == [] && events[..0] == [];
    for n := 0 to |rows|
      invariant SamePayloads(rows[..n], events[..n], workspace)
    {
      PayloadsSnoc(rows[..n], rows[n], events[..n], events[n], workspace);
      TakeNext(rows, n);
      TakeNext(events, n);
    }
    assert rows[..|rows|] == rows && events[..|rows|] == events;
  }

  lemma PayloadsSnoc(rows: seq<Row>, r: Row, events: seq<Event>, e: Event, workspace: string)
    requires Describes(e, r) && SamePayloads(rows, events, workspace)
    ensures SamePayloads(rows + [r], events + [e], workspace)
  {
    FilterSnoc((r: Row) => r.workspace == workspace, rows, r);
    FilterSnoc((e: Event) => e.workspace == workspace, events, e);
    TransformSnoc(Strip, Filter((r: Row) => r.workspace == workspace, rows), r);
    TransformSnoc((e: Event) => Strip(PayloadOf(e)), Filter((e: Event) => e.workspace == workspace, events), e);
  }

  lemma FoundContents(snap: Snapshot)
    requires Covered(snap)
    ensures Transform(Strip, FoundRows(snap, snap.events)) == Transform((e: Event) => Strip(PayloadOf(e)), snap.events)
  {
    var rows := FoundRows(snap, snap.events);
    forall i | 0 <= i < |rows| ensures Strip(rows[i]) == Strip(PayloadOf(snap.events[i])) {
      assert Describes(snap.events[i], Find(snap.rows, snap.events[i]));
    }
  }

  /**
   Even the import of a torn export, which fails, leaves a consistent copy behind: exactly the
   workspace as it was when the log was read, but for the embedding column.
   */
  lemma ImportCopiesTheLogsMoment(cut: Reads, workspace: string, events: seq<Event>)
    requires LogReadFirst(cut) && Listing(cut, workspace, events)
    ensures var db := Import(EMPTY, Export(cut, workspace, events), {}).db;
      && multiset(db.events) == multiset(LogFor(cut.log, workspace))
      && multiset(Transform(Strip, db.rows))
         == multiset(Transform(Strip, Filter((r: Row) => r.workspace == workspace, cut.log.rows)))
  {
    var snap := Export(cut, workspace, events);
    TornExportIsCaught(cut, workspace, events);
    ExportIsCovered(cut, workspace, events);
    ListingUnique(cut, workspace, events);
    assert Loaded(snap, []) == EMPTY;
    ImportVerdict(snap, [], {});
    FoundContents(snap);
    TransformPermutation((e: Event) => Strip(PayloadOf(e)), events, LogFor(cut.log, workspace));
    WorkspacePayloads(cut.log.rows, cut.log.events, workspace);
  }
}
