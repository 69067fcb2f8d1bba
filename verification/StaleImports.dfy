/**
 Concrete stores whose promotion reports success and leaves a stale pointer. In both, one memory has been
 created and versioned, and the export is undisturbed.
 */
module StaleImports {
  import opened EventStore
  import opened Sequences
  import opened Ordering
  import opened Projections
  import opened Snapshots
  import opened TornExports
  import opened TimeText
  import opened ImportResume
  import opened LandingOrder
  import opened ListedImports
  import opened Writers
  import IndexRaces

  const NO_TEXT := MemoryText("", "", "", "", "")

  /** A writer creates the memory, another one versions it. */
  function TwoVersions(w: string, id: string): Db {
    IndexRaces.Race(IndexRaces.Overlap(w, id, NO_TEXT)).system.db
  }

  function VersionRow(w: string, id: string, version: int): Row {
    Row(Memory, w, id, version, "", NO_TEXT, "", "")
  }

  function Created(w: string, id: string): Event {
    Event("x", w, Memory, id, 1, "a", Some(VersionRow(w, id, 1)))
  }

  function Versioned(w: string, id: string): Event {
    Event("y", w, Memory, id, 2, "b", Some(VersionRow(w, id, 2)))
  }

  lemma TwoVersionsOutcome(w: string, id: string)
    ensures var db := TwoVersions(w, id);
      && Consistent(db)
      && db.events == [Created(w, id), Versioned(w, id)] && db.rows == [VersionRow(w, id, 1), VersionRow(w, id, 2)]
  {
    IndexRaces.OverlapOutcome(w, id, NO_TEXT);
    IndexRaces.RaceIsConsistent(IndexRaces.Overlap(w, id, NO_TEXT));
  }

  /** All six reads of the export see this one state. */
  function AtOnce(db: Db): Reads {
    Reads(db, db, db, db, db, db)
  }

  lemma AtOnceIsQuiet(w: string, id: string)
    ensures var cut := AtOnce(TwoVersions(w, id));
      LogReadFirst(cut) && Quiet(cut, w) && LogFor(cut.log, w) == [Created(w, id), Versioned(w, id)]
  {
    var db := TwoVersions(w, id);
    TwoVersionsOutcome(w, id);
    forall kind ensures AtOnce(db).At(kind) == db {}
    FilterAll((e: Event) => e.workspace == w, db.events);
  }

  // --- Two versions within one second -----------------------------------------------------------------

  const ON_THE_SECOND := Instant(2024, 1, 1, 0, 0, 0, 0)

  /** The first version was written on the full second, the second one a nanosecond later. */
  function Written(e: Event): Instant {
    if e.version == 1 then ON_THE_SECOND else ON_THE_SECOND.(nanos := 1)
  }

  lemma NanosecondSortsFirst()
    ensures var a, b := ON_THE_SECOND, ON_THE_SECOND.(nanos := 1);
      a.Valid() && b.Valid() && Earlier(a, b) && Reversed(a, b) && TextLess(Text(b), Text(a))
  {
    var a, b := ON_THE_SECOND, ON_THE_SECOND.(nanos := 1);
    assert FieldsOf(a) == FieldsOf(b);
    WholeSecondIsReversedWithEveryFraction(a, b);
    TextOrderIsTimeOrderExactly(a, b);
  }

  lemma StampedPair(w: string, id: string)
    ensures var events := [Versioned(w, id), Created(w, id)];
      Stamped(events, Written) == [Logged(ON_THE_SECOND.(nanos := 1), "y"), Logged(ON_THE_SECOND, "x")]
  {
    var events := [Versioned(w, id), Created(w, id)];
    assert Stamped(events, Written)[0] == Logged(Written(events[0]), events[0].id);
    assert Stamped(events, Written)[1] == Logged(Written(events[1]), events[1].id);
  }

  lemma SecondVersionIsListedFirst(w: string, id: string)
    ensures Listed([Versioned(w, id), Created(w, id)], Written)
  {
    var events := [Versioned(w, id), Created(w, id)];
    NanosecondSortsFirst();
    StampedPair(w, id);
    TwoAreSorted(Stamped(events, Written));
  }

  lemma TwoAreSorted(s: seq<Logged>)
    requires |s| == 2 && ListedBefore(s[0], s[1])
    ensures Sorted(ListedBefore, s)
  {
  }

  lemma SecondVersionIsReversed(w: string, id: string)
    ensures var events := [Versioned(w, id), Created(w, id)];
      !NewestUnreversed(events, Written)
  {
    var events := [Versioned(w, id), Created(w, id)];
    NanosecondSortsFirst();
    assert SameObject(events[1], events[0]) && NewestOf(events, 0);
    assert Reversed(Written(events[1]), Written(events[0]));
  }

  lemma TheirTimesAscend(w: string, id: string)
    ensures TimesAscend([Versioned(w, id), Created(w, id)], Written)
  {
    NanosecondSortsFirst();
  }

  lemma SecondFirstIsAListing(w: string, id: string)
    ensures var events := [Versioned(w, id), Created(w, id)]; var cut := AtOnce(TwoVersions(w, id));
      LogReadFirst(cut) && Quiet(cut, w) && Listing(cut, w, events)
  {
    AtOnceIsQuiet(w, id);
  }

  /** The listing puts the second version first; its import succeeds and leaves the pointer at the first one. */
  lemma WithinOneSecondStale(w: string, id: string)
    ensures var events := [Versioned(w, id), Created(w, id)]; var cut := AtOnce(TwoVersions(w, id));
      var o := Import(EMPTY, Export(cut, w, events), {});
      && LogReadFirst(cut) && Quiet(cut, w) && Listing(cut, w, events) && Listed(events, Written)
      && o.status.Done? && !NewestPointers(o.db.current, o.db.rows)
  {
    SecondFirstIsAListing(w, id);
    SecondVersionIsListedFirst(w, id);
    SecondVersionIsReversed(w, id);
    TheirTimesAscend(w, id);
    QuietPromotionPointersExact(AtOnce(TwoVersions(w, id)), w, [Versioned(w, id), Created(w, id)], Written);
  }

  // --- A failed lookup --------------------------------------------------------------------------------

  /**
   The lookup of the first version fails in the first attempt; the rerun succeeds and leaves the pointer at the
   first version, although the second one is there.
   */
  lemma FailedLookupStale(w: string, id: string)
    ensures var snap := Export(AtOnce(TwoVersions(w, id)), w, [Created(w, id), Versioned(w, id)]);
      var tries := [Attempt({0}, 2)]; var k := ObjectKey(Memory, w, id);
      && Fits(snap, tries)
      && var o := Import(Attempts(EMPTY, snap, tries), snap, {});
      && o.status.Done? && k in o.db.current && o.db.current[k] == 1 && HasRow(o.db.rows, k, 2)
  {
    var cut, events := AtOnce(TwoVersions(w, id)), [Created(w, id), Versioned(w, id)];
    var snap := Export(cut, w, events);
    AtOnceIsQuiet(w, id);
    ExportIsCovered(cut, w, events);
    OneToOneExactlyWhenQuiet(cut, w, events);
    FailedLookupMovesThePointerBack(snap, 0);
    SecondRowIsThere(w, id);
    RowSurvives(Import(Attempts(EMPTY, snap, [Attempt({0}, 2)]), snap, {}).db.rows, snap.rows, VersionRow(w, id, 2));
  }

  lemma SecondRowIsThere(w: string, id: string)
    ensures VersionRow(w, id, 2) in Export(AtOnce(TwoVersions(w, id)), w, [Created(w, id), Versioned(w, id)]).rows
  {
    TwoVersionsOutcome(w, id);
    var db := TwoVersions(w, id);
    assert VersionRow(w, id, 2) == db.rows[1];
    RowRead(AtOnce(db), w, VersionRow(w, id, 2));
  }

  lemma RowSurvives(rows: seq<Row>, others: seq<Row>, r: Row)
    requires multiset(rows) == multiset(others) && r in others
    ensures HasRow(rows, ObjectOf(r), r.version)
  {
    assert r in multiset(rows);
    var i :| 0 <= i < |rows| && rows[i] == r;
  }
}
