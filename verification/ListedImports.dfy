/**
 Clean imports of exports as the event listing orders them. The listing compares stored timestamps as
 text, so two versions of an object within one second can be listed, and land, in the wrong order.
 */
module ListedImports {
  import opened Sequences
  import opened EventStore
  import opened Ordering
  import opened Projections
  import opened Snapshots
  import opened TornExports
  import opened TimeText
  import opened ImportResume
  import opened LandingOrder

  /** The events with their times, as the listing sorts them. */
  function Stamped(events: seq<Event>, at: Event -> Instant): seq<Logged> {
    Transform((e: Event) => Logged(at(e), e.id), events)
  }

  ghost predicate Listed(events: seq<Event>, at: Event -> Instant) {
    (forall i :: 0 <= i < |events| ==> at(events[i]).Valid()) && Sorted(ListedBefore, Stamped(events, at))
  }

  /** A later version of an object carries a later time. */
  ghost predicate TimesAscend(events: seq<Event>, at: Event -> Instant) {
    forall i, j | 0 <= i < |events| && 0 <= j < |events| && SameObject(events[i], events[j])
      && events[i].version < events[j].version ::
      Earlier(at(events[i]), at(events[j]))
  }

  ghost predicate NewestOf(events: seq<Event>, j: nat)
    requires j < |events|
  {
    forall m :: 0 <= m < |events| && SameObject(events[m], events[j]) ==> events[m].version <= events[j].version
  }

  /** No event of an object has a text that sorts behind that of the object's newest event. */
  ghost predicate NewestUnreversed(events: seq<Event>, at: Event -> Instant) {
    forall i, j | 0 <= i < |events| && 0 <= j < |events| && i != j && SameObject(events[i], events[j])
      && NewestOf(events, j) ::
      !Reversed(at(events[i]), at(events[j]))
  }

  lemma OneCleanAttempt(n: nat, i: nat)
    requires i < n
    ensures LandsIn([Attempt({}, n)], i) == 0
  {
    assert Reaches([Attempt({}, n)][0], i);
  }

  lemma VersionsDiffer(snap: Snapshot, i: nat, j: nat)
    requires Covered(snap) && i < |snap.events| && j < |snap.events| && i != j
    requires SameObject(snap.events[i], snap.events[j])
    ensures snap.events[i].version != snap.events[j].version
  {
    CoveredDistinct(snap);
    var a, b := snap.events[i], snap.events[j];
    FoundClash(snap, a, b);
    assert Describes(a, Find(snap.rows, a)) && Describes(b, Find(snap.rows, b));
  }

  /** Of two events in time order, the listing puts the later one first exactly when the pair is reversed. */
  lemma ListedInOrderExactly(events: seq<Event>, at: Event -> Instant, i: nat, j: nat)
    requires Listed(events, at) && i < |events| && j < |events| && i != j && Earlier(at(events[i]), at(events[j]))
    ensures i < j <==> !Reversed(at(events[i]), at(events[j]))
  {
    var s := Stamped(events, at);
    TimeIsAsymmetric(at(events[i]), at(events[j]));
    if i < j {
      assert ListedBefore(s[i], s[j]);
      TextIsInjective(s[i].at, s[j].at);
      TextOrderIsTimeOrderExactly(s[i].at, s[j].at);
    } else {
      assert ListedBefore(s[j], s[i]);
      ListedPair(s[j], s[i]);
    }
  }

  lemma OrderAgrees(snap: Snapshot, at: Event -> Instant, i: nat, j: nat)
    requires Covered(snap) && Listed(snap.events, at) && TimesAscend(snap.events, at)
    requires i < |snap.events| && j < |snap.events| && i != j && SameObject(snap.events[i], snap.events[j])
    requires NewestOf(snap.events, j)
    ensures LandsBefore([Attempt({}, |snap.events|)], i, j) <==> !Reversed(at(snap.events[i]), at(snap.events[j]))
  {
    OneCleanAttempt(|snap.events|, i);
    OneCleanAttempt(|snap.events|, j);
    VersionsDiffer(snap, i, j);
    ListedInOrderExactly(snap.events, at, i, j);
  }

  lemma NewestIsNewestOf(snap: Snapshot, j: nat)
    requires j < |snap.events|
    ensures Newest(snap.events, [Attempt({}, |snap.events|)], j) <==> NewestOf(snap.events, j)
  {
    forall m | 0 <= m < |snap.events| ensures Lands([Attempt({}, |snap.events|)], m) {
      OneCleanAttempt(|snap.events|, m);
    }
  }

  /**
   A clean import of a listing has the right pointers exactly when no version of an object is reversed
   against its newest one.
   */
  lemma CleanImportPointersExact(snap: Snapshot, at: Event -> Instant)
    requires Covered(snap) && Listed(snap.events, at) && TimesAscend(snap.events, at)
    ensures var db := Import(EMPTY, snap, {}).db;
      NewestPointers(db.current, db.rows) <==> NewestUnreversed(snap.events, at)
  {
    ImportPointersExact(snap, [], {});
    assert [] + [Attempt({}, |snap.events|)] == [Attempt({}, |snap.events|)];
    NewestLandsLastExactly(snap, at);
  }

  lemma LandsLast(snap: Snapshot, i: nat, j: nat)
    requires i < |snap.events| && j < |snap.events| && i != j && SameObject(snap.events[i], snap.events[j])
    requires NewestOf(snap.events, j)
    requires NewestLandsLast(snap.events, [Attempt({}, |snap.events|)])
    ensures LandsBefore([Attempt({}, |snap.events|)], i, j)
  {
    OneCleanAttempt(|snap.events|, i);
    OneCleanAttempt(|snap.events|, j);
    NewestIsNewestOf(snap, j);
  }

  lemma NewestLandsLastExactly(snap: Snapshot, at: Event -> Instant)
    requires Covered(snap) && Listed(snap.events, at) && TimesAscend(snap.events, at)
    ensures NewestLandsLast(snap.events, [Attempt({}, |snap.events|)]) <==> NewestUnreversed(snap.events, at)
  {
    var events, tries := snap.events, [Attempt({}, |snap.events|)];
    if NewestLandsLast(events, tries) {
      forall i, j | 0 <= i < |events| && 0 <= j < |events| && i != j && SameObject(events[i], events[j])
        && NewestOf(events, j)
        ensures !Reversed(at(events[i]), at(events[j]))
      {
        LandsLast(snap, i, j);
        OrderAgrees(snap, at, i, j);
      }
    }
    if NewestUnreversed(events, at) {
      forall i, j | 0 <= i < |events| && 0 <= j < |events| && i != j && Lands(tries, i) && Lands(tries, j)
                    && SameObject(events[i], events[j]) && Newest(events, tries, j)
        ensures LandsBefore(tries, i, j)
      {
        NewestIsNewestOf(snap, j);
        OrderAgrees(snap, at, i, j);
      }
    }
  }

  /**
   Promotion of a workspace: an undisturbed export, listed by stored text, imports successfully, and the
   pointers come out right exactly when no version is reversed against its object's newest one.
   */
  lemma QuietPromotionPointersExact(cut: Reads, workspace: string, events: seq<Event>, at: Event -> Instant)
    requires LogReadFirst(cut) && Listing(cut, workspace, events) && Quiet(cut, workspace)
    requires Listed(events, at) && TimesAscend(events, at)
    ensures var o := Import(EMPTY, Export(cut, workspace, events), {});
      o.status.Done? && (NewestPointers(o.db.current, o.db.rows) <==> NewestUnreversed(events, at))
  {
    ExportIsCovered(cut, workspace, events);
    TornExportIsCaught(cut, workspace, events);
    CleanImportPointersExact(Export(cut, workspace, events), at);
  }

  lemma SuccessExactlyWhenOneToOne(snap: Snapshot)
    requires Covered(snap)
    ensures Import(EMPTY, snap, {}).status.Done? <==> OneToOne(snap)
  {
    EmptyIsLoaded(snap);
    CoveredDistinct(snap);
    ImportVerdict(snap, [], {});
    ResumedLanding(snap.events, 0, |snap.events|);
    assert snap.events[..0] == [] && snap.events[..|snap.events|] == snap.events;
  }

  /**
   An older version on the full second, the newest one later in that second: a successful import leaves
   a stale pointer.
   */
  lemma VersionsWithinOneSecondLeaveAStalePointer(snap: Snapshot, at: Event -> Instant, i: nat, j: nat)
    requires Covered(snap) && Listed(snap.events, at) && TimesAscend(snap.events, at)
    requires i < |snap.events| && j < |snap.events| && i != j && SameObject(snap.events[i], snap.events[j])
    requires NewestOf(snap.events, j)
    requires SameSecond(at(snap.events[i]), at(snap.events[j]))
    requires at(snap.events[i]).nanos == 0 < at(snap.events[j]).nanos
    ensures var o := Import(EMPTY, snap, {});
      (o.status.Done? <==> OneToOne(snap)) && !NewestPointers(o.db.current, o.db.rows)
  {
    SuccessExactlyWhenOneToOne(snap);
    CleanImportPointersExact(snap, at);
    WholeSecondIsReversedWithEveryFraction(at(snap.events[i]), at(snap.events[j]));
  }
}
