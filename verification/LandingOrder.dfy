/**
 When each event of a snapshot lands, read off the attempts alone, and what that order means for the
 current pointers.
 */
module LandingOrder {
  import opened Sequences
  import opened EventStore
  import opened Projections
  import opened Snapshots
  import opened ImportResume

  /** The attempt gets to event i, and the lookup does not fail there. */
  predicate Reaches(a: Attempt, i: nat) {
    i < a.stop && i !in a.faults
  }

  /** The first attempt that reaches event i; the number of attempts when none does. */
  function LandsIn(tries: seq<Attempt>, i: nat): (k: nat)
    ensures k <= |tries|
    ensures k < |tries| ==> Reaches(tries[k], i)
    ensures forall j :: 0 <= j < k ==> !Reaches(tries[j], i)
  {
    if tries == [] || Reaches(tries[0], i) then 0 else 1 + LandsIn(tries[1..], i)
  }

  predicate Lands(tries: seq<Attempt>, i: nat) {
    LandsIn(tries, i) < |tries|
  }

  predicate LandsBefore(tries: seq<Attempt>, i: nat, j: nat) {
    LandsIn(tries, i) < LandsIn(tries, j) || (LandsIn(tries, i) == LandsIn(tries, j) && i < j)
  }

  /** Two events of one object that has versions. */
  predicate SameObject(e: Event, f: Event) {
    !e.kind.Scope? && e.kind == f.kind && e.workspace == f.workspace && e.aggregateId == f.aggregateId
  }

  /** No event that lands for the object is newer than event j. */
  ghost predicate Newest(events: seq<Event>, tries: seq<Attempt>, j: nat)
    requires j < |events|
  {
    forall m :: 0 <= m < |events| && Lands(tries, m) && SameObject(events[m], events[j]) ==>
      events[m].version <= events[j].version
  }

  /** No event of a versioned object lands after that object's newest event. */
  ghost predicate NewestLandsLast(events: seq<Event>, tries: seq<Attempt>) {
    forall i, j | 0 <= i < |events| && 0 <= j < |events| && i != j && Lands(tries, i) && Lands(tries, j)
                  && SameObject(events[i], events[j]) && Newest(events, tries, j) ::
      LandsBefore(tries, i, j)
  }

  // --- The order of landing --------------------------------------------------------------------

  predicate Within(places: seq<nat>, n: nat) {
    forall x :: 0 <= x < |places| ==> places[x] < n
  }

  function Pick(events: seq<Event>, places: seq<nat>): (r: seq<Event>)
    requires Within(places, |events|)
    ensures |r| == |places| && forall x :: 0 <= x < |places| ==> r[x] == events[places[x]]
  {
    seq(|places|, x requires 0 <= x < |places| => events[places[x]])
  }

  /** The places of the events that land, in landing order. */
  ghost predicate InLandingOrder(tries: seq<Attempt>, n: nat, places: seq<nat>) {
    && (forall x :: 0 <= x < |places| ==> places[x] < n && Lands(tries, places[x]))
    && (forall i :: 0 <= i < n && Lands(tries, i) ==> i in places)
    && (forall x, y :: 0 <= x < y < |places| ==> LandsBefore(tries, places[x], places[y]))
  }

  /** What one more attempt adds: what it reaches and was not there, in order. */
  function Added(places: seq<nat>, a: Attempt, n: nat): (r: seq<nat>)
    ensures forall x :: 0 <= x < |r| ==> r[x] < n && r[x] !in a.faults && r[x] !in places
    ensures forall i :: 0 <= i < n && i !in a.faults && i !in places ==> i in r
    ensures forall x, y :: 0 <= x < y < |r| ==> r[x] < r[y]
  {
    if n == 0 then []
    else
      var before := Added(places, a, n - 1);
      if n - 1 in a.faults || n - 1 in places then before else before + [n - 1]
  }

  /** After its first n events the attempt has added exactly those of `Added`. */
  ghost predicate AddedSoFar(events: seq<Event>, places: seq<nat>, a: Attempt, n: nat, after: seq<nat>)
    requires Within(places, |events|) && n <= |events|
  {
    Within(after, |events|) && after == places + Added(places, a, n)
    && Land(Pick(events, places), events, a.faults, n) == Pick(events, after)
  }

  lemma LandAdds(events: seq<Event>, places: seq<nat>, a: Attempt, n: nat)
    requires Distinct(events) && n <= |events| && Within(places, |events|)
    ensures AddedSoFar(events, places, a, n, places + Added(places, a, n))
  {
    ghost var after := places;
    for m := 0 to n
      invariant AddedSoFar(events, places, a, m, after)
    {
      after := AddedSoFarNext(events, places, a, m, after);
    }
  }

  lemma AddedSoFarNext(events: seq<Event>, places: seq<nat>, a: Attempt, n: nat, before: seq<nat>)
    returns (after: seq<nat>)
    requires Distinct(events) && n < |events| && Within(places, |events|) && AddedSoFar(events, places, a, n, before)
    ensures AddedSoFar(events, places, a, n + 1, after)
  {
    AddedNext(places, a, n + 1);
    LandPicked(events, before, n, n in a.faults);
    after := if n in a.faults || n in before then before else before + [n];
  }

  lemma LandPicked(events: seq<Event>, places: seq<nat>, i: nat, lookupFailed: bool)
    requires Distinct(events) && i < |events| && Within(places, |events|)
    ensures var after := if lookupFailed || i in places then places else places + [i];
      Within(after, |events|) && LandEvent(Pick(events, places), events[i], lookupFailed) == Pick(events, after)
  {
    PickedAt(events, places, i);
    PickSnoc(events, places, i);
  }

  lemma PickSnoc(events: seq<Event>, places: seq<nat>, i: nat)
    requires i < |events| && Within(places, |events|)
    ensures Within(places + [i], |events|) && Pick(events, places + [i]) == Pick(events, places) + [events[i]]
  {
  }

  lemma AddedNext(places: seq<nat>, a: Attempt, n: nat)
    requires n > 0
    ensures n - 1 in places + Added(places, a, n - 1) <==> n - 1 in places
    ensures places + Added(places, a, n) ==
      if n - 1 in a.faults || n - 1 in places then places + Added(places, a, n - 1)
        else places + Added(places, a, n - 1) + [n - 1]
  {
  }

  lemma PickedAt(events: seq<Event>, places: seq<nat>, i: nat)
    requires Distinct(events) && i < |events| && Within(places, |events|)
    ensures events[i] in Pick(events, places) <==> i in places
  {
    if i in places {
      var x :| 0 <= x < |places| && places[x] == i;
      assert Pick(events, places)[x] == events[i];
    }
    if events[i] in Pick(events, places) {
      var x :| 0 <= x < |places| && Pick(events, places)[x] == events[i];
      assert places[x] == i;
    }
  }

  lemma {:induction false} LandsInSnoc(tries: seq<Attempt>, a: Attempt, i: nat)
    ensures LandsIn(tries + [a], i) ==
      if Lands(tries, i) then LandsIn(tries, i) else if Reaches(a, i) then |tries| else |tries| + 1
  {
    if tries != [] && !Reaches(tries[0], i) {
      assert (tries + [a])[1..] == tries[1..] + [a];
      LandsInSnoc(tries[1..], a, i);
    }
  }

  lemma OrderSnoc(tries: seq<Attempt>, a: Attempt, n: nat, places: seq<nat>)
    requires InLandingOrder(tries, n, places) && a.stop <= n
    ensures InLandingOrder(tries + [a], n, places + Added(places, a, a.stop))
  {
    var all := tries + [a];
    var added := Added(places, a, a.stop);
    var after := places + added;
    forall i
      ensures LandsIn(all, i) ==
        if Lands(tries, i) then LandsIn(tries, i) else if Reaches(a, i) then |tries| else |tries| + 1
    {
      LandsInSnoc(tries, a, i);
    }
    forall x | 0 <= x < |added| ensures Reaches(a, added[x]) && !Lands(tries, added[x]) {
      assert added[x] in added;
    }
    forall i | 0 <= i < n && Lands(all, i) ensures i in after {
      assert i in places || i in added;
    }
    forall x, y | 0 <= x < y < |after| ensures LandsBefore(all, after[x], after[y]) {
      if y < |places| {
        assert LandsBefore(tries, places[x], places[y]);
      } else if x < |places| {
        assert LandsIn(all, after[x]) < |tries| && LandsIn(all, after[y]) == |tries|;
      } else {
        assert after[x] == added[x - |places|] && after[y] == added[y - |places|];
      }
    }
  }

  lemma {:induction false} AttemptsLandInOrder(snap: Snapshot, tries: seq<Attempt>) returns (places: seq<nat>)
    requires Covered(snap) && Fits(snap, tries)
    ensures InLandingOrder(tries, |snap.events|, places)
    ensures Landing(snap, Pick(snap.events, places))
    ensures Attempts(EMPTY, snap, tries) == Loaded(snap, Pick(snap.events, places))
  {
    if tries == [] {
      EmptyIsLoaded(snap);
      places := [];
      assert Pick(snap.events, places) == [];
    } else {
      var n := |tries| - 1;
      assert tries == tries[..n] + [tries[n]];
      var before := AttemptsLandInOrder(snap, tries[..n]);
      CoveredDistinct(snap);
      LandAdds(snap.events, before, tries[n], tries[n].stop);
      ImportLands(snap, Pick(snap.events, before), tries[n].faults, tries[n].stop);
      OrderSnoc(tries[..n], tries[n], |snap.events|, before);
      places := before + Added(before, tries[n], tries[n].stop);
    }
  }

  // --- Pointers --------------------------------------------------------------------------------

  /** The rows that landed, described by the events at these places. */
  ghost predicate RowsAt(events: seq<Event>, places: seq<nat>, rows: seq<Row>) {
    |rows| == |places| && forall x :: 0 <= x < |rows| ==> places[x] < |events| && Describes(events[places[x]], rows[x])
  }

  lemma PlaceOf(places: seq<nat>, i: nat) returns (x: nat)
    requires i in places
    ensures x < |places| && places[x] == i
  {
    x :| 0 <= x < |places| && places[x] == i;
  }

  lemma BeforeIsEarlierPlace(tries: seq<Attempt>, n: nat, places: seq<nat>, x: nat, y: nat)
    requires InLandingOrder(tries, n, places) && x < |places| && y < |places|
    ensures LandsBefore(tries, places[x], places[y]) <==> x < y
  {
    if x < y { assert LandsBefore(tries, places[x], places[y]); }
    if y < x { assert LandsBefore(tries, places[y], places[x]); }
  }

  lemma SameVersionSameRow(rows: seq<Row>, y: nat, z: nat)
    requires UniqueRows(rows) && y < |rows| && z < |rows| && !rows[y].kind.Scope?
    requires ObjectOf(rows[y]) == ObjectOf(rows[z]) && rows[y].version == rows[z].version
    ensures y == z
  {
  }

  /** Where the newest row of each object is the last one, the newest event has the object's last row. */
  lemma NewestHasLastRow(events: seq<Event>, tries: seq<Attempt>, places: seq<nat>, rows: seq<Row>, j: nat)
    returns (y: nat)
    requires InLandingOrder(tries, |events|, places) && RowsAt(events, places, rows) && UniqueRows(rows)
    requires LastIsNewest(rows)
    requires j < |events| && Lands(tries, j) && !events[j].kind.Scope? && Newest(events, tries, j)
    ensures y < |rows| && places[y] == j && LastOfObject(rows, y)
  {
    y := PlaceOf(places, j);
    PointerHasLast(rows, ObjectOf(rows[y]));
    var z :| 0 <= z < |rows| && ObjectOf(rows[z]) == ObjectOf(rows[y]) && LastOfObject(rows, z);
    assert rows[y].version <= rows[z].version;
    assert events[places[z]].version <= events[j].version;
    SameVersionSameRow(rows, y, z);
  }

  lemma LastIsNewestGivesOrder(events: seq<Event>, tries: seq<Attempt>, places: seq<nat>, rows: seq<Row>, i: nat,
                               j: nat)
    requires InLandingOrder(tries, |events|, places) && RowsAt(events, places, rows) && UniqueRows(rows)
    requires LastIsNewest(rows)
    requires i < |events| && j < |events| && i != j && Lands(tries, i) && Lands(tries, j)
    requires SameObject(events[i], events[j]) && Newest(events, tries, j)
    ensures LandsBefore(tries, i, j)
  {
    var x := PlaceOf(places, i);
    var y := NewestHasLastRow(events, tries, places, rows, j);
    assert ObjectOf(rows[x]) == ObjectOf(rows[y]);
    BeforeIsEarlierPlace(tries, |events|, places, x, y);
  }

  lemma OrderGivesLastIsNewest(events: seq<Event>, tries: seq<Attempt>, places: seq<nat>, rows: seq<Row>, m: nat,
                               z: nat)
    requires InLandingOrder(tries, |events|, places) && RowsAt(events, places, rows) && NewestLandsLast(events, tries)
    requires m < |rows| && z < |rows| && !rows[z].kind.Scope? && LastOfObject(rows, z)
    requires ObjectOf(rows[m]) == ObjectOf(rows[z])
    ensures rows[m].version <= rows[z].version
  {
    var k := ObjectOf(rows[z]);
    MaxVersionsAreGreatest(rows, k.workspace);
    var max := MaxVersions(rows, k.workspace);
    assert HasRow(rows, k, max[k]);
    var y :| 0 <= y < |rows| && ObjectOf(rows[y]) == k && rows[y].version == max[k];
    assert rows[m].version <= rows[y].version;
    if z != y {
      NewestAt(events, tries, places, rows, y);
      BeforeIsEarlierPlace(tries, |events|, places, z, y);
      BeforeIsEarlierPlace(tries, |events|, places, y, z);
      assert SameObject(events[places[z]], events[places[y]]);
    }
  }

  lemma NewestAt(events: seq<Event>, tries: seq<Attempt>, places: seq<nat>, rows: seq<Row>, y: nat)
    requires InLandingOrder(tries, |events|, places) && RowsAt(events, places, rows) && y < |rows|
    requires forall x :: 0 <= x < |rows| && ObjectOf(rows[x]) == ObjectOf(rows[y]) ==>
      rows[x].version <= rows[y].version
    ensures Newest(events, tries, places[y])
  {
    forall m | 0 <= m < |events| && Lands(tries, m) && SameObject(events[m], events[places[y]])
      ensures events[m].version <= events[places[y]].version
    {
      var x := PlaceOf(places, m);
      assert ObjectOf(rows[x]) == ObjectOf(rows[y]);
    }
  }

  lemma LastIsNewestExactly(events: seq<Event>, tries: seq<Attempt>, places: seq<nat>, rows: seq<Row>)
    requires InLandingOrder(tries, |events|, places) && RowsAt(events, places, rows) && UniqueRows(rows)
    ensures LastIsNewest(rows) <==> NewestLandsLast(events, tries)
  {
    if LastIsNewest(rows) {
      forall i, j | 0 <= i < |events| && 0 <= j < |events| && i != j && Lands(tries, i) && Lands(tries, j)
                    && SameObject(events[i], events[j]) && Newest(events, tries, j)
        ensures LandsBefore(tries, i, j)
      {
        LastIsNewestGivesOrder(events, tries, places, rows, i, j);
      }
    }
    if NewestLandsLast(events, tries) {
      forall m, z | 0 <= m < |rows| && 0 <= z < |rows| && !rows[z].kind.Scope? && LastOfObject(rows, z)
                    && ObjectOf(rows[m]) == ObjectOf(rows[z])
        ensures rows[m].version <= rows[z].version
      {
        OrderGivesLastIsNewest(events, tries, places, rows, m, z);
      }
    }
  }

  lemma LoadedRowsAt(snap: Snapshot, places: seq<nat>)
    requires Covered(snap) && Within(places, |snap.events|) && Landing(snap, Pick(snap.events, places))
    ensures var rows := FoundRows(snap, Pick(snap.events, places));
      RowsAt(snap.events, places, rows) && UniqueRows(rows)
  {
    var landed := Pick(snap.events, places);
    var rows := FoundRows(snap, landed);
    forall x | 0 <= x < |rows| ensures Describes(snap.events[places[x]], rows[x]) {
      LandedEntry(snap, landed, x);
    }
    forall x, y | 0 <= x < y < |rows| ensures !Clash(rows[x], rows[y]) {
      FoundClash(snap, landed[x], landed[y]);
    }
  }

  /**
   The pointers after a series of attempts are the newest ones exactly when every object's newest event
   landed last.
   */
  lemma AttemptPointersExact(snap: Snapshot, tries: seq<Attempt>)
    requires Covered(snap) && Fits(snap, tries)
    ensures var db := Attempts(EMPTY, snap, tries);
      NewestPointers(db.current, db.rows) <==> NewestLandsLast(snap.events, tries)
  {
    var places := AttemptsLandInOrder(snap, tries);
    LoadedRowsAt(snap, places);
    var rows := FoundRows(snap, Pick(snap.events, places));
    LastIsNewestExactly(snap.events, tries, places, rows);
    InsertionPointersRightExactlyWhenLastIsNewest(rows);
  }

  lemma ImportStore(db: Db, snap: Snapshot, faults: set<nat>)
    requires Covered(snap)
    ensures Import(db, snap, faults).db == ImportEvents(db, snap, faults, |snap.events|).db
  {
  }

  /** The import proper is one more attempt, which runs to the end. */
  lemma ImportIsAnAttempt(snap: Snapshot, tries: seq<Attempt>, faults: set<nat>)
    requires Covered(snap) && Fits(snap, tries)
    ensures Fits(snap, tries + [Attempt(faults, |snap.events|)])
    ensures Import(Attempts(EMPTY, snap, tries), snap, faults).db
      == Attempts(EMPTY, snap, tries + [Attempt(faults, |snap.events|)])
  {
    var landed := AttemptsLand(snap, tries);
    ImportLands(snap, landed, faults, |snap.events|);
    ImportStore(Attempts(EMPTY, snap, tries), snap, faults);
    assert (tries + [Attempt(faults, |snap.events|)])[..|tries|] == tries;
  }

  /**
   Whatever attempts came before and whatever lookups failed, an import leaves the right pointers
   exactly when no event of a versioned object lands after that object's newest event.
   */
  lemma ImportPointersExact(snap: Snapshot, tries: seq<Attempt>, faults: set<nat>)
    requires Covered(snap) && Fits(snap, tries)
    ensures var db := Import(Attempts(EMPTY, snap, tries), snap, faults).db;
      NewestPointers(db.current, db.rows) <==> NewestLandsLast(snap.events, tries + [Attempt(faults, |snap.events|)])
  {
    ImportIsAnAttempt(snap, tries, faults);
    AttemptPointersExact(snap, tries + [Attempt(faults, |snap.events|)]);
  }
}
