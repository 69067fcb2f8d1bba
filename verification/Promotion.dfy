/** The two ways in which a workspace gets into an empty store: importing its export and replaying its log. */
module Promotion {
  import opened Sequences
  import opened EventStore
  import opened Projections
  import opened Snapshots
  import opened TornExports
  import opened ImportResume
  import opened Replay
  import opened WorkspaceReplay

  lemma MovesAlike(current: map<ObjectKey, int>, r: Row, r': Row)
    requires Strip(r) == Strip(r')
    ensures MovePointer(current, r) == MovePointer(current, r')
  {
    assert r'.(embedding := r.embedding) == r;
  }

  /** Pointers do not depend on the embedding column. */
  lemma {:induction false} PointersAlike(rows: seq<Row>, rows': seq<Row>)
    requires Transform(Strip, rows) == Transform(Strip, rows')
    ensures Pointers(rows) == Pointers(rows')
  {
    assert |rows| == |Transform(Strip, rows)| == |rows'|;
    if rows != [] {
      var n := |rows| - 1;
      assert Transform(Strip, rows)[n] == Transform(Strip, rows')[n];
      assert Transform(Strip, rows[..n]) == Transform(Strip, rows)[..n] == Transform(Strip, rows'[..n]);
      PointersAlike(rows[..n], rows'[..n]);
      MovesAlike(Pointers(rows[..n]), rows[n], rows'[n]);
    }
  }

  lemma ReplayOfListing(cut: Reads, workspace: string, events: seq<Event>)
    requires LogReadFirst(cut) && Listing(cut, workspace, events)
    ensures ReplayEvents(events, EMPTY) == Outcome(Replayed(events), Done)
  {
    var part := Restrict(cut.log, workspace);
    RestrictIsConsistent(cut.log, workspace);
    assert part.events == LogFor(cut.log, workspace);
    ReplaySucceeds(part, events, |events|);
    assert events[..|events|] == events;
  }

  /**
   Importing an export and replaying the listing it was made from reach the same events in the same order, the
   same row contents and the same pointers, right or wrong; the import succeeds if the export was undisturbed.
   */
  lemma ImportIsReplay(cut: Reads, workspace: string, events: seq<Event>)
    requires LogReadFirst(cut) && Listing(cut, workspace, events)
    ensures var i := Import(EMPTY, Export(cut, workspace, events), {}); var r := ReplayEvents(events, EMPTY);
      && r.status.Done? && (i.status.Done? <==> Quiet(cut, workspace))
      && i.db.events == r.db.events == events
      && Transform(Strip, i.db.rows) == Transform(Strip, r.db.rows)
      && i.db.current == r.db.current
  {
    var snap := Export(cut, workspace, events);
    ExportIsCovered(cut, workspace, events);
    TornExportIsCaught(cut, workspace, events);
    ResumeReachesTheUninterruptedImport(snap, []);
    ReplayOfListing(cut, workspace, events);
    FoundContents(snap);
    SameContents(snap, events);
    PointersAlike(FoundRows(snap, events), Transform(PayloadOf, events));
  }

  lemma SameContents(snap: Snapshot, events: seq<Event>)
    requires Transform(Strip, FoundRows(snap, events)) == Transform((e: Event) => Strip(PayloadOf(e)), events)
    ensures Transform(Strip, FoundRows(snap, events)) == Transform(Strip, Transform(PayloadOf, events))
  {
  }
}
