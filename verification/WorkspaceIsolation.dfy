/**
 Workspaces share the tables and nothing else: what happens in one of them is what would have happened if it had the
 store to itself, as long as event ids and scope ids, which are unique across workspaces, do not collide.
 */
module WorkspaceIsolation {
  import opened Sequences
  import opened EventStore
  import opened Writers
  import opened Snapshots
  import opened WorkspaceReplay

  // --- One commit ------------------------------------------------------------------------------

  /** The ids that are unique across workspaces do not collide with another workspace's. */
  ghost predicate IdsApart(db: Db, e: Event, r: Row) {
    && (forall x :: x in db.events && x.workspace != e.workspace ==> x.id != e.id)
    && (r.kind.Scope? ==> forall x :: x in db.rows && x.kind.Scope? && x.workspace != r.workspace ==> x.id != r.id)
  }

  lemma FitsAlone(db: Db, e: Event, r: Row)
    requires r.workspace == e.workspace && IdsApart(db, e, r)
    ensures EventFits(db, e) <==> EventFits(Restrict(db, e.workspace), e)
    ensures RowFits(db, r) <==> RowFits(Restrict(db, e.workspace), r)
  {
    var part := Restrict(db, e.workspace);
    EventFitsExactly(db, e);
    EventFitsExactly(part, e);
    RowFitsExactly(db, r);
    RowFitsExactly(part, r);
    FilterMembers(EventOfWorkspace(e.workspace), db.events);
    FilterMembers(OfWorkspace(e.workspace), db.rows);
    forall x | x in db.events && (x.id == e.id || SameKey(x, e)) ensures x in part.events {
      assert x.workspace == e.workspace;
    }
    forall x | x in db.rows && Clash(x, r) ensures x in part.rows {
      assert x.workspace == r.workspace;
    }
  }

  lemma HasKeyAlone(db: Db, workspace: string, key: string)
    ensures HasKey(db, workspace, key) <==> HasKey(Restrict(db, workspace), workspace, key)
  {
    var part := Restrict(db, workspace);
    FilterMembers(EventOfWorkspace(workspace), db.events);
    if HasKey(db, workspace, key) {
      var i :| 0 <= i < |db.events| && db.events[i].workspace == workspace && db.events[i].key == key;
      assert db.events[i] in part.events;
      var j :| 0 <= j < |part.events| && part.events[j] == db.events[i];
    }
    if HasKey(part, workspace, key) {
      var j :| 0 <= j < |part.events| && part.events[j].workspace == workspace && part.events[j].key == key;
      assert part.events[j] in db.events;
      var i :| 0 <= i < |db.events| && db.events[i] == part.events[j];
    }
  }

  lemma RestrictAppended(db: Db, e: Event, r: Row, v: string)
    requires r.workspace == e.workspace
    ensures var db' := Db(db.events + [e], db.rows + [r], MovePointer(db.current, r)); var part := Restrict(db, v);
      Restrict(db', v) == if v == e.workspace then
          Db(part.events + [e], part.rows + [r], MovePointer(part.current, r))
        else part
  {
    FilterSnoc(EventOfWorkspace(v), db.events, e);
    FilterSnoc(OfWorkspace(v), db.rows, r);
    PointerMoved(db, Db(db.events + [e], db.rows + [r], MovePointer(db.current, r)), r, v);
    EmptyTail(Filter(EventOfWorkspace(v), db.events));
    EmptyTail(Filter(OfWorkspace(v), db.rows));
  }

  lemma PointerMoved(db: Db, db': Db, r: Row, v: string)
    requires db'.current == MovePointer(db.current, r)
    ensures PointersOf(db', v) == if v == r.workspace then MovePointer(PointersOf(db, v), r) else PointersOf(db, v)
  {
  }

  lemma EmptyTail<T>(s: seq<T>)
    ensures s + [] == s
  {
  }

  /** A transaction gets the same answer, and leaves the same rows of its workspace, with or without the others. */
  lemma CommitAlone(db: Db, e: Event, r: Row, v: string)
    requires r.workspace == e.workspace && IdsApart(db, e, r)
    ensures var o, alone := Commit(db, e, r), Commit(Restrict(db, e.workspace), e, r);
      && o.status == alone.status && Restrict(o.db, e.workspace) == alone.db
      && (v != e.workspace ==> Restrict(o.db, v) == Restrict(db, v))
  {
    FitsAlone(db, e, r);
    RestrictAppended(db, e, r, e.workspace);
    RestrictAppended(db, e, r, v);
  }

  // --- Runs of writers ---------------------------------------------------------------------------

  function MarkOne(workspace: string, id: string, version: int, state: string): Row -> Row {
    (r: Row) =>
      if r.kind.Memory? && r.workspace == workspace && r.id == id && r.version == version then r.(embedding := state)
      else r
  }

  lemma MarkedRows(db: Db, workspace: string, id: string, version: int, state: string)
    ensures SetEmbeddingState(db, workspace, id, version, state).rows
         == Transform(MarkOne(workspace, id, version, state), db.rows)
  {
  }

  lemma MarkAlone(db: Db, workspace: string, id: string, version: int, state: string, v: string)
    ensures Restrict(SetEmbeddingState(db, workspace, id, version, state), v)
         == if v == workspace then SetEmbeddingState(Restrict(db, v), workspace, id, version, state)
            else Restrict(db, v)
  {
    var mark := MarkOne(workspace, id, version, state);
    MarkedRows(db, workspace, id, version, state);
    MarkedRows(Restrict(db, v), workspace, id, version, state);
    FilterTransform(OfWorkspace(v), mark, db.rows);
    if v != workspace {
      FilterMembers(OfWorkspace(v), db.rows);
      TransformNothing(mark, Filter(OfWorkspace(v), db.rows));
    }
  }

  function WritersOf(s: System, v: string): map<nat, Progress> {
    map w | w in s.writers && s.writers[w].op.workspace == v :: s.writers[w]
  }

  /** The workspace's tables and the writers that are busy with it. */
  function RestrictSystem(s: System, v: string): System {
    System(Restrict(s.db, v), WritersOf(s, v))
  }

  /** The action is a step of a write to this workspace. */
  predicate Concerns(s: System, a: Action, v: string) {
    match a
    case Begin(w, op) => op.workspace == v && w !in s.writers
    case MarkEmbedding(workspace, _, _, _) => workspace == v
    case _ => a.w in s.writers && s.writers[a.w].op.workspace == v
  }

  /** The steps of a run that concern the workspace. */
  function Own(actions: seq<Action>, v: string): seq<Action> {
    if actions == [] then []
    else
      var n := |actions| - 1;
      Own(actions[..n], v) + if Concerns(After(actions[..n]), actions[n], v) then [actions[n]] else []
  }

  /** The ids that this commit brings are not taken by another workspace. */
  ghost predicate BringsNewIds(s: System, a: Action) {
    a.CommitWrite? && a.w in s.writers && s.writers[a.w].Based? ==>
      IdsApart(s.db, EventOf(s.writers[a.w], a), RowOf(s.writers[a.w], a))
  }

  ghost predicate IdsNeverCollide(actions: seq<Action>) {
    actions == []
    || (IdsNeverCollide(actions[..|actions| - 1])
        && BringsNewIds(After(actions[..|actions| - 1]), actions[|actions| - 1]))
  }

  lemma StepAlone(s: System, a: Action, v: string)
    requires BringsNewIds(s, a)
    ensures RestrictSystem(Step(s, a), v)
         == if Concerns(s, a, v) then Step(RestrictSystem(s, v), a) else RestrictSystem(s, v)
  {
    match a
    case CommitWrite(w, _, _, _, _, _) => CommitStepAlone(s, a, v);
    case MarkEmbedding(workspace, id, version, state) => MarkAlone(s.db, workspace, id, version, state, v);
    case Begin(w, op) => BeginAlone(s, w, op, v);
    case Lookup(w) => LookupAlone(s, w, v);
    case ReadCurrent(w) => ReadAlone(s, w, v);
    case Abandon(w) => WriterLeaves(s, w, v);
  }

  lemma WriterLeaves(s: System, w: nat, v: string)
    ensures WritersOf(s.(writers := s.writers - {w}), v) == WritersOf(s, v) - {w}
    ensures !(w in s.writers && s.writers[w].op.workspace == v) ==> WritersOf(s, v) - {w} == WritersOf(s, v)
  {
  }

  lemma WriterMoves(s: System, w: nat, p: Progress, v: string)
    requires w !in s.writers || s.writers[w].op.workspace == p.op.workspace
    ensures WritersOf(s.(writers := s.writers[w := p]), v)
         == if p.op.workspace == v then WritersOf(s, v)[w := p] else WritersOf(s, v)
  {
  }

  lemma BeginAlone(s: System, w: nat, op: Op, v: string)
    ensures RestrictSystem(Step(s, Begin(w, op)), v)
         == if op.workspace == v && w !in s.writers then Step(RestrictSystem(s, v), Begin(w, op))
            else RestrictSystem(s, v)
  {
    if w !in s.writers { WriterMoves(s, w, Begun(op), v); }
  }

  lemma LookupAlone(s: System, w: nat, v: string)
    ensures RestrictSystem(Step(s, Lookup(w)), v)
         == if w in s.writers && s.writers[w].op.workspace == v then Step(RestrictSystem(s, v), Lookup(w))
            else RestrictSystem(s, v)
  {
    if w in s.writers {
      HasKeyAlone(s.db, s.writers[w].op.workspace, s.writers[w].op.key);
      WriterLeaves(s, w, v);
      WriterMoves(s, w, KeyUnused(s.writers[w].op), v);
    }
  }

  lemma ReadAlone(s: System, w: nat, v: string)
    ensures RestrictSystem(Step(s, ReadCurrent(w)), v)
         == if w in s.writers && s.writers[w].op.workspace == v then Step(RestrictSystem(s, v), ReadCurrent(w))
            else RestrictSystem(s, v)
  {
    if w in s.writers {
      var op := s.writers[w].op;
      WriterLeaves(s, w, v);
      WriterMoves(s, w, Based(op, 0), v);
      if op.Object() in s.db.current { WriterMoves(s, w, Based(op, s.db.current[op.Object()]), v); }
    }
  }

  lemma CommitStepAlone(s: System, a: Action, v: string)
    requires BringsNewIds(s, a) && a.CommitWrite?
    ensures RestrictSystem(Step(s, a), v)
         == if a.w in s.writers && s.writers[a.w].op.workspace == v then Step(RestrictSystem(s, v), a)
            else RestrictSystem(s, v)
  {
    WriterLeaves(s, a.w, v);
    if a.w in s.writers && s.writers[a.w].Based? {
      var p := s.writers[a.w];
      CommitAlone(s.db, EventOf(p, a), RowOf(p, a), v);
    }
  }

  /**
   Isolation: whatever the writers of all workspaces do, each workspace ends with the tables, and its writers where
   they would stand, as if the steps of the others had never happened.
   */
  lemma {:induction false} EveryRunIsIsolated(actions: seq<Action>, v: string)
    requires IdsNeverCollide(actions)
    ensures RestrictSystem(After(actions), v) == After(Own(actions, v))
  {
    if actions == [] {
      assert RestrictSystem(START, v) == START;
    } else {
      var n := |actions| - 1;
      EveryRunIsIsolated(actions[..n], v);
      StepAlone(After(actions[..n]), actions[n], v);
      var own := Own(actions[..n], v);
      if Concerns(After(actions[..n]), actions[n], v) {
        assert Own(actions, v) == own + [actions[n]];
        assert (own + [actions[n]])[..|own|] == own;
      } else {
        assert Own(actions, v) == own;
      }
    }
  }

  // --- Imports -----------------------------------------------------------------------------------

  /** The snapshot's event ids and scope ids are not taken by another workspace. */
  ghost predicate BringsOnlyNewIds(db: Db, snap: Snapshot) {
    && (forall x, e :: x in db.events && e in snap.events && x.workspace != snap.workspace ==> x.id != e.id)
    && (forall x, r :: x in db.rows && r in snap.rows && x.kind.Scope? && r.kind.Scope? && x.workspace != snap.workspace
          ==> x.id != r.id)
  }

  /** The same answer with and without the other workspaces, which stay as they were. */
  ghost predicate AnswersAlike(db: Db, workspace: string, o: Outcome, alone: Outcome) {
    && o.status == alone.status && Restrict(o.db, workspace) == alone.db
    && forall v :: v != workspace ==> Restrict(o.db, v) == Restrict(db, v)
  }

  lemma CoveredEvent(snap: Snapshot, i: nat)
    requires Covered(snap) && i < |snap.events|
    ensures var e := snap.events[i]; var r := Find(snap.rows, e);
      e.workspace == r.workspace == snap.workspace && r in snap.rows
  {
    var r := Find(snap.rows, snap.events[i]);
    var j :| 0 <= j < |snap.rows| && snap.rows[j] == r;
  }

  lemma ImportOneAlone(db: Db, snap: Snapshot, i: nat, lookupFailed: bool)
    requires Covered(snap) && BringsOnlyNewIds(db, snap) && i < |snap.events|
    ensures var o := ImportOne(db, snap.rows, snap.events[i], lookupFailed);
      && AnswersAlike(db, snap.workspace, o,
                      ImportOne(Restrict(db, snap.workspace), snap.rows, snap.events[i], lookupFailed))
      && BringsOnlyNewIds(o.db, snap)
  {
    var e := snap.events[i];
    var r := Find(snap.rows, e);
    CoveredEvent(snap, i);
    HasKeyAlone(db, e.workspace, e.key);
    forall v | v != snap.workspace ensures Restrict(Commit(db, e, r).db, v) == Restrict(db, v) {
      CommitAlone(db, e, r, v);
    }
    CommitAlone(db, e, r, e.workspace);
  }

  /** An import on its way, beside the same import with the workspace alone. */
  ghost predicate Alongside(db: Db, snap: Snapshot, o: Outcome, alone: Outcome) {
    AnswersAlike(db, snap.workspace, o, alone) && BringsOnlyNewIds(o.db, snap)
  }

  function Further(o: Outcome, snap: Snapshot, i: nat, lookupFailed: bool): Outcome
    requires i < |snap.events|
  {
    if o.status.Done? then ImportOne(o.db, snap.rows, snap.events[i], lookupFailed) else o
  }

  lemma AlongsideNext(db: Db, snap: Snapshot, o: Outcome, alone: Outcome, i: nat, lookupFailed: bool)
    requires Covered(snap) && Alongside(db, snap, o, alone) && i < |snap.events|
    ensures Alongside(db, snap, Further(o, snap, i, lookupFailed), Further(alone, snap, i, lookupFailed))
  {
    ImportOneAlone(o.db, snap, i, lookupFailed);
  }

  /** Two imports of one snapshot stay related by whatever every single event keeps. */
  lemma {:induction false} InLockstep(related: (Outcome, Outcome) -> bool, db: Db, part: Db, snap: Snapshot,
                                      faults: set<nat>, n: nat)
    requires related(Outcome(db, Done), Outcome(part, Done)) && n <= |snap.events|
    requires forall o, alone, i: nat, failed: bool
      {:trigger Further(o, snap, i, failed), Further(alone, snap, i, failed)}
      | i < |snap.events| && related(o, alone) ::
      related(Further(o, snap, i, failed), Further(alone, snap, i, failed))
    ensures related(ImportEvents(db, snap, faults, n), ImportEvents(part, snap, faults, n))
  {
    if n > 0 {
      InLockstep(related, db, part, snap, faults, n - 1);
      var o, alone := ImportEvents(db, snap, faults, n - 1), ImportEvents(part, snap, faults, n - 1);
      assert ImportEvents(db, snap, faults, n) == Further(o, snap, n - 1, n - 1 in faults);
      assert ImportEvents(part, snap, faults, n) == Further(alone, snap, n - 1, n - 1 in faults);
    }
  }

  lemma ImportEventsAlone(db: Db, snap: Snapshot, faults: set<nat>, n: nat)
    requires Covered(snap) && BringsOnlyNewIds(db, snap) && n <= |snap.events|
    ensures Alongside(db, snap, ImportEvents(db, snap, faults, n),
                      ImportEvents(Restrict(db, snap.workspace), snap, faults, n))
  {
    var related := (o, alone) => Alongside(db, snap, o, alone);
    forall o, alone, i: nat, failed: bool | i < |snap.events| && related(o, alone)
      ensures related(Further(o, snap, i, failed), Further(alone, snap, i, failed))
    {
      AlongsideNext(db, snap, o, alone, i, failed);
    }
    InLockstep(related, db, Restrict(db, snap.workspace), snap, faults, n);
  }

  lemma CountAlone(db: Db, v: string, k: CountKey)
    ensures CountOf(Restrict(db, v), v, k) == CountOf(db, v, k)
  {
    FilterTwice((e: Event) => e.workspace == v, EventOfWorkspace(v), db.events);
    if k.Rows? {
      FilterTwice((r: Row) => r.workspace == v && r.kind == k.kind, OfWorkspace(v), db.rows);
    }
  }

  /**
   An import into a store that also holds other workspaces answers as it would without them, leaves in its workspace
   what it would leave without them, and leaves them alone.
   */
  lemma ImportIsIsolated(db: Db, snap: Snapshot, faults: set<nat>)
    requires Covered(snap) && BringsOnlyNewIds(db, snap)
    ensures AnswersAlike(db, snap.workspace, Import(db, snap, faults),
                         Import(Restrict(db, snap.workspace), snap, faults))
  {
    ImportEventsAlone(db, snap, faults, |snap.events|);
    var o := ImportEvents(db, snap, faults, |snap.events|);
    forall k ensures CountOf(o.db, snap.workspace, k) == CountOf(Restrict(o.db, snap.workspace), snap.workspace, k) {
      CountAlone(o.db, snap.workspace, k);
    }
  }

  /**
   The verdict of an import beside other workspaces, over whatever part of the snapshot its own workspace held: it
   succeeds exactly when every event of the snapshot has landed and its rows correspond one to one to its events.
   */
  lemma ImportVerdictBesideOthers(db: Db, snap: Snapshot, landed: seq<Event>, faults: set<nat>)
    requires Covered(snap) && Landing(snap, landed) && BringsOnlyNewIds(db, snap)
    requires Restrict(db, snap.workspace) == Loaded(snap, landed)
    ensures var after := Land(landed, snap.events, faults, |snap.events|); var o := Import(db, snap, faults);
      && Restrict(o.db, snap.workspace) == Loaded(snap, after)
      && (forall v :: v != snap.workspace ==> Restrict(o.db, v) == Restrict(db, v))
      && o.status == if multiset(after) == multiset(snap.events) && OneToOne(snap) then Done else CountMismatch
  {
    ImportIsIsolated(db, snap, faults);
    ImportVerdict(snap, landed, faults);
  }
}
