/**
 The full-text table when puts overlap. A put refreshes it after its transaction by two statements of
 their own, a delete and an insert, whose errors are dropped. The steps of all puts interleave.
 */
module IndexRaces {
  import opened Sequences
  import opened EventStore
  import opened Writers
  import opened MemoryIndex

  datatype Phase = ToDelete | ToInsert

  /** `pending` are the memory puts that have committed and not yet refreshed, by the place of their row. */
  datatype Racing = Racing(system: System, index: seq<IndexRow>, pending: map<nat, Phase>)

  /** `ok` is false when the statement fails, which nobody notices. */
  datatype Move = Store(a: Action) | DeleteIndex(p: nat, ok: bool) | InsertIndex(p: nat, ok: bool)

  predicate MayDelete(s: Racing, p: nat) {
    p in s.pending && s.pending[p].ToDelete? && p < |s.system.db.rows|
  }

  predicate MayInsert(s: Racing, p: nat) {
    p in s.pending && s.pending[p].ToInsert? && p < |s.system.db.rows|
  }

  /** One step; a move that is not enabled does nothing. */
  function Play(s: Racing, m: Move): Racing {
    match m
    case Store(a) =>
      var system, n := Step(s.system, a), |s.system.db.rows|;
      var committed := n < |system.db.rows| && system.db.rows[n].kind.Memory?;
      Racing(system, s.index, if committed then s.pending[n := ToDelete] else s.pending)
    case DeleteIndex(p, ok) =>
      if !MayDelete(s, p) then s
      else
        var r := s.system.db.rows[p];
        Racing(s.system, if ok then Filter(NotFor(r.workspace, r.id), s.index) else s.index, s.pending[p := ToInsert])
    case InsertIndex(p, ok) =>
      if !MayInsert(s, p) then s
      else Racing(s.system, if ok then s.index + [IndexOf(s.system.db.rows[p])] else s.index, s.pending - {p})
  }

  function Race(moves: seq<Move>): Racing {
    if moves == [] then Racing(START, [], map[])
    else Play(Race(moves[..|moves| - 1]), moves[|moves| - 1])
  }

  /** What a move does to the refreshes of one memory: clear them, add a row, or nothing. */
  function Trace(s: Racing, m: Move, before: seq<Row>, w: string, id: string): seq<Row> {
    match m
    case Store(_) => before
    case DeleteIndex(p, ok) => if ok && MayDelete(s, p) && Concerns(s.system.db.rows[p], w, id) then [] else before
    case InsertIndex(p, ok) =>
      if ok && MayInsert(s, p) && Concerns(s.system.db.rows[p], w, id) then before + [s.system.db.rows[p]] else before
  }

  predicate Concerns(r: Row, w: string, id: string) {
    r.workspace == w && r.id == id
  }

  /** The rows that inserts wrote for a memory after the last delete that concerned it. */
  function InsertedSince(moves: seq<Move>, w: string, id: string): seq<Row> {
    if moves == [] then []
    else
      var n := |moves| - 1;
      Trace(Race(moves[..n]), moves[n], InsertedSince(moves[..n], w, id), w, id)
  }

  /** At any moment the index holds for a memory exactly what was inserted since the last delete. */
  lemma {:induction false} IndexIsTheTrace(moves: seq<Move>, w: string, id: string)
    ensures Filter(For(w, id), Race(moves).index) == Transform(IndexOf, InsertedSince(moves, w, id))
  {
    if moves != [] {
      var n := |moves| - 1;
      IndexIsTheTrace(moves[..n], w, id);
      MoveKeepsTrace(Race(moves[..n]), moves[n], InsertedSince(moves[..n], w, id), w, id);
    }
  }

  lemma DeleteKeepsTrace(index: seq<IndexRow>, before: seq<Row>, r: Row, w: string, id: string)
    requires Filter(For(w, id), index) == Transform(IndexOf, before)
    ensures Filter(For(w, id), Filter(NotFor(r.workspace, r.id), index))
         == Transform(IndexOf, if Concerns(r, w, id) then [] else before)
  {
    DeleteKeepsOthers(index, r.workspace, r.id, w, id);
  }

  lemma InsertKeepsTrace(index: seq<IndexRow>, before: seq<Row>, r: Row, w: string, id: string)
    requires Filter(For(w, id), index) == Transform(IndexOf, before)
    ensures Filter(For(w, id), index + [IndexOf(r)])
         == Transform(IndexOf, if Concerns(r, w, id) then before + [r] else before)
  {
    FilterSnoc(For(w, id), index, IndexOf(r));
    TransformSnoc(IndexOf, before, r);
  }

  lemma MoveKeepsTrace(s: Racing, m: Move, before: seq<Row>, w: string, id: string)
    requires Filter(For(w, id), s.index) == Transform(IndexOf, before)
    ensures Filter(For(w, id), Play(s, m).index) == Transform(IndexOf, Trace(s, m, before, w, id))
  {
    match m
    case Store(_) =>
    case DeleteIndex(p, ok) =>
      if MayDelete(s, p) { DeleteKeepsTrace(s.index, before, s.system.db.rows[p], w, id); }
    case InsertIndex(p, ok) =>
      if MayInsert(s, p) { InsertKeepsTrace(s.index, before, s.system.db.rows[p], w, id); }
  }

  // --- Each put refreshes once ---------------------------------------------------------------------

  /** The move is a refresh of the put at this place, and does something. */
  predicate Refreshes(s: Racing, m: Move, p: nat) {
    !m.Store? && m.p == p && Play(s, m) != s
  }

  /** The refresh moves of one put that did something, in order. */
  function RefreshesOf(moves: seq<Move>, p: nat): seq<Move> {
    if moves == [] then []
    else
      var n := |moves| - 1;
      RefreshesOf(moves[..n], p) + if Refreshes(Race(moves[..n]), moves[n], p) then [moves[n]] else []
  }

  /** What the pending phase of a put says about its refresh moves so far. */
  ghost predicate PhaseFits(s: Racing, done: seq<Move>, p: nat) {
    if p in s.pending then
      && p < |s.system.db.rows|
      && if s.pending[p].ToDelete? then done == [] else |done| == 1 && done[0].DeleteIndex?
    else
      && (p >= |s.system.db.rows| ==> done == [])
      && (done == [] || (|done| == 2 && done[0].DeleteIndex? && done[1].InsertIndex?))
  }

  lemma RowsGrowByAtMostOne(s: System, a: Action)
    ensures |s.db.rows| <= |Step(s, a).db.rows| <= |s.db.rows| + 1
  {
  }

  lemma MoveKeepsPhase(s: Racing, m: Move, done: seq<Move>, p: nat)
    requires PhaseFits(s, done, p)
    ensures PhaseFits(Play(s, m), done + if Refreshes(s, m, p) then [m] else [], p)
  {
    match m
    case Store(a) => RowsGrowByAtMostOne(s.system, a);
    case DeleteIndex(q, ok) =>
    case InsertIndex(q, ok) =>
  }

  /** Every put refreshes the index at most once: by one delete, and only after it by one insert. */
  lemma {:induction false} RefreshesOnceInOrder(moves: seq<Move>, p: nat)
    ensures var done := RefreshesOf(moves, p);
      && |done| <= 2 && (|done| > 0 ==> done[0].DeleteIndex?) && (|done| == 2 ==> done[1].InsertIndex?)
      && PhaseFits(Race(moves), done, p)
  {
    if moves != [] {
      var n := |moves| - 1;
      RefreshesOnceInOrder(moves[..n], p);
      MoveKeepsPhase(Race(moves[..n]), moves[n], RefreshesOf(moves[..n], p), p);
      assert RefreshesOf(moves[..n], p) + [] == RefreshesOf(moves[..n], p);
    }
  }

  // --- The tables underneath ---------------------------------------------------------------------

  /** The moves of the writers alone. */
  function Stored(moves: seq<Move>): seq<Action> {
    if moves == [] then []
    else
      var before, m := Stored(moves[..|moves| - 1]), moves[|moves| - 1];
      if m.Store? then before + [m.a] else before
  }

  /** The refreshes do not disturb the tables: they are those of an ordinary run of writers. */
  lemma {:induction false} TablesAreARun(moves: seq<Move>)
    ensures Race(moves).system == After(Stored(moves))
  {
    if moves != [] {
      var n := |moves| - 1;
      TablesAreARun(moves[..n]);
      if moves[n].Store? { assert Stored(moves)[..|Stored(moves)| - 1] == Stored(moves[..n]); }
    }
  }

  ghost predicate MemoriesPending(s: Racing) {
    forall p :: p in s.pending ==> p < |s.system.db.rows| && s.system.db.rows[p].kind.Memory?
  }

  lemma RaceIsConsistent(moves: seq<Move>)
    ensures Invariant(Race(moves).system)
  {
    TablesAreARun(moves);
    EveryRunKeepsInvariant(Stored(moves));
  }

  lemma {:induction false} PendingAreMemories(moves: seq<Move>)
    ensures MemoriesPending(Race(moves))
  {
    if moves != [] {
      var n := |moves| - 1;
      PendingAreMemories(moves[..n]);
      RaceIsConsistent(moves[..n]);
      var s := Race(moves[..n]);
      if moves[n].Store? {
        StepKeepsInvariant(s.system, moves[n].a);
        forall p | p in s.pending ensures p < |Race(moves).system.db.rows|
          && Race(moves).system.db.rows[p].kind.Memory? {
          assert SameContent(s.system.db.rows[p], Race(moves).system.db.rows[p]);
        }
      }
    }
  }

  /** Only memories that exist are ever inserted. */
  lemma {:induction false} InsertedExist(moves: seq<Move>, w: string, id: string)
    ensures InsertedSince(moves, w, id) != [] ==> ObjectKey(Memory, w, id) in Race(moves).system.db.current
  {
    if moves != [] {
      var n := |moves| - 1;
      InsertedExist(moves[..n], w, id);
      PendingAreMemories(moves[..n]);
      RaceIsConsistent(moves[..n]);
      var s := Race(moves[..n]);
      match moves[n]
      case Store(a) => StepKeepsInvariant(s.system, a);
      case InsertIndex(p, ok) =>
        if MayInsert(s, p) && Concerns(s.system.db.rows[p], w, id) {
          assert ObjectOf(s.system.db.rows[p]) == ObjectKey(Memory, w, id);
        }
      case DeleteIndex(_, _) =>
    }
  }

  // --- When the index is exact -------------------------------------------------------------------

  /** Exactly one insert follows the last delete of the row's memory, and it wrote the row's text. */
  predicate RefreshedOnce(moves: seq<Move>, r: Row) {
    var inserted := InsertedSince(moves, r.workspace, r.id);
    |inserted| == 1 && IndexOf(inserted[0]) == IndexOf(r)
  }

  predicate IsCurrent(db: Db, r: Row) {
    IsCurrentMemory(db.current, r.workspace)(r)
  }

  /**
   For every interleaving of overlapping puts, with any failed statements: the index is exact exactly
   when, for each current memory, one insert alone follows the last delete and wrote the current text.
   */
  lemma IndexIsExactExactly(moves: seq<Move>)
    ensures var db := Race(moves).system.db;
      Exact(Indexed(db, Race(moves).index)) <==>
      forall i :: 0 <= i < |db.rows| && IsCurrent(db, db.rows[i]) ==> RefreshedOnce(moves, db.rows[i])
  {
    var db, index := Race(moves).system.db, Race(moves).index;
    forall w, id | ObjectKey(Memory, w, id) !in db.current ensures Filter(For(w, id), index) == [] {
      IndexIsTheTrace(moves, w, id);
      InsertedExist(moves, w, id);
    }
    forall i | 0 <= i < |db.rows|
      ensures Filter(For(db.rows[i].workspace, db.rows[i].id), index) == [IndexOf(db.rows[i])] <==>
        RefreshedOnce(moves, db.rows[i])
    {
      var r := db.rows[i];
      IndexIsTheTrace(moves, r.workspace, r.id);
      OneInserted(InsertedSince(moves, r.workspace, r.id), r);
    }
    ExactByRows(db, index, moves);
  }

  lemma OneInserted(inserted: seq<Row>, r: Row)
    ensures Transform(IndexOf, inserted) == [IndexOf(r)] <==> |inserted| == 1 && IndexOf(inserted[0]) == IndexOf(r)
  {
    if |inserted| == 1 { assert Transform(IndexOf, inserted) == [IndexOf(inserted[0])]; }
    if Transform(IndexOf, inserted) == [IndexOf(r)] {
      assert |Transform(IndexOf, inserted)| == 1 && Transform(IndexOf, inserted)[0] == IndexOf(r);
    }
  }

  lemma ExactByRows(db: Db, index: seq<IndexRow>, moves: seq<Move>)
    requires forall w, id :: ObjectKey(Memory, w, id) !in db.current ==> Filter(For(w, id), index) == []
    requires forall i | 0 <= i < |db.rows| ::
      Filter(For(db.rows[i].workspace, db.rows[i].id), index) == [IndexOf(db.rows[i])] <==>
        RefreshedOnce(moves, db.rows[i])
    ensures Exact(Indexed(db, index)) <==>
      forall i :: 0 <= i < |db.rows| && IsCurrent(db, db.rows[i]) ==> RefreshedOnce(moves, db.rows[i])
  {
  }

  // --- A duplicate -------------------------------------------------------------------------------

  lemma RaceSnoc(moves: seq<Move>, m: Move)
    ensures Race(moves + [m]) == Play(Race(moves), m)
    ensures forall w, id ::
      InsertedSince(moves + [m], w, id) == Trace(Race(moves), m, InsertedSince(moves, w, id), w, id)
  {
    assert (moves + [m])[..|moves|] == moves;
  }

  /** Two deletes, then two inserts. */
  function Crossed(p: nat, q: nat): seq<Move> {
    [DeleteIndex(p, true), DeleteIndex(q, true), InsertIndex(p, true), InsertIndex(q, true)]
  }

  lemma CrossedOutcome(moves: seq<Move>, p: nat, q: nat)
    requires var s := Race(moves); MayDelete(s, p) && MayDelete(s, q) && p != q
    requires var rows := Race(moves).system.db.rows; rows[p].workspace == rows[q].workspace && rows[p].id == rows[q].id
    ensures var s := Race(moves); var t := Race(moves + Crossed(p, q)); var rows := s.system.db.rows;
      && t.system == s.system && t.pending == s.pending - {p, q}
      && InsertedSince(moves + Crossed(p, q), rows[p].workspace, rows[p].id) == [rows[p], rows[q]]
  {
    var m1 := moves + [DeleteIndex(p, true)];
    var m2 := m1 + [DeleteIndex(q, true)];
    var m3 := m2 + [InsertIndex(p, true)];
    var m4 := m3 + [InsertIndex(q, true)];
    assert m4 == moves + Crossed(p, q);
    var w, id := Race(moves).system.db.rows[p].workspace, Race(moves).system.db.rows[p].id;
    var r := Race(moves).system.db.rows[p];
    RaceSnoc(moves, DeleteIndex(p, true));
    RaceSnoc(m1, DeleteIndex(q, true));
    assert InsertedSince(m2, w, id) == [];
    RaceSnoc(m2, InsertIndex(p, true));
    assert InsertedSince(m3, w, id) == [] + [r] == [r];
    RaceSnoc(m3, InsertIndex(q, true));
  }

  /**
   Whenever two puts of one memory have committed and neither has refreshed, they can leave two index
   rows for it, whatever the texts.
   */
  lemma CrossedRefreshesDuplicate(moves: seq<Move>, p: nat, q: nat)
    requires var s := Race(moves); MayDelete(s, p) && MayDelete(s, q) && p != q
    requires var rows := Race(moves).system.db.rows; rows[p].workspace == rows[q].workspace && rows[p].id == rows[q].id
    ensures var t := Race(moves + Crossed(p, q));
      t.pending == Race(moves).pending - {p, q} && !Exact(Indexed(t.system.db, t.index))
  {
    CrossedOutcome(moves, p, q);
    var all := moves + Crossed(p, q);
    IndexIsExactExactly(all);
    PendingAreMemories(moves);
    RaceIsConsistent(moves);
    var db := Race(moves).system.db;
    var k := ObjectOf(db.rows[p]);
    assert k in db.current && HasRow(db.rows, k, db.current[k]);
    var i :| 0 <= i < |db.rows| && ObjectOf(db.rows[i]) == k && db.rows[i].version == db.current[k];
    assert IsCurrent(db, db.rows[i]) && !RefreshedOnce(all, db.rows[i]);
  }

  /** The steps of one write, up to its commit. */
  function WriteMoves(w: nat, op: Op, commit: Action): seq<Move> {
    [Store(Begin(w, op)), Store(Lookup(w)), Store(ReadCurrent(w)), Store(commit)]
  }

  function BaseFor(db: Db, op: Op): int {
    if op.create || op.Object() !in db.current then 0 else db.current[op.Object()]
  }

  lemma WriteOutcome(moves: seq<Move>, w: nat, op: Op, commit: Action)
    requires op.Legal() && op.kind.Memory? && commit.CommitWrite? && commit.w == w
    requires var s := Race(moves).system;
      w !in s.writers && !HasKey(s.db, op.workspace, op.key) && (op.create || op.Object() in s.db.current)
    requires var db := Race(moves).system.db; var p := Based(op, BaseFor(db, op));
      EventFits(db, EventOf(p, commit)) && RowFits(db, RowOf(p, commit))
    ensures var s := Race(moves); var t := Race(moves + WriteMoves(w, op, commit));
      var p := Based(op, BaseFor(s.system.db, op));
      && t.system == System(Commit(s.system.db, EventOf(p, commit), RowOf(p, commit)).db, s.system.writers)
      && t.index == s.index && t.pending == s.pending[|s.system.db.rows| := ToDelete]
  {
    var m1 := moves + [Store(Begin(w, op))];
    var m2 := m1 + [Store(Lookup(w))];
    var m3 := m2 + [Store(ReadCurrent(w))];
    assert m3 + [Store(commit)] == moves + WriteMoves(w, op, commit);
    RaceSnoc(moves, Store(Begin(w, op)));
    RaceSnoc(m1, Store(Lookup(w)));
    RaceSnoc(m2, Store(ReadCurrent(w)));
    RaceSnoc(m3, Store(commit));
    var s := Race(moves);
    ReadOutcome(s, w, op);
    CommitOutcome(s, w, op, commit);
  }

  /** A writer that is alone comes to the point of committing. */
  lemma ReadOutcome(s: Racing, w: nat, op: Op)
    requires op.Legal() && w !in s.system.writers && !HasKey(s.system.db, op.workspace, op.key)
    requires op.create || op.Object() in s.system.db.current
    ensures Play(Play(Play(s, Store(Begin(w, op))), Store(Lookup(w))), Store(ReadCurrent(w))) == Ready(s, w, op)
  {
  }

  function Ready(s: Racing, w: nat, op: Op): Racing {
    s.(system := System(s.system.db, s.system.writers[w := Based(op, BaseFor(s.system.db, op))]))
  }

  lemma CommitOutcome(s: Racing, w: nat, op: Op, commit: Action)
    requires op.kind.Memory? && commit.CommitWrite? && commit.w == w && w !in s.system.writers
    requires var p := Based(op, BaseFor(s.system.db, op));
      EventFits(s.system.db, EventOf(p, commit)) && RowFits(s.system.db, RowOf(p, commit))
    ensures var t := Play(Ready(s, w, op), Store(commit)); var p := Based(op, BaseFor(s.system.db, op));
      && t.system == System(Commit(s.system.db, EventOf(p, commit), RowOf(p, commit)).db, s.system.writers)
      && t.index == s.index && t.pending == s.pending[|s.system.db.rows| := ToDelete]
  {
    assert s.system.writers[w := Based(op, BaseFor(s.system.db, op))] - {w} == s.system.writers;
  }

  function CreateOp(w: string, id: string): Op {
    Op(w, "a", Memory, id, true)
  }

  function VersionOp(w: string, id: string): Op {
    Op(w, "b", Memory, id, false)
  }

  function CommitText(writer: nat, eventId: string, text: MemoryText): Action {
    CommitWrite(writer, eventId, "", text, "", "")
  }

  /** One writer creates a memory; another one versions it, with the same text, before the first has refreshed. */
  function Overlap(w: string, id: string, text: MemoryText): seq<Move> {
    WriteMoves(0, CreateOp(w, id), CommitText(0, "x", text)) + WriteMoves(1, VersionOp(w, id), CommitText(1, "y", text))
  }

  /**
   Such an overlap exists for every memory, so equal texts do not protect the index: both puts finish
   and leave two rows.
   */
  lemma EqualTextsCanDuplicate(w: string, id: string, text: MemoryText)
    ensures var t := Race(Overlap(w, id, text) + Crossed(0, 1)); var rows := t.system.db.rows;
      && t.pending == map[] && |rows| == 2 && IndexOf(rows[0]) == IndexOf(rows[1])
      && !Exact(Indexed(t.system.db, t.index))
  {
    var moves := Overlap(w, id, text);
    OverlapOutcome(w, id, text);
    CrossedRefreshesDuplicate(moves, 0, 1);
    CrossedOutcome(moves, 0, 1);
    assert Race(moves).pending - {0, 1} == map[];
  }

  lemma OverlapOutcome(w: string, id: string, text: MemoryText)
    ensures var t := Race(Overlap(w, id, text)); var rows := t.system.db.rows;
      && t.pending == map[0 := ToDelete, 1 := ToDelete] && |rows| == 2
      && rows[0] == Row(Memory, w, id, 1, "", text, "", "") && rows[1] == Row(Memory, w, id, 2, "", text, "", "")
      && t.system.db.events == [Event("x", w, Memory, id, 1, "a", Some(rows[0])),
                                Event("y", w, Memory, id, 2, "b", Some(rows[1]))]
  {
    var first := WriteMoves(0, CreateOp(w, id), CommitText(0, "x", text));
    FirstWriteOutcome(w, id, text);
    DifferentLetters();
    WriteOutcome(first, 1, VersionOp(w, id), CommitText(1, "y", text));
    assert map[0 := ToDelete][1 := ToDelete] == map[0 := ToDelete, 1 := ToDelete];
  }

  lemma FirstWriteOutcome(w: string, id: string, text: MemoryText)
    ensures var r := Row(Memory, w, id, 1, "", text, "", "");
      Race(WriteMoves(0, CreateOp(w, id), CommitText(0, "x", text)))
      == Racing(System(Db([Event("x", w, Memory, id, 1, "a", Some(r))], [r], map[ObjectKey(Memory, w, id) := 1]),
                       map[]),
                [], map[0 := ToDelete])
  {
    var first := WriteMoves(0, CreateOp(w, id), CommitText(0, "x", text));
    assert [] + first == first;
    assert Race([]) == Racing(START, [], map[]);
    WriteOutcome([], 0, CreateOp(w, id), CommitText(0, "x", text));
  }

  lemma DifferentLetters()
    ensures "a" != "b" && "x" != "y"
  {
    assert "a"[0] != "b"[0] && "x"[0] != "y"[0];
  }
}
