/**
 The full-text table of the SQLite dialect. A put refreshes it after its transaction, in two more
 statements: delete the memory's rows, insert one. A rebuild fills it from the current rows.
 */
module MemoryIndex {
  import opened Sequences
  import opened EventStore
  import opened Projections
  import opened Text

  datatype IndexRow = IndexRow(workspace: string, id: string, title: string, content: string)

  /** The tables together with the index. */
  datatype Indexed = Indexed(db: Db, index: seq<IndexRow>)

  /** The row a put writes. */
  function IndexOf(r: Row): IndexRow {
    IndexRow(r.workspace, r.id, Join([r.text.subject, r.text.predicate_, r.text.object_, r.text.title], " "),
      r.text.content)
  }

  /** The row a rebuild writes: the columns concatenated in SQL. */
  function RebuiltIndexOf(r: Row): IndexRow {
    IndexRow(r.workspace, r.id,
             r.text.subject + " " + r.text.predicate_ + " " + r.text.object_ + " " + r.text.title, r.text.content)
  }

  function For(workspace: string, id: string): IndexRow -> bool {
    (x: IndexRow) => x.workspace == workspace && x.id == id
  }

  function NotFor(workspace: string, id: string): IndexRow -> bool {
    (x: IndexRow) => !(x.workspace == workspace && x.id == id)
  }

  function Refresh(index: seq<IndexRow>, r: Row): seq<IndexRow> {
    Filter(NotFor(r.workspace, r.id), index) + [IndexOf(r)]
  }

  function IsCurrentMemory(current: map<ObjectKey, int>, workspace: string): Row -> bool {
    (r: Row) => r.kind.Memory? && r.workspace == workspace && ObjectOf(r) in current
      && current[ObjectOf(r)] == r.version
  }

  function RebuildIndex(db: Db, index: seq<IndexRow>, workspace: string): seq<IndexRow> {
    Filter((x: IndexRow) => x.workspace != workspace, index)
    + Transform(RebuiltIndexOf, Filter(IsCurrentMemory(db.current, workspace), db.rows))
  }

  /** One index row for each current memory, with that version's text, and none for anything else. */
  ghost predicate Exact(s: Indexed) {
    && (forall i :: 0 <= i < |s.db.rows| && IsCurrentMemory(s.db.current, s.db.rows[i].workspace)(s.db.rows[i]) ==>
          Filter(For(s.db.rows[i].workspace, s.db.rows[i].id), s.index) == [IndexOf(s.db.rows[i])])
    && (forall w, id :: ObjectKey(Memory, w, id) !in s.db.current ==> Filter(For(w, id), s.index) == [])
  }

  // --- Refreshing ------------------------------------------------------------------------------

  lemma TextsAgree(r: Row)
    ensures IndexOf(r) == RebuiltIndexOf(r)
    ensures var text := r.text.subject + " " + r.text.predicate_ + " " + r.text.object_ + " " + r.text.title;
      IndexOf(r) == IndexRow(r.workspace, r.id, text, r.text.content)
  {
    var a, b, c, d := r.text.subject, r.text.predicate_, r.text.object_, r.text.title;
    calc {
      Join([a, b, c, d], " ");
      { assert [a, b, c, d][1..] == [b, c, d]; }
      a + " " + Join([b, c, d], " ");
      { assert [b, c, d][1..] == [c, d]; }
      a + " " + (b + " " + Join([c, d], " "));
      { assert [c, d][1..] == [d]; }
      a + " " + (b + " " + (c + " " + d));
      a + " " + b + " " + c + " " + d;
    }
  }

  lemma {:induction false} DeleteKeepsOthers(index: seq<IndexRow>, w: string, id: string, w': string, id': string)
    ensures Filter(For(w', id'), Filter(NotFor(w, id), index))
         == if w == w' && id == id' then [] else Filter(For(w', id'), index)
  {
    if index != [] {
      var n := |index| - 1;
      DeleteKeepsOthers(index[..n], w, id, w', id');
      FilterAppend(For(w', id'), Filter(NotFor(w, id), index[..n]), if NotFor(w, id)(index[n]) then [index[n]] else []);
    }
  }

  lemma RefreshLookup(index: seq<IndexRow>, r: Row, w: string, id: string)
    ensures Filter(For(w, id), Refresh(index, r)) ==
              if r.workspace == w && r.id == id then [IndexOf(r)] else Filter(For(w, id), index)
  {
    FilterSnoc(For(w, id), Filter(NotFor(r.workspace, r.id), index), IndexOf(r));
    DeleteKeepsOthers(index, r.workspace, r.id, w, id);
  }

  /** Two rows of one object at the same version are the same row. */
  lemma CurrentRowUnique(db: Db, i: nat, j: nat)
    requires UniqueRows(db.rows) && i < |db.rows| && j < |db.rows|
    requires !db.rows[i].kind.Scope?
    ensures ObjectOf(db.rows[i]) == ObjectOf(db.rows[j]) && db.rows[i].version == db.rows[j].version ==> i == j
  {
  }

  // --- Sequential runs -------------------------------------------------------------------------

  /** One service write without anybody in between; a creation asks for version 1, a version for the next. */
  datatype Write = Write(eventId: string, workspace: string, key: string, kind: Kind, id: string, create: bool,
                         canonicalKey: string, text: MemoryText, rest: string, embedding: string)

  predicate Legal(w: Write) {
    !w.kind.Unsupported? && (w.kind.Scope? || w.kind.Relationship? ==> w.create)
  }

  function BaseOf(db: Db, w: Write): Option<int> {
    var k := ObjectKey(w.kind, w.workspace, w.id);
    if w.create then Some(0) else if k in db.current then Some(db.current[k]) else None
  }

  function WrittenRow(w: Write, base: int): Row {
    Row(w.kind, w.workspace, w.id, base + 1, w.canonicalKey, w.text, w.rest, w.embedding)
  }

  function WrittenEvent(w: Write, base: int): Event {
    Event(w.eventId, w.workspace, w.kind, w.id, base + 1, w.key, Some(WrittenRow(w, base)))
  }

  /** Commit, then refresh the index when a memory was committed. */
  function PutIndexed(s: Indexed, e: Event, r: Row): Indexed {
    var o := Commit(s.db, e, r);
    Indexed(o.db, if o.status.Done? && r.kind.Memory? then Refresh(s.index, r) else s.index)
  }

  function ServiceWrite(s: Indexed, w: Write): Indexed {
    var base := BaseOf(s.db, w);
    if !Legal(w) || HasKey(s.db, w.workspace, w.key) || base.None? then s
    else PutIndexed(s, WrittenEvent(w, base.value), WrittenRow(w, base.value))
  }

  function AfterWrites(writes: seq<Write>): Indexed {
    if writes == [] then Indexed(EMPTY, [])
    else ServiceWrite(AfterWrites(writes[..|writes| - 1]), writes[|writes| - 1])
  }

  lemma PutIndexesRow(s: Indexed, e: Event, r: Row, i: nat)
    requires Exact(s) && Commit(s.db, e, r).status.Done? && UniqueRows(PutIndexed(s, e, r).db.rows)
    requires var s' := PutIndexed(s, e, r);
      i < |s'.db.rows| && IsCurrentMemory(s'.db.current, s'.db.rows[i].workspace)(s'.db.rows[i])
    ensures var s' := PutIndexed(s, e, r); var x := s'.db.rows[i];
      Filter(For(x.workspace, x.id), s'.index) == [IndexOf(x)]
  {
    var s' := PutIndexed(s, e, r);
    var x := s'.db.rows[i];
    RefreshLookup(s.index, r, x.workspace, x.id);
    if ObjectOf(x) == ObjectOf(r) {
      CurrentRowUnique(s'.db, i, |s.db.rows|);
    } else {
      assert s.db.rows[i] == x && IsCurrentMemory(s.db.current, x.workspace)(x);
    }
  }

  lemma PutKeepsExact(s: Indexed, e: Event, r: Row, base: int)
    requires Consistent(s.db) && Exact(s)
    requires Describes(e, r) && r.version == base + 1
    requires r.kind.Scope? ==> base == 0
    requires base == 0 || (1 <= base && ObjectOf(r) in s.db.current && base <= s.db.current[ObjectOf(r)])
    ensures Consistent(PutIndexed(s, e, r).db) && Exact(PutIndexed(s, e, r))
  {
    CommitKeepsConsistent(s.db, e, r, base);
    var s' := PutIndexed(s, e, r);
    if Commit(s.db, e, r).status.Done? {
      forall i | 0 <= i < |s'.db.rows| && IsCurrentMemory(s'.db.current, s'.db.rows[i].workspace)(s'.db.rows[i])
        ensures Filter(For(s'.db.rows[i].workspace, s'.db.rows[i].id), s'.index) == [IndexOf(s'.db.rows[i])]
      {
        PutIndexesRow(s, e, r, i);
      }
      forall w, id | ObjectKey(Memory, w, id) !in s'.db.current ensures Filter(For(w, id), s'.index) == [] {
        RefreshLookup(s.index, r, w, id);
      }
    }
  }

  /** Along every sequential run the index holds exactly one row for each current memory. */
  lemma {:induction false} SequentialRunsKeepTheIndexExact(writes: seq<Write>)
    ensures Consistent(AfterWrites(writes).db) && Exact(AfterWrites(writes))
  {
    if writes != [] {
      var n := |writes| - 1;
      SequentialRunsKeepTheIndexExact(writes[..n]);
      var s, w := AfterWrites(writes[..n]), writes[n];
      var base := BaseOf(s.db, w);
      if Legal(w) && base.Some? {
        PutKeepsExact(s, WrittenEvent(w, base.value), WrittenRow(w, base.value), base.value);
      }
    }
  }

  // --- Rebuilding ------------------------------------------------------------------------------

  /** Exactness leaves only the order of the index rows open. */
  lemma ExactUpToOrder(db: Db, index: seq<IndexRow>, index': seq<IndexRow>)
    requires Consistent(db) && Exact(Indexed(db, index)) && Exact(Indexed(db, index'))
    ensures multiset(index) == multiset(index')
  {
    forall x: IndexRow ensures multiset(index)[x] == multiset(index')[x] {
      var p := For(x.workspace, x.id);
      SameLookup(db, index, index', x.workspace, x.id);
      FilterMultiplicity(p, index);
      FilterMultiplicity(p, index');
      assert multiset(Filter(p, index))[x] == multiset(index)[x];
      assert multiset(Filter(p, index'))[x] == multiset(index')[x];
    }
  }

  lemma SameLookup(db: Db, index: seq<IndexRow>, index': seq<IndexRow>, w: string, id: string)
    requires Consistent(db) && Exact(Indexed(db, index)) && Exact(Indexed(db, index'))
    ensures Filter(For(w, id), index) == Filter(For(w, id), index')
  {
    var k := ObjectKey(Memory, w, id);
    if k in db.current {
      assert HasRow(db.rows, k, db.current[k]);
      var i :| 0 <= i < |db.rows| && ObjectOf(db.rows[i]) == k && db.rows[i].version == db.current[k];
      assert IsCurrentMemory(db.current, db.rows[i].workspace)(db.rows[i]);
    }
  }

  predicate CurrentMemoryFor(current: map<ObjectKey, int>, r: Row, w: string, id: string) {
    IsCurrentMemory(current, w)(r) && r.id == id
  }

  function RebuiltRows(current: map<ObjectKey, int>, rows: seq<Row>, w: string): seq<IndexRow> {
    Transform(RebuiltIndexOf, Filter(IsCurrentMemory(current, w), rows))
  }

  lemma RebuiltSnoc(current: map<ObjectKey, int>, rows: seq<Row>, r: Row, w: string, id: string)
    ensures Filter(For(w, id), RebuiltRows(current, rows + [r], w))
         == Filter(For(w, id), RebuiltRows(current, rows, w))
            + if CurrentMemoryFor(current, r, w, id) then [IndexOf(r)] else []
  {
    var p := IsCurrentMemory(current, w);
    FilterSnoc(p, rows, r);
    if p(r) {
      TextsAgree(r);
      assert RebuiltRows(current, rows + [r], w) == RebuiltRows(current, rows, w) + [IndexOf(r)];
      FilterSnoc(For(w, id), RebuiltRows(current, rows, w), IndexOf(r));
      assert For(w, id)(IndexOf(r)) <==> CurrentMemoryFor(current, r, w, id);
    } else {
      assert Filter(p, rows + [r]) == Filter(p, rows);
    }
  }

  lemma {:induction false} RebuiltNone(current: map<ObjectKey, int>, rows: seq<Row>, w: string, id: string)
    requires forall i :: 0 <= i < |rows| ==> !CurrentMemoryFor(current, rows[i], w, id)
    ensures Filter(For(w, id), RebuiltRows(current, rows, w)) == []
  {
    if rows != [] {
      var n := |rows| - 1;
      RebuiltNone(current, rows[..n], w, id);
      RebuiltSnoc(current, rows[..n], rows[n], w, id);
      assert rows == rows[..n] + [rows[n]];
    }
  }

  lemma {:induction false} RebuiltOne(current: map<ObjectKey, int>, rows: seq<Row>, w: string, id: string, i: nat)
    requires i < |rows| && CurrentMemoryFor(current, rows[i], w, id)
    requires forall j :: 0 <= j < |rows| && j != i ==> !CurrentMemoryFor(current, rows[j], w, id)
    ensures Filter(For(w, id), RebuiltRows(current, rows, w)) == [IndexOf(rows[i])]
  {
    var n := |rows| - 1;
    assert rows == rows[..n] + [rows[n]];
    RebuiltSnoc(current, rows[..n], rows[n], w, id);
    if i == n {
      RebuiltNone(current, rows[..n], w, id);
    } else {
      RebuiltOne(current, rows[..n], w, id, i);
    }
  }

  lemma {:induction false} OtherWorkspacesKept(index: seq<IndexRow>, workspace: string, w: string, id: string)
    ensures Filter(For(w, id), Filter((x: IndexRow) => x.workspace != workspace, index))
         == if w == workspace then [] else Filter(For(w, id), index)
  {
    if index != [] {
      var n := |index| - 1;
      var p := (x: IndexRow) => x.workspace != workspace;
      OtherWorkspacesKept(index[..n], workspace, w, id);
      FilterAppend(For(w, id), Filter(p, index[..n]), if p(index[n]) then [index[n]] else []);
    }
  }

  lemma {:induction false} RebuiltElsewhere(current: map<ObjectKey, int>, rows: seq<Row>, workspace: string,
                                            w: string, id: string)
    requires w != workspace
    ensures Filter(For(w, id), RebuiltRows(current, rows, workspace)) == []
  {
    if rows != [] {
      var n := |rows| - 1;
      RebuiltElsewhere(current, rows[..n], workspace, w, id);
      var p := IsCurrentMemory(current, workspace);
      if p(rows[n]) {
        assert RebuiltRows(current, rows, workspace)
          == RebuiltRows(current, rows[..n], workspace) + [RebuiltIndexOf(rows[n])];
        FilterSnoc(For(w, id), RebuiltRows(current, rows[..n], workspace), RebuiltIndexOf(rows[n]));
        assert rows[n].workspace == workspace && !For(w, id)(RebuiltIndexOf(rows[n]));
      } else {
        assert RebuiltRows(current, rows, workspace) == RebuiltRows(current, rows[..n], workspace);
      }
    }
  }

  lemma RebuildLookup(db: Db, index: seq<IndexRow>, workspace: string, w: string, id: string)
    ensures Filter(For(w, id), RebuildIndex(db, index, workspace))
         == if w == workspace then Filter(For(w, id), RebuiltRows(db.current, db.rows, workspace))
            else Filter(For(w, id), index)
  {
    var others := Filter((x: IndexRow) => x.workspace != workspace, index);
    var rebuilt := RebuiltRows(db.current, db.rows, workspace);
    FilterAppend(For(w, id), others, rebuilt);
    OtherWorkspacesKept(index, workspace, w, id);
    if w != workspace {
      RebuiltElsewhere(db.current, db.rows, workspace, w, id);
    }
  }

  /** A rebuild makes the workspace's part of the index exact, whatever it held, and keeps the rest. */
  lemma RebuildMakesTheIndexExact(db: Db, index: seq<IndexRow>, workspace: string, w: string, id: string)
    requires UniqueRows(db.rows)
    ensures var k := ObjectKey(Memory, workspace, id);
      && (forall i :: 0 <= i < |db.rows| && CurrentMemoryFor(db.current, db.rows[i], workspace, id) ==>
            Filter(For(workspace, id), RebuildIndex(db, index, workspace)) == [IndexOf(db.rows[i])])
      && (k !in db.current ==> Filter(For(workspace, id), RebuildIndex(db, index, workspace)) == [])
    ensures w != workspace ==> Filter(For(w, id), RebuildIndex(db, index, workspace)) == Filter(For(w, id), index)
  {
    RebuildLookup(db, index, workspace, workspace, id);
    RebuildLookup(db, index, workspace, w, id);
    forall i | 0 <= i < |db.rows| && CurrentMemoryFor(db.current, db.rows[i], workspace, id)
      ensures Filter(For(workspace, id), RebuiltRows(db.current, db.rows, workspace)) == [IndexOf(db.rows[i])]
    {
      forall j | 0 <= j < |db.rows| && j != i ensures !CurrentMemoryFor(db.current, db.rows[j], workspace, id) {
        CurrentRowUnique(db, i, j);
      }
      RebuiltOne(db.current, db.rows, workspace, id, i);
    }
    if ObjectKey(Memory, workspace, id) !in db.current {
      RebuiltNone(db.current, db.rows, workspace, id);
    }
  }

  /**
   A rebuild repairs a store that holds one workspace, however its rows got there and whatever pointers
   and index they left: the index is exact for the rebuilt pointers.
   */
  lemma RebuildRepairsTheIndex(db: Db, index: seq<IndexRow>, workspace: string)
    requires UniqueRows(db.rows) && forall i :: 0 <= i < |db.rows| ==> db.rows[i].workspace == workspace
    requires forall k :: k in db.current ==> k.workspace == workspace
    requires forall x :: x in index ==> x.workspace == workspace
    ensures var rebuilt := Rebuild(db, workspace); Exact(Indexed(rebuilt, RebuildIndex(rebuilt, index, workspace)))
  {
    var rebuilt := Rebuild(db, workspace);
    var index' := RebuildIndex(rebuilt, index, workspace);
    forall i | 0 <= i < |rebuilt.rows| && IsCurrentMemory(rebuilt.current, rebuilt.rows[i].workspace)(rebuilt.rows[i])
      ensures Filter(For(rebuilt.rows[i].workspace, rebuilt.rows[i].id), index') == [IndexOf(rebuilt.rows[i])]
    {
      var r := rebuilt.rows[i];
      RebuildMakesTheIndexExact(rebuilt, index, workspace, workspace, r.id);
      assert CurrentMemoryFor(rebuilt.current, r, workspace, r.id);
    }
    forall w, id | ObjectKey(Memory, w, id) !in rebuilt.current ensures Filter(For(w, id), index') == [] {
      RebuildMakesTheIndexExact(rebuilt, index, workspace, w, id);
      if w != workspace { NoneElsewhere(index, workspace, w, id); }
    }
  }

  lemma {:induction false} NoneElsewhere(index: seq<IndexRow>, workspace: string, w: string, id: string)
    requires w != workspace && forall x :: x in index ==> x.workspace == workspace
    ensures Filter(For(w, id), index) == []
  {
    if index != [] {
      var n := |index| - 1;
      assert index[n] in index;
      NoneElsewhere(index[..n], workspace, w, id);
    }
  }

  /** In every state a sequential run reaches, a rebuild changes no pointer and at most the order of the index rows. */
  lemma RebuildIsNoOpAfterSequentialRuns(writes: seq<Write>, workspace: string)
    ensures var s := AfterWrites(writes);
      && Rebuild(s.db, workspace) == s.db
      && Exact(Indexed(s.db, RebuildIndex(s.db, s.index, workspace)))
      && multiset(RebuildIndex(s.db, s.index, workspace)) == multiset(s.index)
  {
    SequentialRunsKeepTheIndexExact(writes);
    var s := AfterWrites(writes);
    RebuildIsNoOp(s.db, workspace);
    var index := RebuildIndex(s.db, s.index, workspace);
    forall i | 0 <= i < |s.db.rows| && IsCurrentMemory(s.db.current, s.db.rows[i].workspace)(s.db.rows[i])
      ensures Filter(For(s.db.rows[i].workspace, s.db.rows[i].id), index) == [IndexOf(s.db.rows[i])]
    {
      var r := s.db.rows[i];
      RebuildMakesTheIndexExact(s.db, s.index, workspace, r.workspace, r.id);
      if r.workspace == workspace { assert CurrentMemoryFor(s.db.current, r, workspace, r.id); }
    }
    forall w, id | ObjectKey(Memory, w, id) !in s.db.current ensures Filter(For(w, id), index) == [] {
      RebuildMakesTheIndexExact(s.db, s.index, workspace, w, id);
    }
    ExactUpToOrder(s.db, s.index, index);
  }
}
