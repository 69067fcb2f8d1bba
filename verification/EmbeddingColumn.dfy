/**
 The embedding column of the memory rows is the state table of the embedding queue: every statement that touches
 the rows does to the column what the queue's tables say.
 */
module EmbeddingColumn {
  import opened EventStore
  import opened Sequences
  import opened Snapshots
  import opened ImportResume
  import opened EmbeddingJobs

  function StateOf(text: string): RowState {
    if text == "pending" then Pending
    else if text == "ready" then Ready
    else if text == "failed" then Failed
    else NotConfigured
  }

  function KeyOf(r: Row): Key {
    Key(r.workspace, r.id, r.version)
  }

  /** The column as a table, read off the rows. */
  function Column(rows: seq<Row>): map<Key, RowState> {
    if rows == [] then map[]
    else
      var before, r := Column(rows[..|rows| - 1]), rows[|rows| - 1];
      if r.kind.Memory? then before[KeyOf(r) := StateOf(r.embedding)] else before
  }

  lemma ColumnSnoc(rows: seq<Row>, r: Row)
    ensures Column(rows + [r])
         == if r.kind.Memory? then Column(rows)[KeyOf(r) := StateOf(r.embedding)] else Column(rows)
  {
    assert (rows + [r])[..|rows|] == rows;
  }

  lemma {:induction false} ColumnKeys(rows: seq<Row>, k: Key)
    ensures k in Column(rows) <==> exists i :: 0 <= i < |rows| && rows[i].kind.Memory? && KeyOf(rows[i]) == k
  {
    if rows != [] {
      var n := |rows| - 1;
      ColumnKeys(rows[..n], k);
      assert rows == rows[..n] + [rows[n]];
      if k in Column(rows[..n]) {
        var i :| 0 <= i < n && rows[..n][i].kind.Memory? && KeyOf(rows[..n][i]) == k;
        assert rows[i] == rows[..n][i];
      }
    }
  }

  lemma NewRowIsNewKey(db: Db, r: Row)
    requires RowFits(db, r) && r.kind.Memory?
    ensures KeyOf(r) !in Column(db.rows)
  {
    ColumnKeys(db.rows, KeyOf(r));
  }

  /** A committed memory row adds its key with its state, as the queue's tables record it. */
  lemma CommitExtendsColumn(db: Db, e: Event, r: Row, t: Tables)
    requires Commit(db, e, r).status.Done? && t.states == Column(db.rows)
    ensures var column := Column(Commit(db, e, r).db.rows);
      if r.kind.Memory? then
        && column == InsertImported(t, Exported(KeyOf(r), StateOf(r.embedding))).states
        && (r.embedding == "pending" ==> column == PutMemory(t, KeyOf(r), true).states)
        && (r.embedding == "not_configured" ==> column == PutMemory(t, KeyOf(r), false).states)
      else column == t.states
  {
    ColumnSnoc(db.rows, r);
    if r.kind.Memory? {
      NewRowIsNewKey(db, r);
      NewKeyOutcome(t, KeyOf(r), StateOf(r.embedding));
    }
  }

  lemma NewKeyOutcome(t: Tables, k: Key, state: RowState)
    requires k !in t.states
    ensures InsertImported(t, Exported(k, state)).states == t.states[k := state]
    ensures PutMemory(t, k, true).states == t.states[k := Pending]
    ensures PutMemory(t, k, false).states == t.states[k := NotConfigured]
  {
  }

  lemma {:induction false} MarkedColumn(rows: seq<Row>, marked: seq<Row>, k: Key, state: string)
    requires |marked| == |rows|
    requires forall i :: 0 <= i < |rows| ==>
      marked[i] == if rows[i].kind.Memory? && KeyOf(rows[i]) == k then rows[i].(embedding := state) else rows[i]
    ensures Column(marked) == if k in Column(rows) then Column(rows)[k := StateOf(state)] else Column(rows)
  {
    if rows != [] {
      var n := |rows| - 1;
      MarkedColumn(rows[..n], marked[..n], k, state);
    }
  }

  /** Updating the column of one version is setting its state. */
  lemma MarkIsSetState(db: Db, workspace: string, id: string, version: int, state: string, t: Tables)
    requires t.states == Column(db.rows)
    ensures Column(EventStore.SetEmbeddingState(db, workspace, id, version, state).rows)
         == SetState(t, Key(workspace, id, version), StateOf(state)).states
    ensures StateOf("pending") == Pending && StateOf("ready") == Ready && StateOf("failed") == Failed
    ensures StateOf("not_configured") == NotConfigured
  {
    assert "failed"[0] != "ready"[0] && "pending"[0] != "ready"[0] && "not_configured"[0] != "ready"[0];
    var db' := EventStore.SetEmbeddingState(db, workspace, id, version, state);
    MarkedColumn(db.rows, db'.rows, Key(workspace, id, version), state);
  }

  // --- Imports -----------------------------------------------------------------------------------------

  const NO_TABLES := Tables(map[], map[], {})

  /** The memories among the rows, with their states, in order. */
  function ExportedOf(rows: seq<Row>): seq<Exported> {
    if rows == [] then []
    else
      var r := rows[|rows| - 1];
      ExportedOf(rows[..|rows| - 1]) + if r.kind.Memory? then [Exported(KeyOf(r), StateOf(r.embedding))] else []
  }

  lemma InsertAllSnoc(t: Tables, rows: seq<Exported>, x: Exported)
    ensures InsertAll(t, rows + [x]) == InsertImported(InsertAll(t, rows), x)
  {
    assert (rows + [x])[..|rows|] == rows;
  }

  lemma {:induction false} InsertedColumn(rows: seq<Row>)
    requires UniqueRows(rows)
    ensures InsertAll(NO_TABLES, ExportedOf(rows)).states == Column(rows)
  {
    if rows != [] {
      var n := |rows| - 1;
      InsertedColumn(rows[..n]);
      if rows[n].kind.Memory? {
        var x := Exported(KeyOf(rows[n]), StateOf(rows[n].embedding));
        InsertAllSnoc(NO_TABLES, ExportedOf(rows[..n]), x);
        ColumnKeys(rows[..n], KeyOf(rows[n]));
      } else {
        assert ExportedOf(rows) == ExportedOf(rows[..n]);
      }
    }
  }

  /**
   The import of a snapshot leaves in the column what the queue's import leaves in the state table: the imported
   rows are the ones it inserts, in the order of the events.
   */
  lemma ImportedColumn(snap: Snapshot)
    requires Covered(snap)
    ensures var db := Import(EMPTY, snap, {}).db;
      && db.rows == FoundRows(snap, snap.events)
      && Column(db.rows) == ImportMemories(NO_TABLES, ExportedOf(db.rows), false).states
  {
    ResumeReachesTheUninterruptedImport(snap, []);
    var rows := FoundRows(snap, snap.events);
    CoveredDistinct(snap);
    forall i, j | 0 <= i < j < |rows| ensures !Clash(rows[i], rows[j]) {
      FoundClash(snap, snap.events[i], snap.events[j]);
    }
    InsertedColumn(rows);
  }
}
