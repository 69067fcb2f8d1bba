/**
 Interleaved runs of writers against sequential ones: whatever the interleaving, the tables are those of
 the committed writes done one after another in commit order.
 */
module Linearization {
  import opened Sequences
  import opened EventStore
  import opened Writers
  import MemoryIndex

  /** Equal tables up to the embedding column. */
  ghost predicate SameTables(d: Db, d': Db) {
    && d.events == d'.events && d.current == d'.current && |d.rows| == |d'.rows|
    && forall i :: 0 <= i < |d.rows| ==> SameContent(d.rows[i], d'.rows[i])
  }

  /** The write that a writer about to commit asks for. */
  function WriteOf(op: Op, a: Action): MemoryIndex.Write
    requires a.CommitWrite?
  {
    MemoryIndex.Write(a.eventId, op.workspace, op.key, op.kind, op.id, op.create, a.canonicalKey, a.text, a.rest,
      a.embedding)
  }

  predicate Commits(s: System, a: Action) {
    && a.CommitWrite? && a.w in s.writers && s.writers[a.w].Based?
    && Commit(s.db, EventOf(s.writers[a.w], a), RowOf(s.writers[a.w], a)).status.Done?
  }

  /** The writes of a run that committed, in commit order. */
  function Committed(actions: seq<Action>): seq<MemoryIndex.Write> {
    if actions == [] then []
    else
      var n := |actions| - 1;
      var before, s := Committed(actions[..n]), After(actions[..n]);
      if Commits(s, actions[n]) then before + [WriteOf(s.writers[actions[n].w].op, actions[n])] else before
  }

  /** A creation starts from no version, every other write from one that it read. */
  ghost predicate BasesMatch(s: System) {
    forall w :: w in s.writers && s.writers[w].Based? ==> (s.writers[w].op.create <==> s.writers[w].base == 0)
  }

  lemma {:induction false} EveryRunMatchesBases(actions: seq<Action>)
    ensures BasesMatch(After(actions))
  {
    if actions != [] {
      var n := |actions| - 1;
      EveryRunMatchesBases(actions[..n]);
      EveryRunKeepsInvariant(actions[..n]);
      ReadMatchesBases(After(actions[..n]), actions[n]);
    }
  }

  lemma ReadMatchesBases(s: System, a: Action)
    requires BasesMatch(s) && Consistent(s.db)
    ensures BasesMatch(Step(s, a))
  {
  }

  lemma SameTablesFit(d: Db, d': Db, e: Event, r: Row)
    requires SameTables(d, d')
    ensures EventFits(d, e) <==> EventFits(d', e)
    ensures RowFits(d, r) <==> RowFits(d', r)
  {
    forall i | 0 <= i < |d.rows| ensures Clash(d.rows[i], r) <==> Clash(d'.rows[i], r) {
      assert SameContent(d.rows[i], d'.rows[i]);
    }
  }

  /** A commit of an interleaved run is a whole write of the sequential one. */
  lemma CommitIsAWrite(s: System, a: Action, t: MemoryIndex.Indexed)
    requires Invariant(s) && BasesMatch(s) && Commits(s, a) && SameTables(s.db, t.db)
    ensures SameTables(Step(s, a).db, MemoryIndex.ServiceWrite(t, WriteOf(s.writers[a.w].op, a)).db)
  {
    var p := s.writers[a.w];
    var e, r, w := EventOf(p, a), RowOf(p, a), WriteOf(p.op, a);
    CommitKeepsConsistent(s.db, e, r, p.base);
    SameTablesFit(s.db, t.db, e, r);
    assert MemoryIndex.Legal(w) && !HasKey(t.db, w.workspace, w.key);
    assert MemoryIndex.BaseOf(t.db, w) == Some(p.base);
    assert MemoryIndex.WrittenEvent(w, p.base) == e && MemoryIndex.WrittenRow(w, p.base) == r;
    AppendKeepsSameTables(s.db, t.db, e, r);
  }

  lemma AppendKeepsSameTables(d: Db, d': Db, e: Event, r: Row)
    requires SameTables(d, d') && Commit(d, e, r).status.Done? && Commit(d', e, r).status.Done?
    ensures SameTables(Commit(d, e, r).db, Commit(d', e, r).db)
  {
  }

  lemma OtherStepsKeepTables(s: System, a: Action, d: Db)
    requires SameTables(s.db, d) && !Commits(s, a)
    ensures SameTables(Step(s, a).db, d)
  {
    match a
    case MarkEmbedding(workspace, id, version, state) =>
      var marked := SetEmbeddingState(s.db, workspace, id, version, state);
      forall i | 0 <= i < |d.rows| ensures SameContent(marked.rows[i], d.rows[i]) {
        assert SameContent(s.db.rows[i], marked.rows[i]);
      }
    case _ =>
  }

  /** Every interleaved run ends in the tables of the sequential run of its committed writes. */
  lemma {:induction false} EveryRunIsSequential(actions: seq<Action>)
    ensures SameTables(After(actions).db, MemoryIndex.AfterWrites(Committed(actions)).db)
  {
    if actions != [] {
      var n := |actions| - 1;
      var s, t := After(actions[..n]), MemoryIndex.AfterWrites(Committed(actions[..n]));
      EveryRunIsSequential(actions[..n]);
      if Commits(s, actions[n]) {
        EveryRunKeepsInvariant(actions[..n]);
        EveryRunMatchesBases(actions[..n]);
        CommitIsAWrite(s, actions[n], t);
        AppendedWrite(Committed(actions[..n]), WriteOf(s.writers[actions[n].w].op, actions[n]));
      } else {
        OtherStepsKeepTables(s, actions[n], t.db);
      }
    }
  }

  /** A write of the sequential run is the four steps of a writer that nobody interferes with. */
  lemma SequentialWriteIsWriteAlone(t: MemoryIndex.Indexed, w: MemoryIndex.Write, n: nat)
    ensures var a := CommitWrite(n, w.eventId, w.canonicalKey, w.text, w.rest, w.embedding);
      MemoryIndex.ServiceWrite(t, w).db
        == WriteAlone(System(t.db, map[]), n, Op(w.workspace, w.key, w.kind, w.id, w.create), a).db
  {
    var a := CommitWrite(n, w.eventId, w.canonicalKey, w.text, w.rest, w.embedding);
    var op, s := Op(w.workspace, w.key, w.kind, w.id, w.create), System(t.db, map[]);
    if op.Legal() && !HasKey(t.db, op.workspace, op.key) && (op.create || op.Object() in t.db.current) {
      PreparedAlone(s, n, op, if op.create then 0 else t.db.current[op.Object()]);
    } else {
      NeverPrepared(s, a, op);
    }
  }

  lemma AppendedWrite(writes: seq<MemoryIndex.Write>, w: MemoryIndex.Write)
    ensures MemoryIndex.AfterWrites(writes + [w]) == MemoryIndex.ServiceWrite(MemoryIndex.AfterWrites(writes), w)
  {
    assert (writes + [w])[..|writes|] == writes;
  }
}
