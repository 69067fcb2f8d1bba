/**
 Any number of service writers on one store. A write is three separate steps, the idempotency
 lookup, the read of the current version and the commit, and the steps of all writers interleave
 in any order, together with embedding-column updates.
 */
module Writers {
  import opened Sequences
  import opened EventStore

  /** One service write: a creation, or a new version of an existing object. */
  datatype Op = Op(workspace: string, key: string, kind: Kind, id: string, create: bool) {
    function Object(): ObjectKey { ObjectKey(kind, workspace, id) }

    /** Scopes and relationships are only ever created. */
    predicate Legal() {
      && !kind.Unsupported?
      && (kind.Scope? || kind.Relationship? ==> create)
    }
  }

  /** Where a writer stands; a writer that is absent is between writes. */
  datatype Progress = Begun(op: Op) | KeyUnused(op: Op) | Based(op: Op, base: int)

  datatype System = System(db: Db, writers: map<nat, Progress>)

  datatype Action =
    | Begin(w: nat, op: Op)
    | Lookup(w: nat)
    | ReadCurrent(w: nat)
    | CommitWrite(w: nat, eventId: string, canonicalKey: string, text: MemoryText, rest: string, embedding: string)
    | Abandon(w: nat)
    | MarkEmbedding(workspace: string, id: string, version: int, state: string)

  const START := System(EMPTY, map[])

  function RowOf(p: Progress, a: Action): Row
    requires p.Based? && a.CommitWrite?
  {
    Row(p.op.kind, p.op.workspace, p.op.id, p.base + 1, a.canonicalKey, a.text, a.rest, a.embedding)
  }

  function EventOf(p: Progress, a: Action): Event
    requires p.Based? && a.CommitWrite?
  {
    Event(a.eventId, p.op.workspace, p.op.kind, p.op.id, p.base + 1, p.op.key, Some(RowOf(p, a)))
  }

  /** One step; an action that is not enabled does nothing. */
  function Step(s: System, a: Action): System {
    match a
    case Begin(w, op) =>
      if w in s.writers || !op.Legal() then s else s.(writers := s.writers[w := Begun(op)])
    case Lookup(w) =>
      if w !in s.writers || !s.writers[w].Begun? then s
      else
        var op := s.writers[w].op;
        if HasKey(s.db, op.workspace, op.key) then s.(writers := s.writers - {w})
        else s.(writers := s.writers[w := KeyUnused(op)])
    case ReadCurrent(w) =>
      if w !in s.writers || !s.writers[w].KeyUnused? then s
      else
        var op := s.writers[w].op;
        if op.create then s.(writers := s.writers[w := Based(op, 0)])
        else if op.Object() in s.db.current then s.(writers := s.writers[w := Based(op, s.db.current[op.Object()])])
        else s.(writers := s.writers - {w})
    case CommitWrite(w, _, _, _, _, _) =>
      if w !in s.writers || !s.writers[w].Based? then s
      else
        var p := s.writers[w];
        System(Commit(s.db, EventOf(p, a), RowOf(p, a)).db, s.writers - {w})
    case Abandon(w) => s.(writers := s.writers - {w})
    case MarkEmbedding(workspace, id, version, state) =>
      s.(db := SetEmbeddingState(s.db, workspace, id, version, state))
  }

  /** The state after a whole run from the empty store. */
  function After(actions: seq<Action>): System {
    if actions == [] then START
    else Step(After(actions[..|actions| - 1]), actions[|actions| - 1])
  }

  /** A version that a writer has read may be stale, but was current once. */
  ghost predicate BasesOnceCurrent(s: System) {
    forall w :: w in s.writers ==>
      && s.writers[w].op.Legal()
      && (s.writers[w].Based? ==>
            var base, k := s.writers[w].base, s.writers[w].op.Object();
            base == 0 || (!k.kind.Scope? && 1 <= base && k in s.db.current && base <= s.db.current[k]))
  }

  ghost predicate Invariant(s: System) {
    Consistent(s.db) && BasesOnceCurrent(s)
  }

  lemma StepKeepsInvariant(s: System, a: Action)
    requires Invariant(s)
    ensures Invariant(Step(s, a))
    ensures Grows(s.db, Step(s, a).db)
  {
    match a
    case CommitWrite(w, _, _, _, _, _) => CommitKeepsInvariant(s, a);
    case MarkEmbedding(workspace, id, version, state) =>
      SetEmbeddingStateKeepsConsistent(s.db, workspace, id, version, state);
    case _ => PreparingKeepsInvariant(s, a);
  }

  /** Before its commit a writer only reads. */
  lemma PreparingKeepsInvariant(s: System, a: Action)
    requires Invariant(s) && !a.CommitWrite? && !a.MarkEmbedding?
    ensures Invariant(Step(s, a)) && Step(s, a).db == s.db
  {
  }

  lemma CommitKeepsInvariant(s: System, a: Action)
    requires Invariant(s) && a.CommitWrite?
    ensures Invariant(Step(s, a)) && Grows(s.db, Step(s, a).db)
  {
    if a.w in s.writers && s.writers[a.w].Based? {
      var p := s.writers[a.w];
      CommitKeepsConsistent(s.db, EventOf(p, a), RowOf(p, a), p.base);
    }
  }

  lemma {:induction false} EveryRunKeepsInvariant(actions: seq<Action>)
    ensures Invariant(After(actions))
  {
    if actions != [] {
      var n := |actions| - 1;
      EveryRunKeepsInvariant(actions[..n]);
      StepKeepsInvariant(After(actions[..n]), actions[n]);
    }
  }

  lemma GrowsTransitive(a: Db, b: Db, c: Db)
    requires Grows(a, b) && Grows(b, c)
    ensures Grows(a, c)
  {
  }

  /** The log only grows, rows are immutable and pointers only advance, between any two points of any run. */
  lemma {:induction false} RunsOnlyGrow(actions: seq<Action>, m: nat)
    requires m <= |actions|
    ensures Grows(After(actions[..m]).db, After(actions).db)
    ensures forall i :: 0 <= i < |After(actions[..m]).db.rows| ==>
      var r, r' := After(actions[..m]).db.rows[i], After(actions).db.rows[i];
      && r'.kind == r.kind && r'.workspace == r.workspace && r'.id == r.id && r'.version == r.version
      && r'.canonicalKey == r.canonicalKey && r'.text == r.text && r'.rest == r.rest
  {
    if m == |actions| {
      assert actions[..m] == actions;
    } else {
      var n := |actions| - 1;
      RunsOnlyGrow(actions[..n], m);
      assert actions[..n][..m] == actions[..m];
      EveryRunKeepsInvariant(actions[..n]);
      StepKeepsInvariant(After(actions[..n]), actions[n]);
      GrowsTransitive(After(actions[..m]).db, After(actions[..n]).db, After(actions).db);
    }
  }

  // --- What the invariant says to a reader of the tables --------------------------------------

  /** In every reachable state an object's versions are exactly 1 to its current pointer, one row each. */
  lemma VersionsAreExactlyOneToCurrent(actions: seq<Action>, k: ObjectKey, version: int)
    requires !k.kind.Scope?
    ensures var db := After(actions).db;
      && (HasRow(db.rows, k, version) <==> k in db.current && 1 <= version <= db.current[k])
      && (forall i, j | 0 <= i < j < |db.rows| && ObjectOf(db.rows[i]) == ObjectOf(db.rows[j]) == k ::
            db.rows[i].version != db.rows[j].version)
  {
    EveryRunKeepsInvariant(actions);
    var db := After(actions).db;
    forall i, j | 0 <= i < j < |db.rows| && ObjectOf(db.rows[i]) == ObjectOf(db.rows[j]) == k
      ensures db.rows[i].version != db.rows[j].version
    {
      assert !Clash(db.rows[i], db.rows[j]);
    }
  }

  /** At most one event for each idempotency key of a workspace, and no event id twice. */
  lemma AtMostOneEventPerKey(actions: seq<Action>, i: nat, j: nat)
    requires i < |After(actions).db.events| && j < |After(actions).db.events|
    requires var es := After(actions).db.events;
      (es[i].workspace == es[j].workspace && es[i].key == es[j].key) || es[i].id == es[j].id
    ensures i == j
  {
    EveryRunKeepsInvariant(actions);
  }

  /**
   A commit succeeds exactly when no event has its event id, none of its workspace has its key, and the version
   it read is still the current one: of all writers that read one version, at most one commits. A scope has no
   versions; instead no scope may have its id, and none of its workspace its canonical key.
   */
  lemma CommitSucceedsExactlyOnCurrentBase(actions: seq<Action>, a: Action)
    requires a.CommitWrite?
    requires var s := After(actions); a.w in s.writers && s.writers[a.w].Based?
    ensures var s := After(actions); var p, k := s.writers[a.w], s.writers[a.w].op.Object();
      Commit(s.db, EventOf(p, a), RowOf(p, a)).status.Done? <==>
        && (forall e :: e in s.db.events ==>
              e.id != a.eventId && !(e.workspace == p.op.workspace && e.key == p.op.key))
        && if p.op.kind.Scope? then
             forall r :: r in s.db.rows && r.kind.Scope? ==>
               r.id != p.op.id && !(r.workspace == p.op.workspace && r.canonicalKey == a.canonicalKey)
           else p.base == if k in s.db.current then s.db.current[k] else 0
  {
    EveryRunKeepsInvariant(actions);
    var s := After(actions);
    var p := s.writers[a.w];
    CommitKeepsConsistent(s.db, EventOf(p, a), RowOf(p, a), p.base);
    EventFitsExactly(s.db, EventOf(p, a));
    RowFitsExactly(s.db, RowOf(p, a));
    if !p.op.kind.Scope? && p.base == if p.op.Object() in s.db.current then s.db.current[p.op.Object()] else 0 {
      NextVersionFits(s.db, RowOf(p, a));
    }
  }

  /** The version after the pointer has no row yet. */
  lemma NextVersionFits(db: Db, r: Row)
    requires Consistent(db) && !r.kind.Scope?
    requires r.version == 1 + if ObjectOf(r) in db.current then db.current[ObjectOf(r)] else 0
    ensures RowFits(db, r)
  {
    forall i | 0 <= i < |db.rows| ensures !Clash(db.rows[i], r) {
      if db.rows[i].kind == r.kind && ObjectOf(db.rows[i]) == ObjectOf(r) {
        assert db.rows[i].version < r.version;
      }
    }
  }

  /** A writer left alone: the four steps of its write one after another. */
  function WriteAlone(s: System, w: nat, op: Op, a: Action): System {
    Step(Step(Step(Step(s, Begin(w, op)), Lookup(w)), ReadCurrent(w)), a)
  }

  /**
   A whole write without interference records exactly what was asked for, as the next version of its object, if it
   is legal, its event id and its key are unused, and its object is new or, for a version, there; in every other
   case it changes nothing. In particular a write that is repeated under its key changes nothing.
   */
  lemma WriteAloneSucceedsExactly(actions: seq<Action>, op: Op, a: Action)
    requires a.CommitWrite? && a.w !in After(actions).writers
    ensures var s, k := After(actions), op.Object();
      var version := 1 + if k in s.db.current then s.db.current[k] else 0;
      var row := Row(op.kind, op.workspace, op.id, version, a.canonicalKey, a.text, a.rest, a.embedding);
      var event := Event(a.eventId, op.workspace, op.kind, op.id, version, op.key, Some(row));
      WriteAlone(s, a.w, op, a) ==
        if && !op.kind.Unsupported? && (op.kind.Scope? || op.kind.Relationship? ==> op.create)
           && (forall e :: e in s.db.events ==> e.id != a.eventId && !(e.workspace == op.workspace && e.key == op.key))
           && (op.create <==> k !in s.db.current)
           && (op.kind.Scope? ==> forall r :: r in s.db.rows && r.kind.Scope? ==>
                 r.id != op.id && !(r.workspace == op.workspace && r.canonicalKey == a.canonicalKey))
        then
          System(Db(s.db.events + [event], s.db.rows + [row],
                    if op.kind.Scope? then s.db.current else s.db.current[k := version]), s.writers)
        else s
  {
    EveryRunKeepsInvariant(actions);
    WriteAloneFrom(After(actions), op, a);
  }

  /** Nothing in the store stands in the way of the write. */
  ghost predicate Unopposed(s: System, op: Op, a: Action)
    requires a.CommitWrite?
  {
    && (forall e :: e in s.db.events ==> e.id != a.eventId && !(e.workspace == op.workspace && e.key == op.key))
    && (op.create <==> op.Object() !in s.db.current)
    && (op.kind.Scope? ==> forall r :: r in s.db.rows && r.kind.Scope? ==>
          r.id != op.id && !(r.workspace == op.workspace && r.canonicalKey == a.canonicalKey))
  }

  lemma WriteAloneFrom(s: System, op: Op, a: Action)
    requires Invariant(s) && a.CommitWrite? && a.w !in s.writers
    ensures var p := Based(op, if op.Object() in s.db.current then s.db.current[op.Object()] else 0);
      WriteAlone(s, a.w, op, a) ==
        if op.Legal() && Unopposed(s, op, a) then
          System(Db(s.db.events + [EventOf(p, a)], s.db.rows + [RowOf(p, a)],
                    if op.kind.Scope? then s.db.current else s.db.current[op.Object() := p.base + 1]), s.writers)
        else s
  {
    KeyUsedExactly(s.db, op.workspace, op.key);
    if op.Legal() && !HasKey(s.db, op.workspace, op.key) && (op.create || op.Object() in s.db.current) {
      var base := if op.create then 0 else s.db.current[op.Object()];
      PreparedAlone(s, a.w, op, base);
      AloneCommits(s, a, Based(op, base));
    } else {
      NeverPrepared(s, a, op);
    }
  }

  lemma KeyUsedExactly(db: Db, workspace: string, key: string)
    ensures HasKey(db, workspace, key) <==> exists e :: e in db.events && e.workspace == workspace && e.key == key
  {
    if e :| e in db.events && e.workspace == workspace && e.key == key {
      var i :| 0 <= i < |db.events| && db.events[i] == e;
    }
  }

  lemma NeverPrepared(s: System, a: Action, op: Op)
    requires a.CommitWrite? && a.w !in s.writers
    requires !(op.Legal() && !HasKey(s.db, op.workspace, op.key) && (op.create || op.Object() in s.db.current))
    ensures WriteAlone(s, a.w, op, a) == s
  {
    var s1 := Step(s, Begin(a.w, op));
    assert s1.writers - {a.w} == s.writers;
    assert s.writers[a.w := KeyUnused(op)] - {a.w} == s.writers;
    assert s1.writers[a.w := KeyUnused(op)] == s.writers[a.w := KeyUnused(op)];
  }

  lemma PreparedAlone(s: System, w: nat, op: Op, base: int)
    requires op.Legal() && !HasKey(s.db, op.workspace, op.key) && w !in s.writers
    requires op.create || op.Object() in s.db.current
    requires base == if op.create then 0 else s.db.current[op.Object()]
    ensures Step(Step(Step(s, Begin(w, op)), Lookup(w)), ReadCurrent(w))
         == s.(writers := s.writers[w := Based(op, base)])
  {
  }

  lemma AloneCommits(s: System, a: Action, p: Progress)
    requires Invariant(s) && a.CommitWrite? && a.w !in s.writers && p.Based? && p.op.Legal()
    requires p.op.create || p.op.Object() in s.db.current
    requires p.base == if p.op.create then 0 else s.db.current[p.op.Object()]
    ensures var db, k := s.db, p.op.Object();
      Step(s.(writers := s.writers[a.w := p]), a) ==
        if Unopposed(s, p.op, a) then
          System(Db(db.events + [EventOf(p, a)], db.rows + [RowOf(p, a)],
                    if k.kind.Scope? then db.current else db.current[k := p.base + 1]), s.writers)
        else s
  {
    assert s.writers[a.w := p] - {a.w} == s.writers;
    EventFitsExactly(s.db, EventOf(p, a));
    RowFitsAlone(s.db, RowOf(p, a), p);
  }

  lemma RowFitsAlone(db: Db, r: Row, p: Progress)
    requires Consistent(db) && p.Based? && p.op.Legal() && ObjectOf(r) == p.op.Object() && r.version == p.base + 1
    requires p.op.create || p.op.Object() in db.current
    requires p.base == if p.op.create then 0 else db.current[p.op.Object()]
    ensures RowFits(db, r) <==>
      && (p.op.create <==> p.op.Object() !in db.current)
      && (p.op.kind.Scope? ==> forall x :: x in db.rows && x.kind.Scope? ==>
            x.id != r.id && !(x.workspace == r.workspace && x.canonicalKey == r.canonicalKey))
  {
    RowFitsExactly(db, r);
    if !r.kind.Scope? {
      if p.op.create <==> ObjectOf(r) !in db.current { NextVersionFits(db, r); }
      if p.op.create && ObjectOf(r) in db.current { assert HasRow(db.rows, ObjectOf(r), 1); }
    }
  }

  /**
   A successful commit adds one event and one row with what was asked for, as the next version after the pointer at
   that moment, however old the version it read.
   */
  lemma CommitAdvancesPointerByOne(actions: seq<Action>, a: Action)
    requires a.CommitWrite?
    requires var s := After(actions);
      a.w in s.writers && s.writers[a.w].Based?
        && Commit(s.db, EventOf(s.writers[a.w], a), RowOf(s.writers[a.w], a)).status.Done?
    requires var s := After(actions); !s.writers[a.w].op.kind.Scope?
    ensures var s := After(actions); var s', k := Step(s, a), s.writers[a.w].op.Object();
      var version := 1 + if k in s.db.current then s.db.current[k] else 0;
      var row := Row(k.kind, k.workspace, k.id, version, a.canonicalKey, a.text, a.rest, a.embedding);
      var event := Event(a.eventId, k.workspace, k.kind, k.id, version, s.writers[a.w].op.key, Some(row));
      s'.db == Db(s.db.events + [event], s.db.rows + [row], s.db.current[k := version])
  {
    EveryRunKeepsInvariant(actions);
    var s := After(actions);
    var p := s.writers[a.w];
    CommitKeepsConsistent(s.db, EventOf(p, a), RowOf(p, a), p.base);
  }

  /** Row i of the tables was written with event i: the correspondence is a bijection. */
  lemma EventsAndRowsCorrespond(actions: seq<Action>)
    ensures var db := After(actions).db;
      && |db.events| == |db.rows|
      && forall i, j :: 0 <= i < |db.events| && 0 <= j < |db.rows| ==> (Describes(db.events[i], db.rows[j]) <==> i == j)
    ensures forall i :: 0 <= i < |After(actions).db.events| ==>
      var e, r := After(actions).db.events[i], After(actions).db.rows[i];
      && e.payload == Some(Row(e.kind, e.workspace, e.aggregateId, e.version, r.canonicalKey, r.text, r.rest,
                               e.payload.value.embedding))
      && r == Row(e.kind, e.workspace, e.aggregateId, e.version, r.canonicalKey, r.text, r.rest, r.embedding)
  {
    EveryRunKeepsInvariant(actions);
    var db := After(actions).db;
    forall i, j | 0 <= i < |db.events| && 0 <= j < |db.rows|
      ensures Describes(db.events[i], db.rows[j]) <==> i == j
    {
      assert Describes(db.events[i], db.rows[i]);
      if i < j { assert !Clash(db.rows[i], db.rows[j]); }
      if j < i { assert !Clash(db.rows[j], db.rows[i]); }
    }
  }

  /** Conservation: a workspace has as many events as it has rows in the five tables together. */
  lemma EventCountIsSumOfRowCounts(actions: seq<Action>, workspace: string)
    ensures var db := After(actions).db;
      EventCount(db, workspace) == RowCount(db, workspace, Scope) + RowCount(db, workspace, Entity)
        + RowCount(db, workspace, Artifact) + RowCount(db, workspace, Memory) + RowCount(db, workspace, Relationship)
  {
    EveryRunKeepsInvariant(actions);
    CountsAgree(After(actions).db, workspace);
  }

  lemma {:induction false} CountsAgree(db: Db, workspace: string)
    requires Paired(db)
    ensures EventCount(db, workspace) == RowCount(db, workspace, Scope) + RowCount(db, workspace, Entity)
        + RowCount(db, workspace, Artifact) + RowCount(db, workspace, Memory) + RowCount(db, workspace, Relationship)
    decreases |db.events|
  {
    if db.events != [] {
      var n := |db.events| - 1;
      var shorter := db.(events := db.events[..n], rows := db.rows[..n]);
      assert forall i :: 0 <= i < n ==> Describes(db.events[i], db.rows[i]);
      CountsAgree(shorter, workspace);
      assert Describes(db.events[n], db.rows[n]);
    }
  }
}
