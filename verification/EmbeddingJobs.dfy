/**
 The embedding job queue: one job for each memory version, a claim that reads and then updates under
 a guard, and a separate embedding_state column that is meant to show the same thing.
 */
module EmbeddingJobs {
  import opened EventStore
  import opened Sequences

  datatype RowState = NotConfigured | Pending | Ready | Failed

  datatype JobStatus = Waiting | Retry | Running | Completed | GaveUp

  datatype Job = Job(status: JobStatus, attempts: nat)

  datatype Key = Key(workspace: string, memory: string, version: int)

  datatype Tables = Tables(states: map<Key, RowState>, jobs: map<Key, Job>, vectors: set<Key>)

  const MAX_ATTEMPTS := 5

  /** Status 'pending' or 'retry'. */
  predicate Claimable(j: Job) {
    j.status.Waiting? || j.status.Retry?
  }

  // --- Single statements -----------------------------------------------------------------------

  /** The guarded update of a claim; without effect when the guard fails. */
  function Claim(jobs: map<Key, Job>, k: Key): map<Key, Job> {
    if k in jobs && Claimable(jobs[k]) then jobs[k := Job(Running, jobs[k].attempts + 1)] else jobs
  }

  /** The status that finishing writes, decided by the worker's own attempt count. */
  function FinishStatus(attempts: nat, embedded: bool): JobStatus {
    if embedded then Completed else if attempts >= MAX_ATTEMPTS then GaveUp else Retry
  }

  function Finish(jobs: map<Key, Job>, k: Key, attempts: nat, embedded: bool): map<Key, Job> {
    if k in jobs then jobs[k := jobs[k].(status := FinishStatus(attempts, embedded))] else jobs
  }

  function SetState(t: Tables, k: Key, s: RowState): Tables {
    if k in t.states then t.(states := t.states[k := s]) else t
  }

  function PutVector(t: Tables, k: Key): Tables {
    t.(vectors := t.vectors + {k})
  }

  /** Insert a job, or on conflict make it pending unless it is completed; attempts stay. */
  function Enqueue(t: Tables, k: Key): Tables {
    var job :=
      if k !in t.jobs then Job(Waiting, 0)
      else if t.jobs[k].status.Completed? then t.jobs[k]
      else t.jobs[k].(status := Waiting);
    t.(jobs := t.jobs[k := job])
  }

  /** A committed memory write: the row with its state, and its job when an embedder is configured. */
  function PutMemory(t: Tables, k: Key, configured: bool): Tables {
    if k in t.states then t
    else if configured then Enqueue(t.(states := t.states[k := Pending]), k)
    else t.(states := t.states[k := NotConfigured])
  }

  /** The transaction of a backfill over the candidates that were read before. */
  function Requeue(t: Tables, candidates: seq<Key>): Tables {
    if candidates == [] then t
    else
      var n := |candidates| - 1;
      var k := candidates[n];
      var t' := Requeue(t, candidates[..n]);
      SetState(t'.(jobs := t'.jobs[k := Job(Waiting, 0)]), k, Pending)
  }

  /** A memory of a snapshot with the state that its row was exported with. */
  datatype Exported = Exported(k: Key, state: RowState)

  /** The put of one imported memory: a row that is there already is skipped, a pending one gets its job. */
  function InsertImported(t: Tables, x: Exported): Tables {
    if x.k in t.states then t
    else
      var t' := t.(states := t.states[x.k := x.state]);
      if x.state.Pending? then Enqueue(t', x.k) else t'
  }

  function InsertAll(t: Tables, rows: seq<Exported>): Tables {
    if rows == [] then t
    else InsertImported(InsertAll(t, rows[..|rows| - 1]), rows[|rows| - 1])
  }

  /** After an import each memory is marked pending and enqueued. */
  function Remark(t: Tables, k: Key): Tables {
    Enqueue(SetState(t, k, Pending), k)
  }

  /** The loop of ImportSnapshot over the snapshot's memories. */
  function RemarkAll(t: Tables, memories: seq<Key>): Tables {
    if memories == [] then t
    else Remark(RemarkAll(t, memories[..|memories| - 1]), memories[|memories| - 1])
  }

  function KeysOf(rows: seq<Exported>): seq<Key> {
    Transform((x: Exported) => x.k, rows)
  }

  /** A successful import: the missing rows, then the re-marking when an embedder is configured. */
  function ImportMemories(t: Tables, rows: seq<Exported>, configured: bool): Tables {
    var inserted := InsertAll(t, rows);
    if configured then RemarkAll(inserted, KeysOf(rows)) else inserted
  }

  // --- The worker ------------------------------------------------------------------------------

  datatype WorkerStep = StoreVector | MarkReady | FinishDone | FinishFailed | MarkFailed

  function DoStep(t: Tables, k: Key, attempts: nat, s: WorkerStep): Tables {
    match s
    case StoreVector => PutVector(t, k)
    case MarkReady => SetState(t, k, Ready)
    case FinishDone => t.(jobs := Finish(t.jobs, k, attempts, true))
    case FinishFailed => t.(jobs := Finish(t.jobs, k, attempts, false))
    case MarkFailed => SetState(t, k, Failed)
  }

  /** What a worker does after its claim, in order. */
  function WorkerSteps(attempts: nat, embedded: bool): seq<WorkerStep> {
    if embedded then [StoreVector, MarkReady, FinishDone]
    else if attempts >= MAX_ATTEMPTS then [FinishFailed, MarkFailed]
    else [FinishFailed]
  }

  function DoSteps(t: Tables, k: Key, attempts: nat, steps: seq<WorkerStep>): Tables
    decreases |steps|
  {
    if steps == [] then t
    else DoSteps(DoStep(t, k, attempts, steps[0]), k, attempts, steps[1..])
  }

  /** A whole iteration on a job that can be claimed. */
  function Iteration(t: Tables, k: Key, embedded: bool): Tables {
    if k in t.jobs && Claimable(t.jobs[k]) then
      var attempts := t.jobs[k].attempts + 1;
      DoSteps(t.(jobs := Claim(t.jobs, k)), k, attempts, WorkerSteps(attempts, embedded))
    else t
  }

  // --- Agreement of the two tables -------------------------------------------------------------

  /** What the state column should show for a job. */
  function Shown(jobs: map<Key, Job>, k: Key): RowState {
    if k !in jobs then NotConfigured
    else match jobs[k].status
      case Waiting => Pending
      case Retry => Pending
      case Running => Pending
      case Completed => Ready
      case GaveUp => Failed
  }

  ghost predicate AgreeAt(t: Tables, k: Key) {
    && (k in t.jobs ==> k in t.states && !t.jobs[k].status.Running?)
    && (k in t.states ==> t.states[k] == Shown(t.jobs, k))
    && (k in t.states && t.states[k].Ready? ==> k in t.vectors)
  }

  ghost predicate Agreement(t: Tables) {
    forall k :: AgreeAt(t, k)
  }

  datatype Change =
    | Write(k: Key, configured: bool)
    | Work(k: Key, embedded: bool)
    | Backfill(candidates: seq<Key>)
    | ImportSnapshot(rows: seq<Exported>, configured: bool)

  function Apply(t: Tables, c: Change): Tables {
    match c
    case Write(k, configured) => PutMemory(t, k, configured)
    case Work(k, embedded) => Iteration(t, k, embedded)
    case Backfill(candidates) =>
      if forall i :: 0 <= i < |candidates| ==> candidates[i] in t.states then Requeue(t, candidates) else t
    case ImportSnapshot(rows, configured) => ImportMemories(t, rows, configured)
  }

  function After(changes: seq<Change>): Tables {
    if changes == [] then Tables(map[], map[], {})
    else Apply(After(changes[..|changes| - 1]), changes[|changes| - 1])
  }

  /** An iteration in closed form: the outcome decides one job, one state and perhaps one vector. */
  lemma IterationOutcome(t: Tables, k: Key, embedded: bool)
    requires k in t.jobs && Claimable(t.jobs[k])
    ensures var n := t.jobs[k].attempts + 1; var t' := Iteration(t, k, embedded);
      && t'.jobs == t.jobs[k := Job(FinishStatus(n, embedded), n)]
      && t'.vectors == (if embedded then t.vectors + {k} else t.vectors)
      && t'.states == if k !in t.states || (!embedded && n < MAX_ATTEMPTS) then t.states
                      else t.states[k := if embedded then Ready else Failed]
  {
    var n := t.jobs[k].attempts + 1;
    var c := t.(jobs := Claim(t.jobs, k));
    if embedded {
      var t1 := DoStep(c, k, n, StoreVector);
      var t2 := DoStep(t1, k, n, MarkReady);
      var t3 := DoStep(t2, k, n, FinishDone);
      assert WorkerSteps(n, true)[1..] == [MarkReady, FinishDone] && [MarkReady, FinishDone][1..] == [FinishDone];
      assert [FinishDone][1..] == [] && DoSteps(t3, k, n, []) == t3;
      assert DoSteps(t2, k, n, [FinishDone]) == t3;
      assert DoSteps(t1, k, n, [MarkReady, FinishDone]) == t3;
    } else {
      var t1 := DoStep(c, k, n, FinishFailed);
      var t2 := DoStep(t1, k, n, MarkFailed);
      assert [FinishFailed][1..] == [] && [FinishFailed, MarkFailed][1..] == [MarkFailed] && [MarkFailed][1..] == [];
      assert DoSteps(t1, k, n, [MarkFailed]) == t2;
    }
  }

  lemma {:induction false} RequeueOutcome(t: Tables, candidates: seq<Key>)
    requires forall i :: 0 <= i < |candidates| ==> candidates[i] in t.states
    ensures var t' := Requeue(t, candidates);
      && t'.vectors == t.vectors
      && t'.states.Keys == t.states.Keys
      && (forall k :: k in t'.jobs <==> k in t.jobs || k in candidates)
      && (forall k :: k in t'.jobs && k !in candidates ==> k in t.jobs && t'.jobs[k] == t.jobs[k])
      && (forall k :: k in candidates ==> k in t'.jobs && t'.jobs[k] == Job(Waiting, 0))
      && (forall k :: k in t'.states ==> t'.states[k] == if k in candidates then Pending else t.states[k])
  {
    if candidates != [] {
      var n := |candidates| - 1;
      RequeueOutcome(t, candidates[..n]);
      assert candidates[n] in t.states;
      assert candidates == candidates[..n] + [candidates[n]];
    }
  }

  lemma IterationKeepsAgreement(t: Tables, k: Key, embedded: bool)
    requires Agreement(t)
    ensures Agreement(Iteration(t, k, embedded))
  {
    assert AgreeAt(t, k);
    if k in t.jobs && Claimable(t.jobs[k]) {
      IterationOutcome(t, k, embedded);
      forall j ensures AgreeAt(Iteration(t, k, embedded), j) {
        assert AgreeAt(t, j);
      }
    }
  }

  lemma RequeueKeepsAgreement(t: Tables, candidates: seq<Key>)
    requires Agreement(t) && forall i :: 0 <= i < |candidates| ==> candidates[i] in t.states
    ensures Agreement(Requeue(t, candidates))
  {
    RequeueOutcome(t, candidates);
    forall j ensures AgreeAt(Requeue(t, candidates), j) {
      assert AgreeAt(t, j);
    }
  }

  lemma PutKeepsAgreement(t: Tables, k: Key, configured: bool)
    requires Agreement(t)
    ensures Agreement(PutMemory(t, k, configured))
  {
    assert AgreeAt(t, k);
    forall j ensures AgreeAt(PutMemory(t, k, configured), j) {
      assert AgreeAt(t, j);
    }
  }

  // --- Imports ---------------------------------------------------------------------------------

  lemma {:induction false} RemarkAllOutcome(t: Tables, memories: seq<Key>)
    requires forall i :: 0 <= i < |memories| ==> memories[i] in t.states
    ensures var t' := RemarkAll(t, memories);
      && t'.vectors == t.vectors
      && (forall k :: k in t'.states <==> k in t.states)
      && (forall k :: k in t.states ==> t'.states[k] == if k in memories then Pending else t.states[k])
      && (forall k :: k in t'.jobs <==> k in t.jobs || k in memories)
      && (forall k :: k in t.jobs && (k !in memories || t.jobs[k].status.Completed?) ==> t'.jobs[k] == t.jobs[k])
      && (forall k :: k in memories && !(k in t.jobs && t.jobs[k].status.Completed?) ==> t'.jobs[k].status.Waiting?)
  {
    if memories != [] {
      var n := |memories| - 1;
      assert memories == memories[..n] + [memories[n]];
      RemarkAllOutcome(t, memories[..n]);
      assert memories[n] in t.states;
    }
  }

  /**
   Re-marking imported memories makes the tables agree exactly when none of their jobs is already
   completed. Nothing is asked of the memories' own rows: a first import brings rows marked ready
   that have neither job nor vector.
   */
  lemma RemarkAgreesExactlyWhenNoneCompleted(t: Tables, memories: seq<Key>)
    requires forall j :: j !in memories ==> AgreeAt(t, j)
    requires forall k :: k in memories && k in t.jobs ==> k in t.states
    requires forall i :: 0 <= i < |memories| ==> memories[i] in t.states
    ensures Agreement(RemarkAll(t, memories)) <==>
      forall k :: k in memories ==> !(k in t.jobs && t.jobs[k].status.Completed?)
  {
    RemarkAllOutcome(t, memories);
    var t' := RemarkAll(t, memories);
    if k :| k in memories && k in t.jobs && t.jobs[k].status.Completed? {
      assert !AgreeAt(t', k);
    } else {
      forall j ensures AgreeAt(t', j) {
        assert j !in memories ==> AgreeAt(t, j);
      }
    }
  }

  ghost predicate DistinctKeys(rows: seq<Exported>) {
    forall i, j :: 0 <= i < j < |rows| ==> rows[i].k != rows[j].k
  }

  /** What insertions leave: new rows as exported, a job for each new pending one, everything else as it was. */
  ghost predicate Inserted(t: Tables, rows: seq<Exported>, t': Tables) {
    && t'.vectors == t.vectors
    && (forall k :: k in t.states ==> k in t'.states && t'.states[k] == t.states[k])
    && (forall k :: k in t.jobs ==> k in t'.jobs && t'.jobs[k] == t.jobs[k])
    && (forall k :: k in t'.states ==> k in t.states || k in KeysOf(rows))
    && (forall i :: 0 <= i < |rows| ==> rows[i].k in t'.states)
    && (forall i | 0 <= i < |rows| && rows[i].k !in t.states ::
          t'.states[rows[i].k] == rows[i].state && (rows[i].k in t'.jobs <==> rows[i].state.Pending?))
    && (forall k :: k in t'.jobs && k !in t.jobs ==> k in t'.states && k !in t.states && t'.jobs[k] == Job(Waiting, 0))
  }

  lemma {:induction false} InsertAllOutcome(t: Tables, rows: seq<Exported>)
    requires Agreement(t) && DistinctKeys(rows)
    ensures Inserted(t, rows, InsertAll(t, rows))
  {
    if rows != [] {
      var n := |rows| - 1;
      InsertAllOutcome(t, rows[..n]);
      InsertedSnoc(t, rows[..n], rows[n], InsertAll(t, rows[..n]));
      assert rows == rows[..n] + [rows[n]];
    }
  }

  lemma InsertedSnoc(t: Tables, before: seq<Exported>, x: Exported, s: Tables)
    requires Agreement(t) && Inserted(t, before, s) && forall i :: 0 <= i < |before| ==> before[i].k != x.k
    ensures Inserted(t, before + [x], InsertImported(s, x))
  {
    InsertNext(t, before, x, s);
    assert KeysOf(before + [x]) == KeysOf(before) + [x.k];
  }

  lemma InsertNext(t: Tables, before: seq<Exported>, x: Exported, s: Tables)
    requires Agreement(t) && forall i :: 0 <= i < |before| ==> before[i].k != x.k
    requires forall k :: k in s.states ==> k in t.states || k in KeysOf(before)
    requires forall k :: k in s.jobs && k !in t.jobs ==> k in s.states && k !in t.states && s.jobs[k] == Job(Waiting, 0)
    requires forall k :: k in t.states ==> k in s.states
    ensures x.k in s.states <==> x.k in t.states
    ensures x.k !in t.states ==> x.k !in s.jobs && InsertImported(s, x).states == s.states[x.k := x.state]
    ensures x.k !in t.states && x.state.Pending? ==> InsertImported(s, x).jobs == s.jobs[x.k := Job(Waiting, 0)]
  {
    assert AgreeAt(t, x.k);
    assert x.k !in KeysOf(before);
  }

  /**
   What an import can do without breaking the agreement: with an embedder, no job of its memories is
   completed; without one, no new row is ready or failed.
   */
  ghost predicate Harmless(t: Tables, rows: seq<Exported>, configured: bool) {
    if configured then forall i :: 0 <= i < |rows| ==> !(rows[i].k in t.jobs && t.jobs[rows[i].k].status.Completed?)
    else forall i :: 0 <= i < |rows| && rows[i].k !in t.states ==> !rows[i].state.Ready? && !rows[i].state.Failed?
  }

  /** An import keeps the tables in agreement exactly when it is harmless; a first import with an embedder always is. */
  lemma ImportAgreesExactly(t: Tables, rows: seq<Exported>, configured: bool)
    requires Agreement(t) && DistinctKeys(rows)
    ensures Agreement(ImportMemories(t, rows, configured)) <==> Harmless(t, rows, configured)
  {
    InsertAllOutcome(t, rows);
    var inserted, keys := InsertAll(t, rows), KeysOf(rows);
    if configured {
      forall j | j !in keys ensures AgreeAt(inserted, j) { assert AgreeAt(t, j); }
      forall k | k in keys && k in inserted.jobs ensures k in inserted.states { assert AgreeAt(t, k); }
      RemarkAgreesExactlyWhenNoneCompleted(inserted, keys);
      CompletedBefore(t, rows);
    } else {
      PlainImportAgreesExactly(t, rows);
    }
  }

  lemma CompletedBefore(t: Tables, rows: seq<Exported>)
    requires Agreement(t) && DistinctKeys(rows)
    ensures var s := InsertAll(t, rows);
      (forall k :: k in KeysOf(rows) ==> !(k in s.jobs && s.jobs[k].status.Completed?)) <==> Harmless(t, rows, true)
  {
    InsertAllOutcome(t, rows);
    var s := InsertAll(t, rows);
    if Harmless(t, rows, true) {
      forall k | k in KeysOf(rows) ensures !(k in s.jobs && s.jobs[k].status.Completed?) {
        var i :| 0 <= i < |rows| && rows[i].k == k;
      }
    } else {
      var i :| 0 <= i < |rows| && rows[i].k in t.jobs && t.jobs[rows[i].k].status.Completed?;
      assert KeysOf(rows)[i] == rows[i].k;
    }
  }

  lemma PlainImportAgreesExactly(t: Tables, rows: seq<Exported>)
    requires Agreement(t) && DistinctKeys(rows)
    ensures Agreement(InsertAll(t, rows)) <==> Harmless(t, rows, false)
  {
    InsertAllOutcome(t, rows);
    var s := InsertAll(t, rows);
    if Harmless(t, rows, false) {
      forall j ensures AgreeAt(s, j) {
        assert AgreeAt(t, j);
        if j in s.states && j !in t.states {
          var i :| 0 <= i < |rows| && rows[i].k == j;
        }
      }
    } else {
      var i :| 0 <= i < |rows| && rows[i].k !in t.states && (rows[i].state.Ready? || rows[i].state.Failed?);
      assert !AgreeAt(s, rows[i].k);
    }
  }

  // --- Whole runs ------------------------------------------------------------------------------

  /** Every import of the run has distinct memories and is harmless where it happens. */
  ghost predicate HarmlessRun(changes: seq<Change>) {
    changes == []
    || (HarmlessRun(changes[..|changes| - 1])
        && HarmlessChange(After(changes[..|changes| - 1]), changes[|changes| - 1]))
  }

  ghost predicate HarmlessChange(t: Tables, c: Change) {
    c.ImportSnapshot? ==> DistinctKeys(c.rows) && Harmless(t, c.rows, c.configured)
  }

  lemma ApplyKeepsAgreement(t: Tables, c: Change)
    requires Agreement(t) && HarmlessChange(t, c)
    ensures Agreement(Apply(t, c))
  {
    match c
    case Write(k, configured) => PutKeepsAgreement(t, k, configured);
    case Work(k, embedded) => IterationKeepsAgreement(t, k, embedded);
    case Backfill(candidates) =>
      if forall i :: 0 <= i < |candidates| ==> candidates[i] in t.states { RequeueKeepsAgreement(t, candidates); }
    case ImportSnapshot(rows, configured) => ImportAgreesExactly(t, rows, configured);
  }

  /**
   Over whole iterations, memory writes, backfills and harmless imports, the state column shows exactly
   the job, and ready means a stored vector.
   */
  lemma {:induction false} EveryRunKeepsAgreement(changes: seq<Change>)
    requires HarmlessRun(changes)
    ensures Agreement(After(changes))
  {
    if changes != [] {
      var n := |changes| - 1;
      EveryRunKeepsAgreement(changes[..n]);
      ApplyKeepsAgreement(After(changes[..n]), changes[n]);
    }
  }

  function Backlog(t: Tables, workspace: string): nat {
    |set k | k in t.jobs && k.workspace == workspace && (Claimable(t.jobs[k]) || t.jobs[k].status.Running?)|
  }

  lemma NoBacklogExactlyWhenNonePending(t: Tables, workspace: string)
    requires Agreement(t)
    ensures Backlog(t, workspace) == 0 <==>
      forall k :: k in t.states && k.workspace == workspace ==> !t.states[k].Pending?
  {
    var open := set k | k in t.jobs && k.workspace == workspace && (Claimable(t.jobs[k]) || t.jobs[k].status.Running?);
    forall k ensures k in open <==> k in t.states && k.workspace == workspace && t.states[k].Pending? {
      assert AgreeAt(t, k);
    }
    if Backlog(t, workspace) == 0 { assert open == {}; }
    if forall k :: k in t.states && k.workspace == workspace ==> !t.states[k].Pending? { assert open == {}; }
  }

  /** The index is reported fresh exactly when no row of the workspace is pending. */
  lemma BacklogZeroExactlyWhenNonePending(changes: seq<Change>, workspace: string)
    requires HarmlessRun(changes)
    ensures var t := After(changes);
      Backlog(t, workspace) == 0 <==> forall k :: k in t.states && k.workspace == workspace ==> !t.states[k].Pending?
  {
    EveryRunKeepsAgreement(changes);
    NoBacklogExactlyWhenNonePending(After(changes), workspace);
  }

  /**
   With an embedder a first import into an empty store ends in agreement, whatever states the rows were
   exported with.
   */
  lemma FirstImportAgrees(rows: seq<Exported>)
    requires DistinctKeys(rows)
    ensures HarmlessRun([ImportSnapshot(rows, true)]) && Agreement(After([ImportSnapshot(rows, true)]))
  {
    assert [ImportSnapshot(rows, true)][..0] == [];
    assert HarmlessRun([]);
    EveryRunKeepsAgreement([ImportSnapshot(rows, true)]);
  }

  /** Without an embedder a first import of a memory exported as ready leaves it ready, with no vector and no job. */
  lemma ReadyWithoutVector(k: Key)
    ensures var t := After([ImportSnapshot([Exported(k, Ready)], false)]);
      t.states == map[k := Ready] && t.jobs == map[] && t.vectors == {} && !Agreement(t)
  {
    var rows := [Exported(k, Ready)];
    assert [ImportSnapshot(rows, false)][..0] == [] && rows[..0] == [];
    assert InsertAll(After([]), []) == After([]);
    assert !AgreeAt(After([ImportSnapshot(rows, false)]), k);
  }

  /** Importing a memory again after its embedding was stored leaves it pending for good. */
  lemma ImportOverCompletedJob(k: Key)
    ensures var t := After([Write(k, true), Work(k, true), ImportSnapshot([Exported(k, Ready)], true)]);
      StuckAt(t, k) && !Agreement(t)
  {
    var first, second := [Write(k, true)], [Write(k, true), Work(k, true)];
    var all := [Write(k, true), Work(k, true), ImportSnapshot([Exported(k, Ready)], true)];
    assert first[..0] == [] && second[..1] == first && all[..2] == second;
    var t := After(first);
    assert After([]) == Tables(map[], map[], {}) && t == PutMemory(After([]), k, true);
    assert t == Tables(map[k := Pending], map[k := Job(Waiting, 0)], {});
    IterationOutcome(t, k, true);
    var u := After(second);
    assert u == Tables(map[k := Ready], map[k := Job(Completed, 1)], {k});
    var rows := [Exported(k, Ready)];
    assert rows[..0] == [] && KeysOf(rows) == [k] && [k][..0] == [];
    assert InsertAll(u, []) == u && InsertAll(u, rows) == InsertImported(u, rows[0]) == u;
    assert RemarkAll(u, []) == u && RemarkAll(u, [k]) == Remark(u, k);
    assert !AgreeAt(After(all), k);
  }

  /** A row marked pending although its job is completed and its vector stored. */
  predicate StuckAt(t: Tables, k: Key) {
    k in t.states && t.states[k].Pending? && k in t.jobs && t.jobs[k].status.Completed? && k in t.vectors
  }

  // --- A backfill that lands inside an iteration ------------------------------------------------

  /** The iteration with a backfill of its memory after the first p of its steps. */
  function Interrupted(t: Tables, k: Key, embedded: bool, p: nat): Tables
    requires k in t.jobs && p <= |WorkerSteps(t.jobs[k].attempts + 1, embedded)|
  {
    var n := t.jobs[k].attempts + 1;
    var steps := WorkerSteps(n, embedded);
    var before := DoSteps(t.(jobs := Claim(t.jobs, k)), k, n, steps[..p]);
    DoSteps(Requeue(before, [k]), k, n, steps[p..])
  }

  lemma RequeueOne(t: Tables, k: Key)
    requires k in t.states
    ensures Requeue(t, [k]) == t.(jobs := t.jobs[k := Job(Waiting, 0)], states := t.states[k := Pending])
  {
    assert [k][..0] == [] && Requeue(t, []) == t;
  }

  lemma DoTwo(t: Tables, k: Key, n: nat, a: WorkerStep, b: WorkerStep)
    ensures DoSteps(t, k, n, [a]) == DoStep(t, k, n, a)
    ensures DoSteps(t, k, n, [a, b]) == DoStep(DoStep(t, k, n, a), k, n, b)
  {
    assert [a][1..] == [] && [a, b][1..] == [b] && [b][1..] == [];
    var t1 := DoStep(t, k, n, a);
    assert DoSteps(t1, k, n, [b]) == DoSteps(DoStep(t1, k, n, b), k, n, []);
  }

  lemma DoThree(t: Tables, k: Key, n: nat, a: WorkerStep, b: WorkerStep, c: WorkerStep)
    ensures DoSteps(t, k, n, [a, b, c]) == DoStep(DoStep(DoStep(t, k, n, a), k, n, b), k, n, c)
  {
    assert [a, b, c][1..] == [b, c];
    DoTwo(DoStep(t, k, n, a), k, n, b, c);
  }

  /**
   The success path: the tables disagree afterwards exactly when the backfill lands between marking
   the row ready and finishing the job; then the row is pending and its job completed.
   */
  lemma BackfillInsideSuccessfulIteration(t: Tables, k: Key, p: nat)
    requires Agreement(t) && k in t.jobs && Claimable(t.jobs[k]) && p <= 3
    ensures AgreeAt(Interrupted(t, k, true, p), k) <==> p != 2
    ensures p == 2 ==> StuckAt(Interrupted(t, k, true, p), k)
  {
    assert AgreeAt(t, k);
    var n := t.jobs[k].attempts + 1;
    var c := t.(jobs := Claim(t.jobs, k));
    var a, b, f := StoreVector, MarkReady, FinishDone;
    var steps := WorkerSteps(n, true);
    assert steps == [a, b, f];
    if p == 0 {
      assert steps[..0] == [] && steps[0..] == [a, b, f];
      RequeueOne(c, k);
      DoThree(Requeue(c, [k]), k, n, a, b, f);
    } else if p == 1 {
      assert steps[..1] == [a] && steps[1..] == [b, f];
      DoTwo(c, k, n, a, b);
      RequeueOne(DoStep(c, k, n, a), k);
      DoTwo(Requeue(DoStep(c, k, n, a), [k]), k, n, b, f);
    } else if p == 2 {
      assert steps[..2] == [a, b] && steps[2..] == [f];
      DoTwo(c, k, n, a, b);
      var d := DoStep(DoStep(c, k, n, a), k, n, b);
      RequeueOne(d, k);
      DoTwo(Requeue(d, [k]), k, n, f, f);
    } else {
      assert steps[..3] == [a, b, f] && steps[3..] == [];
      DoThree(c, k, n, a, b, f);
      RequeueOne(DoStep(DoStep(DoStep(c, k, n, a), k, n, b), k, n, f), k);
    }
  }

  /** The failure path: only a last attempt has a gap, between giving the job up and marking the row failed. */
  lemma BackfillInsideFailedIteration(t: Tables, k: Key, p: nat)
    requires Agreement(t) && k in t.jobs && Claimable(t.jobs[k])
    requires p <= |WorkerSteps(t.jobs[k].attempts + 1, false)|
    ensures AgreeAt(Interrupted(t, k, false, p), k) <==> !(p == 1 && t.jobs[k].attempts + 1 >= MAX_ATTEMPTS)
  {
    assert AgreeAt(t, k);
    var n := t.jobs[k].attempts + 1;
    var c := t.(jobs := Claim(t.jobs, k));
    var f, m := FinishFailed, MarkFailed;
    var steps := WorkerSteps(n, false);
    DoTwo(c, k, n, f, m);
    if p == 0 {
      assert steps[..0] == [] && steps[0..] == steps;
      RequeueOne(c, k);
      DoTwo(Requeue(c, [k]), k, n, f, m);
    } else if p == 1 {
      assert steps[..1] == [f];
      assert n >= MAX_ATTEMPTS ==> steps[1..] == [m];
      RequeueOne(DoStep(c, k, n, f), k);
      DoTwo(Requeue(DoStep(c, k, n, f), [k]), k, n, m, m);
    } else {
      assert steps[..2] == [f, m] && steps[2..] == [];
      RequeueOne(DoStep(DoStep(c, k, n, f), k, n, m), k);
    }
  }

  // --- Backfill modes --------------------------------------------------------------------------

  /** The rows a backfill reads: `live` are the current versions of memories neither archived nor tombstoned. */
  predicate Candidate(t: Tables, live: set<Key>, all: bool, k: Key) {
    k in t.states && k in live && (all || k !in t.vectors || t.states[k].NotConfigured? || t.states[k].Failed?)
  }

  /**
   A pending row whose job is completed is out of reach: no worker claims it and a backfill of missing
   embeddings passes it by.
   */
  lemma PendingWithCompletedJobIsStuck(t: Tables, live: set<Key>, k: Key, other: Key, embedded: bool,
                                       candidates: seq<Key>)
    requires StuckAt(t, k)
    requires forall i :: 0 <= i < |candidates| ==> Candidate(t, live, false, candidates[i])
    ensures StuckAt(Iteration(t, other, embedded), k)
    ensures StuckAt(Requeue(t, candidates), k)
  {
    if other in t.jobs && Claimable(t.jobs[other]) { IterationOutcome(t, other, embedded); }
    assert k !in candidates;
    RequeueOutcome(t, candidates);
  }

  /**
   A backfill of missing embeddings leaves every live memory ready or pending; in either mode it keeps
   the agreement.
   */
  lemma MissingBackfillCoversEveryLiveMemory(t: Tables, live: set<Key>, candidates: seq<Key>)
    requires Agreement(t) && live <= t.states.Keys
    requires forall k :: k in candidates <==> Candidate(t, live, false, k)
    ensures var t' := Requeue(t, candidates);
      Agreement(t') && forall k :: k in live ==> k in t'.states && (t'.states[k].Ready? || t'.states[k].Pending?)
  {
    forall i | 0 <= i < |candidates| ensures candidates[i] in t.states { assert candidates[i] in candidates; }
    RequeueKeepsAgreement(t, candidates);
    RequeueOutcome(t, candidates);
    forall k | k in live
      ensures k in Requeue(t, candidates).states
      ensures Requeue(t, candidates).states[k].Ready? || Requeue(t, candidates).states[k].Pending?
    {
      assert AgreeAt(t, k);
      assert k in candidates <==> Candidate(t, live, false, k);
    }
  }

  /** A backfill of all embeddings makes every live version with a row pending, with a fresh job, and nothing else. */
  lemma AllBackfillRequeuesEveryLiveMemory(t: Tables, live: set<Key>, candidates: seq<Key>)
    requires forall k :: k in candidates <==> Candidate(t, live, true, k)
    ensures var t' := Requeue(t, candidates);
      && (forall k :: k in live && k in t.states ==>
            k in t'.states && t'.states[k] == Pending && k in t'.jobs && t'.jobs[k] == Job(Waiting, 0))
      && (forall k :: !(k in live && k in t.states) ==> SameAt(t, t', k))
      && t'.vectors == t.vectors
  {
    forall i | 0 <= i < |candidates| ensures candidates[i] in t.states { assert candidates[i] in candidates; }
    RequeueOutcome(t, candidates);
    forall k ensures k in candidates <==> k in live && k in t.states {
      assert k in candidates <==> Candidate(t, live, true, k);
    }
  }

  ghost predicate SameAt(t: Tables, t': Tables, k: Key) {
    && (k in t'.states <==> k in t.states) && (k in t.states ==> t'.states[k] == t.states[k])
    && (k in t'.jobs <==> k in t.jobs) && (k in t.jobs ==> t'.jobs[k] == t.jobs[k])
  }

  /**
   A backfill of missing embeddings requeues a live version with a row exactly when no vector is stored for it or its
   state shows that embedding was not configured or failed; from an agreeing state a ready version thus keeps its
   state, its job and its vector.
   */
  lemma MissingBackfillKeepsReadyMemories(t: Tables, live: set<Key>, candidates: seq<Key>)
    requires forall k :: k in candidates <==> Candidate(t, live, false, k)
    ensures var t' := Requeue(t, candidates);
      && (forall k | k in live && k in t.states
                     && (k !in t.vectors || t.states[k].NotConfigured? || t.states[k].Failed?) ::
            k in t'.states && t'.states[k] == Pending && k in t'.jobs && t'.jobs[k] == Job(Waiting, 0))
      && (forall k :: !(k in live && k in t.states) ==> SameAt(t, t', k))
      && (forall k | k in t.states && k in t.vectors && (t.states[k].Ready? || t.states[k].Pending?) ::
            SameAt(t, t', k))
      && (Agreement(t) ==> forall k :: k in t.states && t.states[k].Ready? ==> SameAt(t, t', k) && k in t'.vectors)
      && t'.vectors == t.vectors
  {
    forall i | 0 <= i < |candidates| ensures candidates[i] in t.states { assert candidates[i] in candidates; }
    RequeueOutcome(t, candidates);
    forall k
      ensures k in candidates <==>
        k in live && k in t.states && (k !in t.vectors || t.states[k].NotConfigured? || t.states[k].Failed?)
    {
      assert k in candidates <==> Candidate(t, live, false, k);
    }
    if Agreement(t) {
      forall k | k in t.states && t.states[k].Ready? ensures k in t.vectors { assert AgreeAt(t, k); }
    }
  }
}
