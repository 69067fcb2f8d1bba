/** The embedding tables as an object, and one iteration of the worker loop on them. */
module EmbeddingStore {
  import opened EventStore
  import opened EmbeddingJobs

  /** The job a claim returns, with the worker's own attempt count. */
  datatype Claimed = Claimed(key: Key, attempts: nat)

  class EmbeddingTables {
    var states: map<Key, RowState>
    var jobs: map<Key, Job>
    var vectors: set<Key>

    ghost function State(): Tables
      reads this
    {
      Tables(states, jobs, vectors)
    }

    constructor ()
      ensures State() == Tables(map[], map[], {})
    {
      states, jobs, vectors := map[], map[], {};
    }

    /**
     Select some job that can be claimed and is due, then update it under the guard. `due` stands for
     available_at; which of the due jobs the ordering picks is left open.
     */
    method ClaimEmbedding(due: set<Key>) returns (claim: Option<Claimed>)
      modifies this`jobs
      ensures claim.None? ==> jobs == old(jobs) && forall k :: k in jobs && k in due ==> !Claimable(jobs[k])
      ensures claim.Some? ==> var k := claim.value.key;
        && k in old(jobs) && k in due && Claimable(old(jobs)[k])
        && claim.value.attempts == old(jobs)[k].attempts + 1
        && jobs == Claim(old(jobs), k)
        && (old(jobs)[k].status == Waiting || old(jobs)[k].status == Retry)
        && jobs == old(jobs)[k := Job(Running, claim.value.attempts)]
      ensures claim.None? ==> forall k :: k in jobs && k in due ==> jobs[k].status != Waiting && jobs[k].status != Retry
    {
      var open := set k | k in jobs && k in due && Claimable(jobs[k]);
      if open == {} {
        assert forall k :: k in jobs && k in due && Claimable(jobs[k]) ==> k in open;
        return None;
      }
      var k :| k in open;
      var attempts := jobs[k].attempts;
      jobs := jobs[k := Job(Running, jobs[k].attempts + 1)];
      return Some(Claimed(k, attempts + 1));
    }

    method FinishEmbedding(j: Claimed, embedded: bool)
      modifies this`jobs
      ensures jobs == Finish(old(jobs), j.key, j.attempts, embedded)
      ensures j.key in old(jobs) ==>
        jobs == old(jobs)[j.key := Job(if embedded then Completed else if j.attempts >= 5 then GaveUp else Retry,
          old(jobs)[j.key].attempts)]
      ensures j.key !in old(jobs) ==> jobs == old(jobs)
    {
      if j.key in jobs {
        var status := Completed;
        if !embedded {
          status := Retry;
          if j.attempts >= MAX_ATTEMPTS {
            status := GaveUp;
          }
        }
        jobs := jobs[j.key := jobs[j.key].(status := status)];
      }
    }

    method SetEmbeddingState(k: Key, s: RowState)
      modifies this`states
      ensures State() == SetState(old(State()), k, s)
    {
      if k in states {
        states := states[k := s];
      }
    }

    method PutEmbedding(k: Key)
      modifies this`vectors
      ensures State() == PutVector(old(State()), k)
    {
      vectors := vectors + {k};
    }

    method EnqueueEmbedding(k: Key)
      modifies this`jobs
      ensures State() == Enqueue(old(State()), k)
      ensures k !in old(jobs) ==> jobs == old(jobs)[k := Job(Waiting, 0)]
      ensures k in old(jobs) && old(jobs)[k].status != Completed ==>
        jobs == old(jobs)[k := Job(Waiting, old(jobs)[k].attempts)]
      ensures k in old(jobs) && old(jobs)[k].status == Completed ==> jobs == old(jobs)
    {
      if k !in jobs {
        jobs := jobs[k := Job(Waiting, 0)];
      } else if !jobs[k].status.Completed? {
        jobs := jobs[k := jobs[k].(status := Waiting)];
      } else {
        assert jobs[k := jobs[k]] == jobs;
      }
    }

    /** Read the candidates, then requeue them in one transaction; the count is how many there were. */
    method QueueEmbeddings(live: seq<Key>, all: bool) returns (queued: nat, ghost candidates: seq<Key>)
      modifies this`states, this`jobs
      ensures forall k :: k in candidates <==> k in live && Candidate(old(State()), (set x | x in live), all, k)
      ensures State() == Requeue(old(State()), candidates)
      ensures queued == |candidates|
      ensures forall k :: k in candidates <==>
        k in live && k in old(states)
        && (all || k !in old(vectors) || old(states)[k].NotConfigured? || old(states)[k].Failed?)
      ensures forall k :: k in candidates ==>
        k in states && states[k] == Pending && k in jobs && jobs[k] == Job(Waiting, 0)
      ensures forall k :: k !in candidates ==> SameAt(old(State()), State(), k)
    {
      var read: seq<Key> := [];
      for i := 0 to |live|
        invariant forall k :: k in read <==> k in live[..i] && Candidate(State(), (set x | x in live), all, k)
      {
        var k := live[i];
        if k in states && (all || k !in vectors || states[k].NotConfigured? || states[k].Failed?) {
          read := read + [k];
        }
      }
      assert live[..|live|] == live;
      ghost var before := State();
      for i := 0 to |read|
        invariant State() == Requeue(before, read[..i])
      {
        var k := read[i];
        assert read[..i + 1][..i] == read[..i];
        jobs := jobs[k := Job(Waiting, 0)];
        if k in states {
          states := states[k := Pending];
        }
      }
      assert read[..|read|] == read;
      forall i | 0 <= i < |read| ensures read[i] in before.states { assert read[i] in read; }
      RequeueOutcome(before, read);
      queued, candidates := |read|, read;
    }

    method EmbeddingBacklog(workspace: string) returns (n: nat)
      ensures n == Backlog(State(), workspace)
      ensures n == |set k | k in jobs && k.workspace == workspace
                            && (jobs[k].status == Waiting || jobs[k].status == Retry || jobs[k].status == Running)|
      ensures Agreement(State()) ==>
        (n == 0 <==> forall k :: k in states && k.workspace == workspace ==> !states[k].Pending?)
    {
      if Agreement(State()) { NoBacklogExactlyWhenNonePending(State(), workspace); }
      var open := set k | k in jobs && k.workspace == workspace && (Claimable(jobs[k]) || jobs[k].status.Running?);
      assert open == set k | k in jobs && k.workspace == workspace
                             && (jobs[k].status == Waiting || jobs[k].status == Retry || jobs[k].status == Running);
      n := |open|;
    }
  }

  /** The puts of an import, as far as they concern these tables. */
  method InsertImportedRows(store: EmbeddingTables, rows: seq<Exported>)
    modifies store
    ensures store.State() == InsertAll(old(store.State()), rows)
  {
    for i := 0 to |rows|
      invariant store.State() == InsertAll(old(store.State()), rows[..i])
    {
      assert rows[..i + 1][..i] == rows[..i];
      var x := rows[i];
      if x.k !in store.states {
        store.states := store.states[x.k := x.state];
        if x.state.Pending? {
          store.EnqueueEmbedding(x.k);
        }
      }
    }
    assert rows[..|rows|] == rows;
  }

  /** The part of ImportSnapshot that follows a successful import when an embedder is configured. */
  method RequeueImported(store: EmbeddingTables, memories: seq<Key>)
    modifies store
    ensures store.State() == RemarkAll(old(store.State()), memories)
  {
    for i := 0 to |memories|
      invariant store.State() == RemarkAll(old(store.State()), memories[..i])
    {
      assert memories[..i + 1][..i] == memories[..i];
      store.SetEmbeddingState(memories[i], Pending);
      store.EnqueueEmbedding(memories[i]);
    }
    assert memories[..|memories|] == memories;
  }

  /** A successful import of a snapshot: its puts, then the re-marking when an embedder is configured. */
  method ImportedMemories(store: EmbeddingTables, rows: seq<Exported>, configured: bool)
    modifies store
    ensures store.State() == ImportMemories(old(store.State()), rows, configured)
  {
    InsertImportedRows(store, rows);
    if configured {
      RequeueImported(store, KeysOf(rows));
    }
  }

  /**
   One turn of the worker loop: claim a due job, embed its text, record the outcome. `succeeds` is the
   provider's reply.
   */
  method WorkerIteration(store: EmbeddingTables, due: set<Key>, succeeds: bool) returns (worked: Option<Key>)
    modifies store
    ensures worked.None? ==> store.State() == old(store.State())
    ensures worked.Some? ==>
      && worked.value in old(store.jobs) && worked.value in due && Claimable(old(store.jobs)[worked.value])
      && store.State() == Iteration(old(store.State()), worked.value, succeeds)
  {
    var claim := store.ClaimEmbedding(due);
    if claim.None? {
      return None;
    }
    var j := claim.value;
    IterationOutcome(old(store.State()), j.key, succeeds);
    if !succeeds {
      store.FinishEmbedding(j, false);
      if j.attempts >= MAX_ATTEMPTS {
        store.SetEmbeddingState(j.key, Failed);
      }
      assert store.jobs == old(store.jobs)[j.key := Job(FinishStatus(j.attempts, false), j.attempts)];
      return Some(j.key);
    }
    store.PutEmbedding(j.key);
    store.SetEmbeddingState(j.key, Ready);
    store.FinishEmbedding(j, true);
    assert store.jobs == old(store.jobs)[j.key := Job(Completed, j.attempts)];
    return Some(j.key);
  }
}
