/**
 N workers on one queue. A worker's SELECT of a job and its guarded UPDATE are separate steps, so
 the attempt count it carries can be stale. No re-enqueue and no backfill happens here.
 */
module EmbeddingClaims {
  import opened EmbeddingJobs
  import opened Sequences

  /** A worker that is absent has nothing in hand. `attempts` is the worker's own count. */
  datatype Hand = Selected(key: Key, attempts: nat) | Holding(key: Key, attempts: nat)

  /** `claims` records the successful claims of the run. */
  datatype System = System(jobs: map<Key, Job>, hands: map<nat, Hand>, claims: seq<Key>)

  datatype Action = Select(w: nat, k: Key) | TryClaim(w: nat) | Done(w: nat, embedded: bool) | Die(w: nat)

  /** One step of a run with n workers; an action that is not enabled does nothing. */
  function Step(s: System, a: Action, n: nat): System {
    match a
    case Select(w, k) =>
      if w < n && w !in s.hands && k in s.jobs && Claimable(s.jobs[k])
      then s.(hands := s.hands[w := Selected(k, s.jobs[k].attempts)])
      else s
    case TryClaim(w) =>
      if w !in s.hands || !s.hands[w].Selected? then s
      else
        var k := s.hands[w].key;
        if k in s.jobs && Claimable(s.jobs[k])
        then System(Claim(s.jobs, k), s.hands[w := Holding(k, s.hands[w].attempts + 1)], s.claims + [k])
        else s.(hands := s.hands - {w})
    case Done(w, embedded) =>
      if w !in s.hands || !s.hands[w].Holding? then s
      else System(Finish(s.jobs, s.hands[w].key, s.hands[w].attempts, embedded), s.hands - {w}, s.claims)
    case Die(w) => s.(hands := s.hands - {w})
  }

  /** A run from a queue of fresh jobs. */
  function Run(s: System, actions: seq<Action>, n: nat): System {
    if actions == [] then s
    else Step(Run(s, actions[..|actions| - 1], n), actions[|actions| - 1], n)
  }

  predicate Fresh(s: System) {
    s.hands == map[] && s.claims == [] && forall k :: k in s.jobs ==> s.jobs[k] == Job(Waiting, 0)
  }

  /** The workers whose selection is so old that claiming with it will not be a last attempt. */
  function Early(s: System, k: Key): set<nat> {
    set w | w in s.hands && s.hands[w].Selected? && s.hands[w].key == k && s.hands[w].attempts < MAX_ATTEMPTS - 1
  }

  ghost predicate HandsInv(s: System, n: nat) {
    && (forall w :: w in s.hands ==>
          w < n && s.hands[w].key in s.jobs && s.hands[w].attempts <= s.jobs[s.hands[w].key].attempts)
    && (forall w :: w in s.hands && s.hands[w].Holding? ==> s.jobs[s.hands[w].key].status.Running?)
    && (forall v, w | v in s.hands && w in s.hands && s.hands[v].Holding? && s.hands[w].Holding?
                      && s.hands[v].key == s.hands[w].key :: v == w)
  }

  /** The real bound: claims so far plus the early selections still around. */
  ghost predicate AttemptsInv(s: System, n: nat, k: Key)
    requires k in s.jobs
  {
    var total := s.jobs[k].attempts + |Early(s, k)|;
    && (Claimable(s.jobs[k]) ==> total <= n + 3)
    && (forall w | w in s.hands && s.hands[w] == Holding(k, s.hands[w].attempts)
                   && s.hands[w].attempts < MAX_ATTEMPTS :: total <= n + 3)
    && total <= n + 4
    && (s.jobs[k].status.GaveUp? ==> s.jobs[k].attempts >= MAX_ATTEMPTS)
    && multiset(s.claims)[k] == s.jobs[k].attempts
  }

  ghost predicate Inv(s: System, n: nat) {
    && HandsInv(s, n)
    && (forall k :: k in s.jobs ==> AttemptsInv(s, n, k))
    && (forall k :: k in s.claims ==> k in s.jobs)
  }

  lemma EarlyBounded(s: System, n: nat, k: Key)
    requires HandsInv(s, n)
    ensures |Early(s, k)| <= n
  {
    BoundedSet(Early(s, k), n);
  }

  lemma StepKeepsHands(s: System, a: Action, n: nat)
    requires HandsInv(s, n)
    ensures HandsInv(Step(s, a, n), n)
  {
  }

  lemma SelectKeepsAttempts(s: System, w: nat, k: Key, n: nat, j: Key)
    requires Inv(s, n) && j in s.jobs
    ensures AttemptsInv(Step(s, Select(w, k), n), n, j)
  {
    assert AttemptsInv(s, n, j);
    StepKeepsHands(s, Select(w, k), n);
    EarlyBounded(Step(s, Select(w, k), n), n, j);
    SelectEarly(s, w, k, n, j);
  }

  /** A selection becomes early only while the job has fewer than four attempts. */
  lemma SelectEarly(s: System, w: nat, k: Key, n: nat, j: Key)
    ensures var s' := Step(s, Select(w, k), n);
      if s' != s && j == k && s.jobs[k].attempts < MAX_ATTEMPTS - 1 then |Early(s', j)| <= |Early(s, j)| + 1
      else Early(s', j) == Early(s, j)
  {
    var s' := Step(s, Select(w, k), n);
    if s' != s && j == k && s.jobs[k].attempts < MAX_ATTEMPTS - 1 {
      assert Early(s', j) == Early(s, j) + {w};
    } else {
      assert Early(s', j) == Early(s, j);
    }
  }

  lemma TryClaimEarly(s: System, w: nat, n: nat, j: Key)
    requires w in s.hands && s.hands[w].Selected?
    ensures Early(Step(s, TryClaim(w), n), j) == Early(s, j) - {w}
    ensures w in Early(s, j) <==> j == s.hands[w].key && s.hands[w].attempts < MAX_ATTEMPTS - 1
  {
  }

  lemma ClaimCounted(s: System, w: nat, n: nat, j: Key)
    requires w in s.hands && s.hands[w].Selected? && s.hands[w].key in s.jobs && Claimable(s.jobs[s.hands[w].key])
    requires j in s.jobs
    ensures var s' := Step(s, TryClaim(w), n); var k := s.hands[w].key;
      && s'.jobs == s.jobs[k := Job(Running, s.jobs[k].attempts + 1)]
      && multiset(s'.claims)[j] == multiset(s.claims)[j] + (if j == k then 1 else 0)
      && s'.hands == s.hands[w := Holding(k, s.hands[w].attempts + 1)]
  {
  }

  lemma TryClaimKeepsAttempts(s: System, w: nat, n: nat, j: Key)
    requires Inv(s, n) && j in s.jobs
    ensures AttemptsInv(Step(s, TryClaim(w), n), n, j)
  {
    if w in s.hands && s.hands[w].Selected? {
      TryClaimEarly(s, w, n, j);
      assert AttemptsInv(s, n, j);
      var k := s.hands[w].key;
      if k in s.jobs && Claimable(s.jobs[k]) {
        ClaimCounted(s, w, n, j);
      }
    }
  }

  lemma DoneKeepsAttempts(s: System, w: nat, embedded: bool, n: nat, j: Key)
    requires Inv(s, n) && j in s.jobs
    ensures AttemptsInv(Step(s, Done(w, embedded), n), n, j)
  {
    assert AttemptsInv(s, n, j);
    DoneEarly(s, w, embedded, n, j);
  }

  lemma DoneEarly(s: System, w: nat, embedded: bool, n: nat, j: Key)
    ensures Early(Step(s, Done(w, embedded), n), j) == Early(s, j)
  {
  }

  lemma DieKeepsAttempts(s: System, w: nat, n: nat, j: Key)
    requires Inv(s, n) && j in s.jobs
    ensures AttemptsInv(Step(s, Die(w), n), n, j)
  {
    assert AttemptsInv(s, n, j);
    DieEarly(s, w, n, j);
  }

  lemma DieEarly(s: System, w: nat, n: nat, j: Key)
    ensures |Early(Step(s, Die(w), n), j)| <= |Early(s, j)|
  {
    assert Early(Step(s, Die(w), n), j) == Early(s, j) - {w};
  }

  lemma StepKeepsInv(s: System, a: Action, n: nat)
    requires Inv(s, n)
    ensures Inv(Step(s, a, n), n)
  {
    StepKeepsHands(s, a, n);
    var s' := Step(s, a, n);
    assert s'.jobs.Keys == s.jobs.Keys;
    forall k | k in s'.jobs ensures AttemptsInv(s', n, k) {
      match a
      case Select(w, key) => SelectKeepsAttempts(s, w, key, n, k);
      case TryClaim(w) => TryClaimKeepsAttempts(s, w, n, k);
      case Done(w, embedded) => DoneKeepsAttempts(s, w, embedded, n, k);
      case Die(w) => DieKeepsAttempts(s, w, n, k);
    }
  }

  lemma FreshInv(s: System, n: nat)
    requires Fresh(s)
    ensures Inv(s, n)
  {
    forall k | k in s.jobs ensures AttemptsInv(s, n, k) {
      assert Early(s, k) == {};
    }
  }

  lemma StepKeepsJobKeys(s: System, a: Action, n: nat)
    ensures Step(s, a, n).jobs.Keys == s.jobs.Keys
  {
  }

  lemma {:induction false} EveryRunKeepsInv(s: System, actions: seq<Action>, n: nat)
    requires Fresh(s)
    ensures Inv(Run(s, actions, n), n) && Run(s, actions, n).jobs.Keys == s.jobs.Keys
  {
    if actions == [] {
      FreshInv(s, n);
    } else {
      var before, a := Run(s, actions[..|actions| - 1], n), actions[|actions| - 1];
      EveryRunKeepsInv(s, actions[..|actions| - 1], n);
      StepKeepsInv(before, a, n);
      StepKeepsJobKeys(before, a, n);
    }
  }

  // --- Workers that die ------------------------------------------------------------------------

  predicate Holds(s: System, w: nat, k: Key) {
    w in s.hands && s.hands[w].Holding? && s.hands[w].key == k
  }

  ghost predicate Held(s: System, k: Key) {
    exists w: nat :: Holds(s, w, k)
  }

  /** In the course of the run a worker died while it was holding the job. */
  predicate Lost(s: System, actions: seq<Action>, n: nat, k: Key) {
    actions != [] && (
      var before := actions[..|actions| - 1];
      var last := actions[|actions| - 1];
      Lost(s, before, n, k) || (last.Die? && Holds(Run(s, before, n), last.w, k)))
  }

  /** A running job is held or was lost, and not both. */
  ghost predicate RunningExplained(s: System, lost: bool, k: Key)
    requires k in s.jobs
  {
    && (s.jobs[k].status.Running? <==> Held(s, k) || lost)
    && !(Held(s, k) && lost)
  }

  lemma SelectKeepsExplained(s: System, w: nat, key: Key, n: nat, k: Key, lost: bool)
    requires k in s.jobs && RunningExplained(s, lost, k)
    ensures RunningExplained(Step(s, Select(w, key), n), lost, k)
  {
    assert forall v: nat :: Holds(Step(s, Select(w, key), n), v, k) <==> Holds(s, v, k);
  }

  lemma ClaimKeepsExplained(s: System, w: nat, n: nat, k: Key, lost: bool)
    requires k in s.jobs && RunningExplained(s, lost, k)
    ensures k in Step(s, TryClaim(w), n).jobs && RunningExplained(Step(s, TryClaim(w), n), lost, k)
  {
    var t := Step(s, TryClaim(w), n);
    assert forall v: nat :: v != w ==> (Holds(t, v, k) <==> Holds(s, v, k));
    assert s.jobs != t.jobs && s.hands[w].key == k ==> Holds(t, w, k);
    assert Holds(s, w, k) ==> t == s;
  }

  lemma DoneKeepsExplained(s: System, w: nat, embedded: bool, n: nat, k: Key, lost: bool)
    requires HandsInv(s, n) && k in s.jobs && RunningExplained(s, lost, k)
    ensures k in Step(s, Done(w, embedded), n).jobs && RunningExplained(Step(s, Done(w, embedded), n), lost, k)
  {
    var t := Step(s, Done(w, embedded), n);
    assert forall v: nat :: v != w ==> (Holds(t, v, k) <==> Holds(s, v, k));
    assert Holds(s, w, k) ==> forall v: nat :: Holds(s, v, k) ==> v == w;
  }

  lemma DieKeepsExplained(s: System, w: nat, n: nat, k: Key, lost: bool)
    requires HandsInv(s, n) && k in s.jobs && RunningExplained(s, lost, k)
    ensures RunningExplained(Step(s, Die(w), n), lost || Holds(s, w, k), k)
  {
    var t := Step(s, Die(w), n);
    assert forall v: nat :: v != w ==> (Holds(t, v, k) <==> Holds(s, v, k));
    assert Holds(s, w, k) ==> forall v: nat :: Holds(s, v, k) ==> v == w;
  }

  /** In every run a job is running exactly when some worker holds it or a worker died while holding it. */
  lemma {:induction false} RunningExactlyWhenHeldOrLost(s: System, actions: seq<Action>, n: nat, k: Key)
    requires Fresh(s) && k in s.jobs
    ensures k in Run(s, actions, n).jobs && RunningExplained(Run(s, actions, n), Lost(s, actions, n, k), k)
  {
    if actions != [] {
      var before := actions[..|actions| - 1];
      RunningExactlyWhenHeldOrLost(s, before, n, k);
      EveryRunKeepsInv(s, before, n);
      var t, lost := Run(s, before, n), Lost(s, before, n, k);
      match actions[|actions| - 1]
      case Select(w, key) => SelectKeepsExplained(t, w, key, n, k, lost);
      case TryClaim(w) => ClaimKeepsExplained(t, w, n, k, lost);
      case Done(w, embedded) => DoneKeepsExplained(t, w, embedded, n, k, lost);
      case Die(w) => DieKeepsExplained(t, w, n, k, lost);
    }
  }

  lemma {:induction false} LostForGood(s: System, actions: seq<Action>, more: seq<Action>, n: nat, k: Key)
    requires Lost(s, actions, n, k)
    ensures Lost(s, actions + more, n, k)
  {
    if more == [] {
      assert actions + more == actions;
    } else {
      var m := |more| - 1;
      assert (actions + more)[..|actions + more| - 1] == actions + more[..m];
      LostForGood(s, actions, more[..m], n, k);
    }
  }

  /** Nothing reclaims a running job: once its worker has died it is running in every continuation. */
  lemma LostJobsRunForever(s: System, actions: seq<Action>, more: seq<Action>, n: nat, k: Key)
    requires Fresh(s) && k in s.jobs && Lost(s, actions, n, k)
    ensures var t := Run(s, actions + more, n); k in t.jobs && t.jobs[k].status.Running?
  {
    LostForGood(s, actions, more, n, k);
    RunningExactlyWhenHeldOrLost(s, actions + more, n, k);
  }

  predicate Settled(j: Job) {
    j.status.Completed? || j.status.GaveUp?
  }

  predicate AtRest(s: System) {
    s.hands == map[] && forall k :: k in s.jobs ==> !Claimable(s.jobs[k])
  }

  /** Once no worker has anything in hand and nothing is claimable, exactly the lost jobs are unsettled. */
  lemma AtRestSettledExactly(s: System, actions: seq<Action>, n: nat, k: Key)
    requires Fresh(s) && k in s.jobs && AtRest(Run(s, actions, n))
    ensures k in Run(s, actions, n).jobs
    ensures Settled(Run(s, actions, n).jobs[k]) <==> !Lost(s, actions, n, k)
  {
    RunningExactlyWhenHeldOrLost(s, actions, n, k);
    assert !Held(Run(s, actions, n), k);
  }

  // --- The queue drains ------------------------------------------------------------------------

  function ClaimableKeys(s: System): set<Key> {
    set k | k in s.jobs && Claimable(s.jobs[k])
  }

  /** A worker that has something in hand finishes it. */
  function Release(w: nat): seq<Action> { [TryClaim(w), Done(w, true)] }

  lemma ReleaseOutcome(s: System, w: nat, n: nat)
    requires HandsInv(s, n) && w in s.hands
    ensures var t := Run(s, Release(w), n);
      HandsInv(t, n) && t.hands == s.hands - {w} && ClaimableKeys(t) <= ClaimableKeys(s)
  {
    var acts := Release(w);
    var t := Step(s, TryClaim(w), n);
    assert acts[..1] == [TryClaim(w)] && acts[..1][..0] == [] && acts[..|acts| - 1] == acts[..1];
    assert Run(s, [], n) == s;
    assert Run(s, acts[..1], n) == t;
    assert Run(s, acts, n) == Step(t, Done(w, true), n);
    StepKeepsHands(s, TryClaim(w), n);
    StepKeepsHands(t, Done(w, true), n);
  }

  function Serve(k: Key): seq<Action> { [Select(0, k)] + Release(0) }

  lemma ServeOutcome(s: System, k: Key, n: nat)
    requires 0 < n && s.hands == map[] && k in s.jobs && Claimable(s.jobs[k])
    ensures var t := Run(s, Serve(k), n); t.hands == map[] && ClaimableKeys(t) == ClaimableKeys(s) - {k}
  {
    RunAppend(s, [Select(0, k)], Release(0), n);
    var t := Step(s, Select(0, k), n);
    assert [Select(0, k)][..0] == [] && Run(s, [Select(0, k)], n) == t;
    var acts := Release(0);
    assert acts[..1] == [TryClaim(0)] && acts[..1][..0] == [] && acts[..|acts| - 1] == acts[..1];
    var u := Step(t, TryClaim(0), n);
    assert Run(t, acts[..1], n) == u && Run(t, acts, n) == Step(u, Done(0, true), n);
    assert Step(u, Done(0, true), n).jobs == s.jobs[k := Job(Completed, s.jobs[k].attempts + 1)];
  }

  predicate NobodyDies(actions: seq<Action>) {
    forall i :: 0 <= i < |actions| ==> !actions[i].Die?
  }

  lemma ThenAtRest(s: System, first: seq<Action>, rest: seq<Action>, n: nat)
    requires AtRest(Run(Run(s, first, n), rest, n)) && NobodyDies(first) && NobodyDies(rest)
    ensures AtRest(Run(s, first + rest, n)) && NobodyDies(first + rest)
  {
    RunAppend(s, first, rest, n);
  }

  lemma ReleaseShrinks(s: System, w: nat, n: nat)
    requires HandsInv(s, n) && w in s.hands
    ensures var t := Run(s, Release(w), n); HandsInv(t, n) && |t.hands.Keys| < |s.hands.Keys|
  {
    ReleaseOutcome(s, w, n);
    assert Run(s, Release(w), n).hands.Keys == s.hands.Keys - {w};
  }

  lemma ServeShrinks(s: System, k: Key, n: nat)
    requires 0 < n && s.hands == map[] && k in ClaimableKeys(s)
    ensures var t := Run(s, Serve(k), n);
      HandsInv(t, n) && t.hands == map[] && |ClaimableKeys(t)| < |ClaimableKeys(s)|
  {
    ServeOutcome(s, k, n);
  }

  /** From every state the workers can come to rest. */
  lemma {:induction false} ComesToRest(s: System, n: nat) returns (acts: seq<Action>)
    requires 0 < n && HandsInv(s, n)
    ensures AtRest(Run(s, acts, n)) && NobodyDies(acts)
    decreases |s.hands.Keys|, |ClaimableKeys(s)|
  {
    if AtRest(s) {
      acts := [];
    } else {
      var first := SomeoneActs(s, n);
      var rest := ComesToRest(Run(s, first, n), n);
      acts := first + rest;
      ThenAtRest(s, first, rest, n);
    }
  }

  /** Someone has something in hand or something to claim, and gets it done. */
  lemma SomeoneActs(s: System, n: nat) returns (acts: seq<Action>)
    requires 0 < n && HandsInv(s, n) && !AtRest(s)
    ensures NobodyDies(acts) && HandsInv(Run(s, acts, n), n)
    ensures var t := Run(s, acts, n);
      || |t.hands.Keys| < |s.hands.Keys|
      || (t.hands.Keys == s.hands.Keys && |ClaimableKeys(t)| < |ClaimableKeys(s)|)
  {
    if w: nat :| w in s.hands {
      ReleaseShrinks(s, w, n);
      acts := Release(w);
    } else {
      assert s.hands == map[];
      var k :| k in s.jobs && Claimable(s.jobs[k]);
      ServeShrinks(s, k, n);
      acts := Serve(k);
    }
  }

  lemma {:induction false} NobodyLost(s: System, actions: seq<Action>, more: seq<Action>, n: nat, k: Key)
    requires NobodyDies(more)
    ensures Lost(s, actions + more, n, k) <==> Lost(s, actions, n, k)
  {
    if more == [] {
      assert actions + more == actions;
    } else {
      var m := |more| - 1;
      assert (actions + more)[..|actions + more| - 1] == actions + more[..m];
      NobodyLost(s, actions, more[..m], n, k);
    }
  }

  ghost predicate AllSettled(s: System) {
    forall k :: k in s.jobs ==> Settled(s.jobs[k])
  }

  /** After any run, some continuation settles every job exactly when no worker has died while holding one. */
  lemma QueueDrainsExactly(s: System, actions: seq<Action>, n: nat)
    requires Fresh(s) && 0 < n
    ensures (exists more: seq<Action> :: AllSettled(Run(s, actions + more, n)))
      <==> forall k :: k in s.jobs ==> !Lost(s, actions, n, k)
  {
    if more: seq<Action> :| AllSettled(Run(s, actions + more, n)) {
      forall k | k in s.jobs ensures !Lost(s, actions, n, k) {
        if Lost(s, actions, n, k) { LostJobsRunForever(s, actions, more, n, k); }
      }
    }
    if forall k :: k in s.jobs ==> !Lost(s, actions, n, k) {
      EveryRunKeepsInv(s, actions, n);
      var more := ComesToRest(Run(s, actions, n), n);
      RunAppend(s, actions, more, n);
      EveryRunKeepsInv(s, actions + more, n);
      forall k | k in Run(s, actions + more, n).jobs ensures Settled(Run(s, actions + more, n).jobs[k]) {
        NobodyLost(s, actions, more, n, k);
        AtRestSettledExactly(s, actions + more, n, k);
      }
    }
  }

  // --- What the invariant says -----------------------------------------------------------------

  /** No two workers ever hold the same job, and a held job is running. */
  lemma NoTwoWorkersHoldOneJob(s: System, actions: seq<Action>, n: nat, v: nat, w: nat)
    requires Fresh(s)
    requires var t := Run(s, actions, n);
      v in t.hands && w in t.hands && t.hands[v].Holding? && t.hands[w].Holding? && t.hands[v].key == t.hands[w].key
    ensures v == w
    ensures var t := Run(s, actions, n); t.hands[v].key in t.jobs && t.jobs[t.hands[v].key].status.Running?
  {
    EveryRunKeepsInv(s, actions, n);
  }

  /**
   A worker that nobody gets ahead of: it selects a job exactly when it is free and the job is pending or to be retried,
   its claim then succeeds, and finishing records the outcome under the count that it claimed with.
   */
  lemma ClaimsAloneExactly(s: System, w: nat, k: Key, embedded: bool, n: nat)
    requires w !in s.hands
    ensures var selected := Step(s, Select(w, k), n);
            var claimed := Step(selected, TryClaim(w), n);
            var done := Step(claimed, Done(w, embedded), n);
      if w < n && k in s.jobs && (s.jobs[k].status == Waiting || s.jobs[k].status == Retry) then
        var count := s.jobs[k].attempts + 1;
        var outcome := if embedded then Completed else if count >= 5 then GaveUp else Retry;
        && w in selected.hands && selected.jobs == s.jobs
        && claimed.jobs == s.jobs[k := Job(Running, count)] && claimed.claims == s.claims + [k]
        && done == System(s.jobs[k := Job(outcome, count)], s.hands, s.claims + [k])
      else selected == claimed == done == s
  {
    assert s.hands - {w} == s.hands;
    if w < n && k in s.jobs && Claimable(s.jobs[k]) {
      var count := s.jobs[k].attempts + 1;
      assert s.hands[w := Selected(k, count - 1)][w := Holding(k, count)] - {w} == s.hands;
    }
  }

  /** A worker's own attempt count can be stale, but never exceeds the stored one. */
  lemma LocalAttemptsNeverExceedStored(s: System, actions: seq<Action>, n: nat, w: nat)
    requires Fresh(s) && w in Run(s, actions, n).hands
    ensures var t := Run(s, actions, n); var h := t.hands[w];
      h.key in t.jobs && h.attempts <= t.jobs[h.key].attempts
  {
    EveryRunKeepsInv(s, actions, n);
  }

  /** In any run a job is claimed at most n + 4 times, and at least five times before it is given up. */
  lemma ClaimsAreBounded(s: System, actions: seq<Action>, n: nat, k: Key)
    requires Fresh(s) && k in s.jobs
    ensures var t := Run(s, actions, n);
      && k in t.jobs
      && multiset(t.claims)[k] == t.jobs[k].attempts
      && multiset(t.claims)[k] <= n + 4
      && (t.jobs[k].status.GaveUp? ==> MAX_ATTEMPTS <= multiset(t.claims)[k])
  {
    EveryRunKeepsInv(s, actions, n);
    assert AttemptsInv(Run(s, actions, n), n, k);
  }

  /** One worker gives a job up after exactly five claims. */
  lemma OneWorkerGivesUpAfterExactlyFive(s: System, actions: seq<Action>, k: Key)
    requires Fresh(s) && k in s.jobs && k in Run(s, actions, 1).jobs && Run(s, actions, 1).jobs[k].status.GaveUp?
    ensures multiset(Run(s, actions, 1).claims)[k] == 5
  {
    ClaimsAreBounded(s, actions, 1, k);
  }

  lemma {:induction false} MultisetBound(ms: multiset<Key>, keys: set<Key>, bound: nat)
    requires forall k :: k in ms ==> k in keys && ms[k] <= bound
    ensures |ms| <= bound * |keys|
    decreases |keys|
  {
    if keys == {} {
      assert ms == multiset{};
    } else {
      var k :| k in keys;
      var ms' := ms[k := 0];
      MultisetBound(ms', keys - {k}, bound);
      assert ms[k] <= bound by { if k !in ms { assert ms[k] == 0; } }
      assert |ms| == |ms'| + ms[k];
      assert bound * |keys| == bound * |keys - {k}| + bound;
    }
  }

  /** However long the run, it contains at most (n + 4) claims for each job. */
  lemma RunsClaimBoundedly(s: System, actions: seq<Action>, n: nat)
    requires Fresh(s)
    ensures |Run(s, actions, n).claims| <= (n + 4) * |s.jobs.Keys|
  {
    var claims := Run(s, actions, n).claims;
    forall k | k in multiset(claims) ensures k in s.jobs.Keys && multiset(claims)[k] <= n + 4 {
      ClaimOfKnownJob(s, actions, n, k);
    }
    MultisetBound(multiset(claims), s.jobs.Keys, n + 4);
    assert |claims| == |multiset(claims)|;
  }

  lemma ClaimOfKnownJob(s: System, actions: seq<Action>, n: nat, k: Key)
    requires Fresh(s) && k in Run(s, actions, n).claims
    ensures k in s.jobs.Keys && multiset(Run(s, actions, n).claims)[k] <= n + 4
  {
    EveryRunKeepsInv(s, actions, n);
    ClaimsAreBounded(s, actions, n, k);
  }

  // --- The bound is reached --------------------------------------------------------------------

  lemma {:induction false} RunAppend(s: System, a: seq<Action>, b: seq<Action>, n: nat)
    ensures Run(s, a + b, n) == Run(Run(s, a, n), b, n)
  {
    if b == [] {
      assert a + b == a;
    } else {
      var m := |b| - 1;
      assert (a + b)[..|a + b| - 1] == a + b[..m];
      RunAppend(s, a, b[..m], n);
    }
  }

  /** Claim with the selection in hand, and fail. */
  function Fail(w: nat): seq<Action> { [TryClaim(w), Done(w, false)] }

  lemma FailOutcome(s: System, w: nat, n: nat)
    requires w in s.hands && s.hands[w].Selected? && s.hands[w].key in s.jobs && Claimable(s.jobs[s.hands[w].key])
    ensures var k, a := s.hands[w].key, s.hands[w].attempts + 1;
      Run(s, Fail(w), n) == System(s.jobs[k := Job(FinishStatus(a, false), s.jobs[k].attempts + 1)], s.hands - {w},
        s.claims + [k])
  {
    var acts := Fail(w);
    assert acts[..1] == [TryClaim(w)] && acts[..1][..0] == [] && acts[..|acts| - 1] == acts[..1];
    var t := Step(s, TryClaim(w), n);
    assert Run(s, acts[..1], n) == t;
    var t' := Step(t, Done(w, false), n);
    assert Run(s, acts, n) == t';
    assert t'.hands == s.hands - {w};
  }

  /** Workers 1 to m hold a selection made before the first claim. */
  function EarlyHands(k: Key, m: nat): (hands: map<nat, Hand>)
    ensures forall w :: w in hands ==> 1 <= w <= m
  {
    if m == 0 then map[] else EarlyHands(k, m - 1)[m := Selected(k, 0)]
  }

  lemma {:induction false} EarlySelections(k: Key, m: nat, n: nat) returns (acts: seq<Action>)
    requires m < n
    ensures Run(System(map[k := Job(Waiting, 0)], map[], []), acts, n)
         == System(map[k := Job(Waiting, 0)], EarlyHands(k, m), [])
  {
    var s := System(map[k := Job(Waiting, 0)], map[], []);
    if m == 0 {
      acts := [];
      assert EarlyHands(k, 0) == map[];
    } else {
      var before := EarlySelections(k, m - 1, n);
      acts := before + [Select(m, k)];
      assert acts[..|acts| - 1] == before;
      assert EarlyHands(k, m - 1)[m := Selected(k, 0)] == EarlyHands(k, m);
    }
  }

  /** Worker 0 selects afresh and fails, while others sit on early selections. */
  lemma FreshFailure(s: System, k: Key, m: nat, n: nat) returns (acts: seq<Action>)
    requires 0 < n && s.hands == EarlyHands(k, m) && k in s.jobs && Claimable(s.jobs[k])
    ensures var a := s.jobs[k].attempts + 1;
      Run(s, acts, n) == System(s.jobs[k := Job(FinishStatus(a, false), a)], s.hands, s.claims + [k])
  {
    acts := [Select(0, k)] + Fail(0);
    RunAppend(s, [Select(0, k)], Fail(0), n);
    var t := Step(s, Select(0, k), n);
    assert [Select(0, k)][..0] == [] && Run(s, [Select(0, k)], n) == t;
    FailOutcome(t, 0, n);
    assert t.hands - {0} == s.hands;
  }

  lemma {:induction false} FreshFailures(s: System, k: Key, m: nat, n: nat, times: nat) returns (acts: seq<Action>)
    requires 0 < n && times < MAX_ATTEMPTS && s == System(map[k := Job(Waiting, 0)], EarlyHands(k, m), [])
    ensures var t := Run(s, acts, n);
      t.hands == s.hands && k in t.jobs && t.jobs[k].attempts == times && Claimable(t.jobs[k]) && |t.claims| == times
  {
    if times == 0 {
      acts := [];
    } else {
      var before := FreshFailures(s, k, m, n, times - 1);
      var last := FreshFailure(Run(s, before, n), k, m, n);
      acts := before + last;
      RunAppend(s, before, last, n);
    }
  }

  /** Every early selection is worth one more claim that is not the last. */
  lemma {:induction false} EarlyClaims(s: System, k: Key, m: nat, n: nat) returns (acts: seq<Action>)
    requires s.hands == EarlyHands(k, m) && k in s.jobs && Claimable(s.jobs[k])
    ensures var t := Run(s, acts, n);
      t.hands == map[] && k in t.jobs && t.jobs[k].attempts == s.jobs[k].attempts + m && Claimable(t.jobs[k])
      && |t.claims| == |s.claims| + m
    decreases m
  {
    if m == 0 {
      acts := [];
      assert EarlyHands(k, 0) == map[];
    } else {
      FailOutcome(s, m, n);
      var t := Run(s, Fail(m), n);
      assert t.hands == EarlyHands(k, m - 1);
      var rest := EarlyClaims(t, k, m - 1, n);
      acts := Fail(m) + rest;
      RunAppend(s, Fail(m), rest, n);
    }
  }

  /** For every number of workers some run claims an always-failing job n + 4 times before giving it up. */
  lemma BoundIsReached(k: Key, n: nat) returns (acts: seq<Action>)
    requires 0 < n
    ensures var t := Run(System(map[k := Job(Waiting, 0)], map[], []), acts, n);
      k in t.jobs && t.jobs[k] == Job(GaveUp, n + 4) && |t.claims| == n + 4
  {
    var s := System(map[k := Job(Waiting, 0)], map[], []);
    var first := EarlySelections(k, n - 1, n);
    var s1 := Run(s, first, n);
    var second := FreshFailures(s1, k, n - 1, n, 4);
    var s2 := Run(s1, second, n);
    var third := EarlyClaims(s2, k, n - 1, n);
    var s3 := Run(s2, third, n);
    assert EarlyHands(k, 0) == map[];
    var fourth := FreshFailure(s3, k, 0, n);
    RunAppend(s, first, second, n);
    RunAppend(s, first + second, third, n);
    RunAppend(s, first + second + third, fourth, n);
    acts := first + second + third + fourth;
  }
}
