/**
 What the age of episodes can do to a response and to a context. Requests that differ only in when their
 episodes were updated rank the durable memories alike; only the cut after the ranking can tell them apart.
 */
module EpisodeRecency {
  import opened Sequences
  import opened Ordering
  import opened EventStore
  import opened Retrieval
  import opened ContextAssembly
  import opened ContextLaws
  import opened ContextService
  import opened Recency
  import Rerank

  // --- The same request at another time ----------------------------------------------------------

  /** An episode with another update time; other memories stay as they are. */
  function Aged(times: string -> int, m: Memory): Memory {
    if m.kind.Episode? then m.(updatedAt := times(m.id)) else m
  }

  /** Everything the request reads, with other update times for the episodes. */
  function AgedSources(times: string -> int, src: Sources): (aged: Sources)
    ensures src.Valid() ==> aged.Valid()
  {
    src.(lexical := Transform((m: Memory) => Aged(times, m), src.lexical),
         current := if src.current.None? then None
                    else Some(map id | id in src.current.value :: Aged(times, src.current.value[id])))
  }

  lemma {:induction false} SameHits(times: string -> int, src: Sources, hits: seq<Memory>, id: string)
    ensures LastHit(AgedSources(times, src), Transform((m: Memory) => Aged(times, m), hits), id)
         == LastHit(src, hits, id)
  {
    if hits != [] {
      var n := |hits| - 1;
      var aged := Transform((m: Memory) => Aged(times, m), hits);
      assert aged[..n] == Transform((m: Memory) => Aged(times, m), hits[..n]);
      SameHits(times, src, hits[..n], id);
    }
  }

  lemma SameRanks(times: string -> int, src: Sources, id: string)
    ensures var aged := AgedSources(times, src);
      && LexicalRank(aged, id) == LexicalRank(src, id) && SemanticRank(aged, id) == SemanticRank(src, id)
      && (SemanticHit(aged, id) <==> SemanticHit(src, id))
  {
    SameHits(times, src, src.lexical, id);
  }

  lemma {:induction false} SameEntities(times: string -> int, src: Sources, requested: seq<string>)
    ensures Entities(AgedSources(times, src), requested) == Entities(src, requested)
  {
    if requested != [] { SameEntities(times, src, requested[..|requested| - 1]); }
  }

  lemma SameCandidate(times: string -> int, src: Sources, id: string)
    requires src.Valid()
    ensures id in Candidates(AgedSources(times, src)) <==> id in Candidates(src)
    ensures id in Candidates(src) ==> Candidates(AgedSources(times, src))[id] == Aged(times, Candidates(src)[id])
  {
    SameRanks(times, src, id);
    CandidatesByRank(src, id);
    CandidatesByRank(AgedSources(times, src), id);
  }

  lemma SubjectsAlike(query: string, a: map<string, Memory>, b: map<string, Memory>)
    requires forall id :: id in a ==> id in b && b[id].subject == a[id].subject
    ensures NamedSubjects(query, a) <= NamedSubjects(query, b)
  {
    forall s | s in NamedSubjects(query, a) ensures s in NamedSubjects(query, b) {
      var id :| id in a && NamesSubject(query, a[id]) && SubjectOf(a[id]) == s;
      assert NamesSubject(query, b[id]) && SubjectOf(b[id]) == s;
    }
  }

  lemma SameNamedSubjects(times: string -> int, src: Sources)
    requires src.Valid()
    ensures NamedSubjects(src.query, Candidates(AgedSources(times, src))) == NamedSubjects(src.query, Candidates(src))
  {
    var first, second := Candidates(src), Candidates(AgedSources(times, src));
    forall id ensures id in second <==> id in first
      ensures id in first ==> second[id].subject == first[id].subject
    {
      SameCandidate(times, src, id);
    }
    SubjectsAlike(src.query, first, second);
    SubjectsAlike(src.query, second, first);
  }

  lemma SameKept(times: string -> int, src: Sources, m: Memory)
    requires src.Valid()
    ensures Kept(AgedSources(times, src), Aged(times, m)) <==> Kept(src, m)
    ensures EntityMatch(AgedSources(times, src), Aged(times, m)) <==> EntityMatch(src, m)
  {
    SameNamedSubjects(times, src);
    SameEntities(times, src, src.requested);
  }

  /** A durable memory is admitted at the one time exactly when it is at the other, with the same score. */
  lemma SameDurable(times: string -> int, src: Sources, m: Memory)
    requires src.Valid() && !m.kind.Episode?
    ensures Admitted(AgedSources(times, src), m) <==> Admitted(src, m)
    ensures RankedOf(AgedSources(times, src), m) == RankedOf(src, m)
  {
    SameCandidate(times, src, m.id);
    SameKept(times, src, m);
    SameRanks(times, src, m.id);
  }

  /** The score of an episode without its recency; the recency adds at most a twentieth. */
  function BaseScore(src: Sources, e: Memory): real {
    Weigh(Components(src, e).(recency := 0.0), src.semantic.Some?)
  }

  lemma AgedScore(times: string -> int, src: Sources, e: Memory)
    requires src.Valid() && e.kind.Episode?
    ensures RankedOf(AgedSources(times, src), Aged(times, e)).score
         == BaseScore(src, e) + 0.05 * RecencyScore(src.now, times(e.id))
  {
    SameKept(times, src, e);
    SameRanks(times, src, e.id);
  }

  // --- Who can be ahead ------------------------------------------------------------------------------

  function ScoreOf(src: Sources, m: Memory): real {
    RankedOf(src, m).score
  }

  /** The durable candidates that outrank m; no age of an episode changes them. */
  ghost function DurablesAhead(src: Sources, m: Memory): set<string> {
    set id | id in KeptIds(src) && !Candidates(src)[id].kind.Episode?
             && Outranks(RankedOf(src, Candidates(src)[id]), RankedOf(src, m))
  }

  /** The episode can outrank m: with full recency it scores higher, or as high with a version not smaller. */
  predicate CanOvertake(src: Sources, e: Memory, m: Memory) {
    && e.kind.Episode?
    && (BaseScore(src, e) + 0.05 > ScoreOf(src, m)
        || (BaseScore(src, e) + 0.05 == ScoreOf(src, m) && e.version >= m.version))
  }

  /** The episode outranks m at every age: any recency lifts it above. */
  predicate MustOvertake(src: Sources, e: Memory, m: Memory) {
    e.kind.Episode? && BaseScore(src, e) >= ScoreOf(src, m)
  }

  function Overtakers(src: Sources, m: Memory): set<string> {
    set id | id in KeptIds(src) && CanOvertake(src, Candidates(src)[id], m)
  }

  function Unavoidable(src: Sources, m: Memory): set<string> {
    set id | id in KeptIds(src) && MustOvertake(src, Candidates(src)[id], m)
  }

  /** The episodes that outrank m when they are of these ages. */
  ghost function EpisodesAhead(times: string -> int, src: Sources, m: Memory): set<string> {
    set id | id in KeptIds(src) && Candidates(src)[id].kind.Episode?
             && Outranks(RankedOf(AgedSources(times, src), Aged(times, Candidates(src)[id])), RankedOf(src, m))
  }

  lemma SameKeptIds(times: string -> int, src: Sources)
    requires src.Valid()
    ensures KeptIds(AgedSources(times, src)) == KeptIds(src)
  {
    forall id ensures id in KeptIds(AgedSources(times, src)) <==> id in KeptIds(src) {
      SameCandidate(times, src, id);
      if id in Candidates(src) { SameKept(times, src, Candidates(src)[id]); }
    }
  }

  lemma AheadAtAges(times: string -> int, src: Sources, m: Memory)
    requires src.Valid()
    ensures Ahead(AgedSources(times, src), RankedOf(src, m)) == DurablesAhead(src, m) + EpisodesAhead(times, src, m)
  {
    SameKeptIds(times, src);
    forall id | id in KeptIds(src)
      ensures RankedOf(AgedSources(times, src), Candidates(AgedSources(times, src))[id])
           == RankedOf(AgedSources(times, src), Aged(times, Candidates(src)[id]))
      ensures !Candidates(src)[id].kind.Episode? ==>
        RankedOf(AgedSources(times, src), Aged(times, Candidates(src)[id])) == RankedOf(src, Candidates(src)[id])
    {
      AgedResult(times, src, id);
    }
  }

  lemma AgedResult(times: string -> int, src: Sources, id: string)
    requires src.Valid() && id in Candidates(src)
    ensures id in Candidates(AgedSources(times, src))
    ensures Candidates(AgedSources(times, src))[id] == Aged(times, Candidates(src)[id])
    ensures !Candidates(src)[id].kind.Episode? ==>
      RankedOf(AgedSources(times, src), Candidates(src)[id]) == RankedOf(src, Candidates(src)[id])
  {
    SameCandidate(times, src, id);
    if !Candidates(src)[id].kind.Episode? { SameDurable(times, src, Candidates(src)[id]); }
  }

  // --- When a durable memory is returned -----------------------------------------------------------------

  /** The response holds m when the episodes are of these ages. */
  ghost predicate ReturnedAt(times: string -> int, src: Sources, m: Memory, call: Call)
    requires src.Valid()
  {
    var aged := AgedSources(times, src);
    m in Rerank.MemoriesOf(Rerank.ResponseOf(aged, call.mode, call.present, call.reply, call.limit, RankingOf(aged)))
  }

  /** The reranking mode, whether a reranker is there, its reply, and the limit of the response. */
  datatype Call = Call(mode: Rerank.Mode, present: bool, reply: Rerank.Reply, limit: nat) {
    /** Without a reranker, or with a limit that spares what it may reorder. */
    predicate Spares() {
      !present || Rerank.CANDIDATE_LIMIT <= limit
    }
  }

  lemma CutExactly(src: Sources, results: seq<Ranked>, limit: nat, i: nat)
    requires IsRanking(src, results) && i < |results|
    ensures results[i].memory in Rerank.MemoriesOf(Rerank.Take(results, limit)) <==> i < limit
  {
    RankingHasDistinctIds(src, results);
    var kept := Rerank.MemoriesOf(Rerank.Take(results, limit));
    assert forall j :: 0 <= j < |kept| ==> kept[j] == results[j].memory;
    assert i < limit ==> kept[i] == results[i].memory;
  }

  /** Without a reranker a response is the ranking up to the limit. */
  lemma ResponseWithoutReranker(src: Sources, ranking: seq<Ranked>, mode: Rerank.Mode, reply: Rerank.Reply, limit: nat)
    ensures Rerank.ResponseOf(src, mode, false, reply, limit, ranking) == Rerank.Take(ranking, limit)
  {
  }

  lemma SameMembers<T>(s: seq<T>, t: seq<T>, x: T)
    requires multiset(s) == multiset(t)
    ensures x in s <==> x in t
  {
    assert x in s <==> x in multiset(s);
    assert x in t <==> x in multiset(t);
  }

  /** At given ages, a durable memory is returned exactly when fewer candidates than the limit are ahead of it. */
  lemma ReturnedAtExactly(times: string -> int, src: Sources, m: Memory, call: Call)
    requires src.Valid() && Admitted(src, m) && !m.kind.Episode? && call.Spares()
    ensures ReturnedAt(times, src, m, call) <==> |DurablesAhead(src, m)| + |EpisodesAhead(times, src, m)| < call.limit
  {
    var aged := AgedSources(times, src);
    var ranking := RankingOf(aged);
    SameDurable(times, src, m);
    assert RankedOf(src, m) in ranking;
    var i :| 0 <= i < |ranking| && ranking[i] == RankedOf(src, m);
    PlaceIsNumberAhead(aged, ranking, i);
    AheadAtAges(times, src, m);
    assert DurablesAhead(src, m) !! EpisodesAhead(times, src, m);
    ReplyKeepsMembers(aged, call.mode, call.present, call.reply, call.limit, ranking);
    CutExactly(aged, ranking, call.limit, i);
    SameMembers(Rerank.MemoriesOf(Rerank.ResponseOf(aged, call.mode, call.present, call.reply, call.limit, ranking)),
                Rerank.MemoriesOf(Rerank.Take(ranking, call.limit)), m);
  }

  // --- All ages ------------------------------------------------------------------------------------------

  lemma AheadIsBetween(times: string -> int, src: Sources, m: Memory)
    requires src.Valid()
    ensures Unavoidable(src, m) <= EpisodesAhead(times, src, m) <= Overtakers(src, m)
  {
    forall id | id in KeptIds(src) && Candidates(src)[id].kind.Episode?
      ensures id in Unavoidable(src, m) ==> id in EpisodesAhead(times, src, m)
      ensures id in EpisodesAhead(times, src, m) ==> id in Overtakers(src, m)
    {
      EpisodeIsBetween(times, src, Candidates(src)[id], m);
    }
  }

  lemma EpisodeIsBetween(times: string -> int, src: Sources, e: Memory, m: Memory)
    requires src.Valid() && e.kind.Episode?
    ensures MustOvertake(src, e, m) ==> Outranks(RankedOf(AgedSources(times, src), Aged(times, e)), RankedOf(src, m))
    ensures Outranks(RankedOf(AgedSources(times, src), Aged(times, e)), RankedOf(src, m)) ==> CanOvertake(src, e, m)
  {
    AgedScore(times, src, e);
  }

  lemma SmallerSet<T>(s: set<T>, t: set<T>)
    requires s <= t
    ensures |s| <= |t|
  {
    assert |t| == |s| + |t - s|;
  }

  /** Every episode updated after now and after m. */
  function AllNew(src: Sources, m: Memory): string -> int {
    id => (if src.now < m.updatedAt then m.updatedAt else src.now) + 1
  }

  lemma AllNewOvertake(src: Sources, m: Memory)
    requires src.Valid()
    ensures EpisodesAhead(AllNew(src, m), src, m) == Overtakers(src, m)
  {
    AheadIsBetween(AllNew(src, m), src, m);
    forall id | id in Overtakers(src, m) ensures id in EpisodesAhead(AllNew(src, m), src, m) {
      AgedScore(AllNew(src, m), src, Candidates(src)[id]);
      NewIsFullyRecent(src.now, AllNew(src, m)(Candidates(src)[id].id));
    }
  }

  /** Every episode that can be old enough to stay behind m is. */
  function AllOld(src: Sources, m: Memory): string -> int {
    id => if id in Candidates(src) && BaseScore(src, Candidates(src)[id]) < ScoreOf(src, m)
          then OldFor(src, m, Candidates(src)[id]) else 0
  }

  function OldFor(src: Sources, m: Memory, e: Memory): int
    requires BaseScore(src, e) < ScoreOf(src, m)
  {
    OldTime(src.now, ScoreOf(src, m) - BaseScore(src, e))
  }

  lemma AllOldStayBehind(src: Sources, m: Memory)
    requires src.Valid()
    ensures EpisodesAhead(AllOld(src, m), src, m) == Unavoidable(src, m)
  {
    AheadIsBetween(AllOld(src, m), src, m);
    forall id | id in EpisodesAhead(AllOld(src, m), src, m) ensures id in Unavoidable(src, m) {
      if BaseScore(src, Candidates(src)[id]) < ScoreOf(src, m) { OldStaysBehind(src, m, id); }
    }
  }

  lemma OldStaysBehind(src: Sources, m: Memory, id: string)
    requires src.Valid() && id in Candidates(src) && Candidates(src)[id].kind.Episode?
    requires BaseScore(src, Candidates(src)[id]) < ScoreOf(src, m)
    ensures RankedOf(AgedSources(AllOld(src, m), src), Aged(AllOld(src, m), Candidates(src)[id])).score
          < ScoreOf(src, m)
  {
    var e := Candidates(src)[id];
    CandidatesByRank(src, id);
    OldIsBelow(src, m, e);
    BehindAt(AllOld(src, m), src, m, e, OldFor(src, m, e));
  }

  lemma OldIsBelow(src: Sources, m: Memory, e: Memory)
    requires BaseScore(src, e) < ScoreOf(src, m)
    ensures BaseScore(src, e) + 0.05 * RecencyScore(src.now, OldFor(src, m, e)) < ScoreOf(src, m)
  {
    StaysBelow(BaseScore(src, e), ScoreOf(src, m), src.now);
  }

  lemma BehindAt(times: string -> int, src: Sources, m: Memory, e: Memory, t: int)
    requires src.Valid() && e.kind.Episode? && times(e.id) == t
    requires BaseScore(src, e) + 0.05 * RecencyScore(src.now, t) < ScoreOf(src, m)
    ensures RankedOf(AgedSources(times, src), Aged(times, e)).score < ScoreOf(src, m)
  {
    AgedScore(times, src, e);
  }

  lemma StaysBelow(base: real, score: real, now: int)
    requires base < score
    ensures base + 0.05 * RecencyScore(now, OldTime(now, score - base)) < score
  {
    OldAddsLittle(now, score - base);
  }

  /** A durable memory is returned at all ages exactly when it would be with everyone ahead who can overtake it. */
  lemma ReturnedAtAllAgesExactly(src: Sources, m: Memory, call: Call)
    requires src.Valid() && Admitted(src, m) && !m.kind.Episode? && call.Spares()
    ensures (forall times: string -> int :: ReturnedAt(times, src, m, call))
      <==> |DurablesAhead(src, m)| + |Overtakers(src, m)| < call.limit
  {
    if |DurablesAhead(src, m)| + |Overtakers(src, m)| < call.limit {
      forall times: string -> int ensures ReturnedAt(times, src, m, call) {
        ReturnedAtExactly(times, src, m, call);
        AheadIsBetween(times, src, m);
        SmallerSet(EpisodesAhead(times, src, m), Overtakers(src, m));
      }
    } else {
      ReturnedAtExactly(AllNew(src, m), src, m, call);
      AllNewOvertake(src, m);
    }
  }

  /** It is returned at some age exactly when it is with only those ahead who always are. */
  lemma ReturnedAtSomeAgeExactly(src: Sources, m: Memory, call: Call)
    requires src.Valid() && Admitted(src, m) && !m.kind.Episode? && call.Spares()
    ensures (exists times: string -> int :: ReturnedAt(times, src, m, call))
      <==> |DurablesAhead(src, m)| + |Unavoidable(src, m)| < call.limit
  {
    if times: string -> int :| ReturnedAt(times, src, m, call) {
      ReturnedAtExactly(times, src, m, call);
      AheadIsBetween(times, src, m);
      SmallerSet(Unavoidable(src, m), EpisodesAhead(times, src, m));
    }
    if |DurablesAhead(src, m)| + |Unavoidable(src, m)| < call.limit {
      ReturnedAtExactly(AllOld(src, m), src, m, call);
      AllOldStayBehind(src, m);
    }
  }

  /** The limit falls between the places that m takes when the episodes are old and when they are new. */
  ghost predicate Displaceable(src: Sources, m: Memory, limit: nat) {
    |DurablesAhead(src, m)| + |Unavoidable(src, m)| < limit <= |DurablesAhead(src, m)| + |Overtakers(src, m)|
  }

  /** The ages of the episodes decide whether a durable memory is returned exactly when it is displaceable. */
  lemma DisplacedExactly(src: Sources, m: Memory, call: Call)
    requires src.Valid() && Admitted(src, m) && !m.kind.Episode? && call.Spares()
    ensures (exists times: string -> int, times': string -> int ::
               ReturnedAt(times, src, m, call) && !ReturnedAt(times', src, m, call))
      <==> Displaceable(src, m, call.limit)
  {
    ReturnedAtAllAgesExactly(src, m, call);
    ReturnedAtSomeAgeExactly(src, m, call);
  }

  // --- The durable part of a ranking ---------------------------------------------------------------

  function IsDurableResult(): Ranked -> bool { (r: Ranked) => !r.memory.kind.Episode? }

  function Durables(results: seq<Ranked>): seq<Ranked> {
    Filter(IsDurableResult(), results)
  }

  lemma {:induction false} SortedFilter(p: Ranked -> bool, s: seq<Ranked>)
    requires Sorted(Outranks, s)
    ensures Sorted(Outranks, Filter(p, s))
  {
    if s != [] {
      var n := |s| - 1;
      SortedFilter(p, s[..n]);
      FilterMembers(p, s[..n]);
      forall x | x in Filter(p, s[..n]) ensures Outranks(x, s[n]) {
        assert x in s[..n];
      }
    }
  }

  /** The ages of the episodes do not influence which durable memories are ranked, their scores and their order. */
  lemma DurablesKeepTheirOrder(times: string -> int, src: Sources, ranking: seq<Ranked>, aged: seq<Ranked>)
    requires src.Valid() && IsRanking(src, ranking) && IsRanking(AgedSources(times, src), aged)
    ensures Durables(aged) == Durables(ranking)
  {
    SortedFilter(IsDurableResult(), ranking);
    SortedFilter(IsDurableResult(), aged);
    FilterMembers(IsDurableResult(), ranking);
    FilterMembers(IsDurableResult(), aged);
    forall r: Ranked ensures r in Durables(aged) <==> r in Durables(ranking) {
      if !r.memory.kind.Episode? { SameDurable(times, src, r.memory); }
    }
    OutranksIsStrictTotal();
    SortedIsUnique(Outranks, Durables(aged), Durables(ranking));
  }

  lemma {:induction false} DurableMemories(results: seq<Ranked>)
    ensures Filter(IsDurable(), Rerank.MemoriesOf(results)) == Rerank.MemoriesOf(Durables(results))
  {
    if results != [] {
      var n := |results| - 1;
      var memories := Rerank.MemoriesOf(results);
      assert memories[..n] == Rerank.MemoriesOf(results[..n]);
      DurableMemories(results[..n]);
    }
  }

  // --- Contexts --------------------------------------------------------------------------------------------

  /** No limit of a context falls between two places of a durable memory. */
  ghost predicate Undisturbed(src: Sources) {
    forall m :: Admitted(src, m) && !m.kind.Episode? ==> !Displaceable(src, m, CONTEXT_LIMIT)
  }

  /** As many searched candidates as documented leave every durable memory undisturbed. */
  lemma FewCandidatesAreUndisturbed(src: Sources)
    requires src.Valid() && |src.lexical| + |src.Scores().Keys| <= CONTEXT_LIMIT
    ensures Undisturbed(src)
  {
    KeptIdsAreFew(src);
    forall m | Admitted(src, m) && !m.kind.Episode? ensures !Displaceable(src, m, CONTEXT_LIMIT) {
      var d, o := DurablesAhead(src, m), Overtakers(src, m);
      OutranksIsStrictTotal();
      assert d !! o && m.id !in d + o;
      SmallerSet(d + o + {m.id}, KeptIds(src));
    }
  }

  lemma {:induction false} HitIds(hits: seq<Memory>)
    ensures |set m | m in hits :: m.id| <= |hits|
  {
    if hits != [] {
      var n := |hits| - 1;
      HitIds(hits[..n]);
      assert hits == hits[..n] + [hits[n]];
      assert (set m | m in hits :: m.id) == (set m | m in hits[..n] :: m.id) + {hits[n].id};
    }
  }

  lemma KeptIdsAreFew(src: Sources)
    requires src.Valid()
    ensures |KeptIds(src)| <= |src.lexical| + |src.Scores().Keys|
  {
    var hits := set m | m in src.lexical :: m.id;
    HitIds(src.lexical);
    SmallerSet(KeptIds(src), hits + src.Scores().Keys);
  }

  /** The memories that reach the assembly when the episodes are of these ages. */
  ghost function ReceivedAt(times: string -> int, src: Sources, present: bool, reply: Rerank.Reply): seq<Memory>
    requires src.Valid()
  {
    Received(AgedSources(times, src), present, reply, RankingOf(AgedSources(times, src)))
  }

  function ContextCall(present: bool, reply: Rerank.Reply): Call {
    Call(Rerank.Auto, present, reply, CONTEXT_LIMIT)
  }

  lemma FilterPrefix<T(!new)>(p: T -> bool, s: seq<T>, n: nat)
    requires n <= |s|
    ensures Filter(p, s[..n]) <= Filter(p, s)
  {
    assert s == s[..n] + s[n..];
    FilterAppend(p, s[..n], s[n..]);
  }

  lemma PrefixMember<T(!new)>(s: seq<T>, all: seq<T>, i: nat)
    requires s <= all && Distinct(all) && i < |all|
    ensures all[i] in s <==> i < |s|
  {
    assert forall k :: 0 <= k < |s| ==> s[k] == all[k];
    assert i < |s| ==> s[i] == all[i];
  }

  /** Two prefixes of one duplicate-free list with the same elements are the same. */
  lemma SamePrefix<T(!new)>(s: seq<T>, t: seq<T>, all: seq<T>)
    requires s <= all && t <= all && Distinct(all) && forall x :: x in all ==> (x in s <==> x in t)
    ensures s == t
  {
    var k := if |s| < |t| then |s| else |t|;
    if k < |all| {
      PrefixMember(s, all, k);
      PrefixMember(t, all, k);
    }
  }

  /** The durable memories of a cut ranking are the first of the ranking's durable memories. */
  lemma DurablesOfCut(times: string -> int, src: Sources)
    requires src.Valid()
    ensures var aged := AgedSources(times, src);
      var all := Rerank.MemoriesOf(Durables(RankingOf(src)));
      Filter(IsDurable(), ReceivedAt(times, src, false, Rerank.Failed)) <= all
  {
    var aged := AgedSources(times, src);
    var ranking := RankingOf(aged);
    var cut := Rerank.Take(ranking, CONTEXT_LIMIT);
    DurableMemories(cut);
    DurablesKeepTheirOrder(times, src, RankingOf(src), ranking);
    FilterPrefix(IsDurableResult(), ranking, |cut|);
    assert cut == ranking[..|cut|];
    assert Rerank.MemoriesOf(Durables(cut)) <= Rerank.MemoriesOf(Durables(ranking));
  }

  lemma DurableIsReturned(times: string -> int, src: Sources, present: bool, reply: Rerank.Reply, m: Memory)
    requires src.Valid() && !m.kind.Episode?
    ensures m in Filter(IsDurable(), ReceivedAt(times, src, present, reply))
      <==> ReturnedAt(times, src, m, ContextCall(present, reply))
  {
    FilterMembers(IsDurable(), ReceivedAt(times, src, present, reply));
  }

  /** Without a reranker, the durable memories that the assembly receives, in order. */
  ghost function DurablesReceived(times: string -> int, src: Sources): seq<Memory>
    requires src.Valid()
  {
    Filter(IsDurable(), ReceivedAt(times, src, false, Rerank.Failed))
  }

  lemma UndisturbedAlike(times: string -> int, times': string -> int, src: Sources)
    requires src.Valid() && Undisturbed(src)
    ensures DurablesReceived(times, src) == DurablesReceived(times', src)
  {
    var all := Rerank.MemoriesOf(Durables(RankingOf(src)));
    DurablesOfCut(times, src);
    DurablesOfCut(times', src);
    DurablesAreAdmitted(src);
    forall m | m in all ensures m in DurablesReceived(times, src) <==> m in DurablesReceived(times', src) {
      DurableIsReturned(times, src, false, Rerank.Failed, m);
      DurableIsReturned(times', src, false, Rerank.Failed, m);
      DisplacedExactly(src, m, ContextCall(false, Rerank.Failed));
    }
    SamePrefix(DurablesReceived(times, src), DurablesReceived(times', src), all);
  }

  lemma DurablesAreAdmitted(src: Sources)
    requires src.Valid()
    ensures var all := Rerank.MemoriesOf(Durables(RankingOf(src)));
      Distinct(all) && forall m :: m in all ==> Admitted(src, m) && !m.kind.Episode?
  {
    var ranking := RankingOf(src);
    var kept := Durables(ranking);
    OutranksIsStrictTotal();
    SortedIsDistinct(Outranks, ranking);
    FilterDistinct(IsDurableResult(), ranking);
    FilterMembers(IsDurableResult(), ranking);
    forall i | 0 <= i < |kept|
      ensures Admitted(src, kept[i].memory) && kept[i] == RankedOf(src, kept[i].memory)
        && !kept[i].memory.kind.Episode?
    {
      assert kept[i] in kept;
    }
  }

  /**
   Without a reranker the assembly receives at all ages the same durable memories in the same order, exactly
   when the request leaves them undisturbed.
   */
  lemma DurablesReceivedAlikeExactly(src: Sources)
    requires src.Valid()
    ensures (forall times: string -> int, times': string -> int ::
               DurablesReceived(times, src) == DurablesReceived(times', src))
      <==> Undisturbed(src)
  {
    if Undisturbed(src) {
      forall times: string -> int, times': string -> int
        ensures DurablesReceived(times, src) == DurablesReceived(times', src)
      {
        UndisturbedAlike(times, times', src);
      }
    } else {
      var m :| Admitted(src, m) && !m.kind.Episode? && Displaceable(src, m, CONTEXT_LIMIT);
      DisturbedDiffer(src, m);
    }
  }

  lemma DisturbedDiffer(src: Sources, m: Memory)
    requires src.Valid() && Admitted(src, m) && !m.kind.Episode? && Displaceable(src, m, CONTEXT_LIMIT)
    ensures exists times: string -> int, times': string -> int ::
      DurablesReceived(times, src) != DurablesReceived(times', src)
  {
    var call := ContextCall(false, Rerank.Failed);
    DisplacedExactly(src, m, call);
    var times: string -> int, times': string -> int :|
      ReturnedAt(times, src, m, call) && !ReturnedAt(times', src, m, call);
    DurableIsReturned(times, src, false, Rerank.Failed, m);
    DurableIsReturned(times', src, false, Rerank.Failed, m);
    assert DurablesReceived(times, src) != DurablesReceived(times', src);
  }

  /** Then the ages of the episodes influence no artifact, instruction, decision or fact of the context. */
  lemma EpisodeAgesDoNotInterfere(times: string -> int, times': string -> int, src: Sources, r: Request,
                                  arts: seq<Artifact>)
    requires src.Valid() && Undisturbed(src)
    ensures var a := Answer(Assemble(r, arts, ReceivedAt(times, src, false, Rerank.Failed)));
      var b := Answer(Assemble(r, arts, ReceivedAt(times', src, false, Rerank.Failed)));
      a.artifacts == b.artifacts && a.instructions == b.instructions && a.decisions == b.decisions && a.facts == b.facts
  {
    UndisturbedAlike(times, times', src);
    EpisodesDoNotInterfere(r, arts, ReceivedAt(times, src, false, Rerank.Failed),
                           ReceivedAt(times', src, false, Rerank.Failed));
  }

  /** A reranker that is present changes no more than the order in which the assembly receives them. */
  lemma RerankerOnlyReorders(times: string -> int, times': string -> int, src: Sources, present: bool,
                             reply: Rerank.Reply)
    requires src.Valid() && Undisturbed(src)
    ensures multiset(Filter(IsDurable(), ReceivedAt(times, src, present, reply)))
         == multiset(DurablesReceived(times', src))
  {
    var aged := AgedSources(times, src);
    ReplyOnlyReorders(aged, present, reply, RankingOf(aged));
    ReplyOnlyReorders(aged, false, Rerank.Failed, RankingOf(aged));
    FilterPermutation(IsDurable(), ReceivedAt(times, src, present, reply),
                      ReceivedAt(times, src, false, Rerank.Failed));
    UndisturbedAlike(times, times', src);
  }

  /** The provider is sent a durable memory at all ages under the same condition with its own limit of twelve. */
  lemma SentAtAllAgesExactly(src: Sources, m: Memory)
    requires src.Valid() && Admitted(src, m) && !m.kind.Episode?
    ensures (forall times: string -> int :: SentAt(times, src, m))
      <==> |DurablesAhead(src, m)| + |Overtakers(src, m)| < Rerank.CANDIDATE_LIMIT
  {
    var call := Call(Rerank.Never, false, Rerank.Failed, Rerank.CANDIDATE_LIMIT);
    ReturnedAtAllAgesExactly(src, m, call);
    forall times: string -> int ensures SentAt(times, src, m) <==> ReturnedAt(times, src, m, call) {
      SentIsReturned(times, src, m);
    }
  }

  ghost predicate SentAt(times: string -> int, src: Sources, m: Memory)
    requires src.Valid()
  {
    var ranking := RankingOf(AgedSources(times, src));
    m in Rerank.MemoriesOf(ranking[..Rerank.CandidateCount(ranking)])
  }

  lemma SentIsReturned(times: string -> int, src: Sources, m: Memory)
    requires src.Valid()
    ensures SentAt(times, src, m)
      <==> ReturnedAt(times, src, m, Call(Rerank.Never, false, Rerank.Failed, Rerank.CANDIDATE_LIMIT))
  {
    var aged := AgedSources(times, src);
    var ranking := RankingOf(aged);
    ResponseWithoutReranker(aged, ranking, Rerank.Never, Rerank.Failed, Rerank.CANDIDATE_LIMIT);
    assert Rerank.Take(ranking, Rerank.CANDIDATE_LIMIT) == ranking[..Rerank.CandidateCount(ranking)];
  }

  // --- A limit of one ---------------------------------------------------------------------------------------

  const DAY := 86400

  /** An instruction or a decision found first, and an episode found second, a thousand days old or new. */
  function DurableHit(kind: MemoryType): Memory { FIRST_HIT.(kind := kind) }

  const OLD_EPISODE := FIRST_HIT.(id := "b", kind := Episode, updatedAt := -1000 * DAY)
  const NEW_EPISODE := OLD_EPISODE.(updatedAt := 0)

  lemma OldIsSecond(kind: MemoryType, ranking: seq<Ranked>)
    requires !kind.Episode? && IsRanking(TwoHits(DurableHit(kind), OLD_EPISODE, []), ranking)
    ensures |ranking| == 2 && ranking[0].memory == DurableHit(kind)
  {
    TwoHitRanks(DurableHit(kind), OLD_EPISODE, []);
    TwoHitRanking(DurableHit(kind), OLD_EPISODE, [], ranking);
  }

  lemma NewIsFirst(kind: MemoryType, ranking: seq<Ranked>)
    requires !kind.Episode? && IsRanking(TwoHits(DurableHit(kind), NEW_EPISODE, []), ranking)
    ensures |ranking| == 2 && ranking[0].memory == NEW_EPISODE
  {
    TwoHitRanks(DurableHit(kind), NEW_EPISODE, []);
    TwoHitRanking(DurableHit(kind), NEW_EPISODE, [], ranking);
  }

  lemma AgedHits(kind: MemoryType, times: string -> int)
    requires !kind.Episode?
    ensures AgedSources(times, TwoHits(DurableHit(kind), OLD_EPISODE, []))
         == TwoHits(DurableHit(kind), OLD_EPISODE.(updatedAt := times("b")), [])
  {
    assert Aged(times, DurableHit(kind)) == DurableHit(kind);
  }

  lemma FirstOfTwo(kind: MemoryType, times: string -> int)
    requires !kind.Episode? && (times("b") == -1000 * DAY || times("b") == 0)
    ensures var src := TwoHits(DurableHit(kind), OLD_EPISODE, []);
      ReturnedAt(times, src, DurableHit(kind), Call(Rerank.Never, false, Rerank.Failed, 1)) <==> times("b") != 0
  {
    var src := TwoHits(DurableHit(kind), OLD_EPISODE, []);
    AgedHits(kind, times);
    var aged := AgedSources(times, src);
    var ranking := RankingOf(aged);
    ResponseWithoutReranker(aged, ranking, Rerank.Never, Rerank.Failed, 1);
    AgedFirst(kind, times, ranking);
    assert Rerank.MemoriesOf(Rerank.Take(ranking, 1)) == [ranking[0].memory];
  }

  lemma AgedFirst(kind: MemoryType, times: string -> int, ranking: seq<Ranked>)
    requires !kind.Episode? && (times("b") == -1000 * DAY || times("b") == 0)
    requires IsRanking(TwoHits(DurableHit(kind), OLD_EPISODE.(updatedAt := times("b")), []), ranking)
    ensures |ranking| == 2 && (ranking[0].memory == DurableHit(kind) <==> times("b") != 0)
  {
    if times("b") == 0 { NewIsFirst(kind, ranking); } else { OldIsSecond(kind, ranking); }
  }

  /** With a limit of one, an instruction or decision is returned with the episode old, and displaced with it new. */
  lemma NewEpisodeDisplaces(kind: MemoryType)
    requires kind.Instruction? || kind.Decision?
    ensures var src := TwoHits(DurableHit(kind), OLD_EPISODE, []);
      var call := Call(Rerank.Never, false, Rerank.Failed, 1);
      && src.Valid() && Admitted(src, DurableHit(kind))
      && ReturnedAt(_ => -1000 * DAY, src, DurableHit(kind), call)
      && !ReturnedAt(_ => 0, src, DurableHit(kind), call)
  {
    FirstOfTwo(kind, _ => -1000 * DAY);
    FirstOfTwo(kind, _ => 0);
    TwoHitsAdmitted(DurableHit(kind), OLD_EPISODE, [], DurableHit(kind));
  }
}
