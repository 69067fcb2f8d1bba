/**
 Hybrid retrieval: lexical hits and semantic scores are fused into one ranked list. The candidates live
 in hash maps whose iteration order is arbitrary; the list that comes out is not.
 */
module Retrieval {
  import opened EventStore
  import opened Ordering
  import opened Sequences
  import opened Text
  import ScopeClosure

  datatype MemoryType = Instruction | Decision | Fact | Episode | Other(name: string)

  /** A memory version; `semanticKey` is metadata.semantic_key, empty when it is missing or no string. */
  datatype Memory = Memory(
    id: string, kind: MemoryType, scope: string, version: nat, subject: string, title: string, content: string,
    semanticKey: string, importance: real, confidence: real, state: string,
    validFrom: Option<int>, validUntil: Option<int>, updatedAt: int)

  /** An entity with its display name and aliases. */
  datatype Entity = Entity(id: string, names: seq<string>)

  /** The score components, which are also the explanation of a result. */
  datatype Parts = Parts(lexical: real, semantic: real, entity: real, scope: real, importance: real, confidence: real,
    recency: real)

  datatype Ranked = Ranked(memory: Memory, score: real)

  /**
   Everything one request reads: the trimmed query, the expanded scopes, the entity ids it names, the entities
   its text resolves to, the ids related to any of these, the lexical hits in order, the semantic scores (None
   in lexical mode), the current memories by id (None when that lookup fails) and the clock in seconds.
   */
  datatype Sources = Sources(
    query: string, scopes: seq<string>, requested: seq<string>, resolved: seq<Entity>,
    entityRows: map<string, Entity>, related: set<string>, lexical: seq<Memory>,
    semantic: Option<map<string, real>>, current: Option<map<string, Memory>>, now: int)
  {
    /** The lookup by id returns rows with that id. */
    ghost predicate Valid() {
      current.Some? ==> forall id :: id in current.value ==> current.value[id].id == id
    }

    function Scores(): map<string, real> {
      if semantic.Some? then semantic.value else map[]
    }
  }

  // --- Eligibility -----------------------------------------------------------------------------

  predicate Eligible(src: Sources, m: Memory) {
    && m.state == "active"
    && (src.scopes == [] || m.scope in src.scopes)
    && (m.validFrom.None? || m.validFrom.value <= src.now)
    && (m.validUntil.None? || m.validUntil.value >= src.now)
  }

  /** One more than the index of the last eligible hit with this id, 0 without one. */
  function LastHit(src: Sources, hits: seq<Memory>, id: string): (r: nat)
    ensures r <= |hits|
    ensures r > 0 ==> Eligible(src, hits[r - 1]) && hits[r - 1].id == id
  {
    if hits == [] then 0
    else
      var n := |hits| - 1;
      if Eligible(src, hits[n]) && hits[n].id == id then |hits| else LastHit(src, hits[..n], id)
  }

  function LexicalRank(src: Sources, id: string): nat {
    LastHit(src, src.lexical, id)
  }

  /** Semantic order: higher score first, then smaller id. */
  predicate Closer(scores: map<string, real>, a: string, b: string) {
    a in scores && b in scores && (scores[a] > scores[b] || (scores[a] == scores[b] && TextLess(a, b)))
  }

  /** One more than the number of closer ids, 0 without a score. */
  function SemanticRank(src: Sources, id: string): nat {
    var scores := src.Scores();
    if id in scores then 1 + |set j | j in scores && Closer(scores, j, id)| else 0
  }

  predicate SemanticHit(src: Sources, id: string) {
    id in src.Scores() && src.current.Some? && id in src.current.value && Eligible(src, src.current.value[id])
  }

  function Candidates(src: Sources): map<string, Memory> {
    map id | id in (set m | m in src.lexical :: m.id) + src.Scores().Keys
      && (LexicalRank(src, id) > 0 || SemanticHit(src, id)) ::
      if LexicalRank(src, id) > 0 then src.lexical[LexicalRank(src, id) - 1] else src.current.value[id]
  }

  lemma CandidatesByRank(src: Sources, id: string)
    requires src.Valid()
    ensures id in Candidates(src) <==> LexicalRank(src, id) > 0 || SemanticHit(src, id)
    ensures id in Candidates(src) ==> Candidates(src)[id].id == id && Eligible(src, Candidates(src)[id])
  {
    var r := LexicalRank(src, id);
    assert r > 0 ==> src.lexical[r - 1] in src.lexical;
  }

  // --- Filters ---------------------------------------------------------------------------------

  function SubjectOf(m: Memory): string {
    Lower(TrimSpace(m.subject))
  }

  /** The query contains the memory's subject. */
  predicate NamesSubject(query: string, m: Memory) {
    SubjectOf(m) != "" && Contains(Lower(query), SubjectOf(m))
  }

  function NamedSubjects(query: string, candidates: map<string, Memory>): set<string> {
    set id | id in candidates && NamesSubject(query, candidates[id]) :: SubjectOf(candidates[id])
  }

  /** With exactly one subject named by the query, only its memories stay. */
  predicate SubjectKept(src: Sources, m: Memory) {
    var named := NamedSubjects(src.query, Candidates(src));
    |named| == 1 ==> SubjectOf(m) in named
  }

  /** The resolved entities, then the requested ones that exist and are not listed yet. */
  function Entities(src: Sources, requested: seq<string>): seq<Entity> {
    if requested == [] then src.resolved
    else
      var before := Entities(src, requested[..|requested| - 1]);
      var id := requested[|requested| - 1];
      if id in src.entityRows && (forall i :: 0 <= i < |before| ==> before[i].id != id)
        then before + [src.entityRows[id]] else before
  }

  predicate MentionsName(m: Memory, name: string) {
    var n := TrimSpace(Lower(name));
    n != "" && Contains(Lower(Join([m.subject, m.title, m.content], " ")), n)
  }

  predicate MentionsEntity(m: Memory, e: Entity) {
    exists j :: 0 <= j < |e.names| && MentionsName(m, e.names[j])
  }

  predicate EntityMatch(src: Sources, m: Memory) {
    var entities := Entities(src, src.requested);
    m.id in src.related || exists i :: 0 <= i < |entities| && MentionsEntity(m, entities[i])
  }

  predicate EntityEnforced(src: Sources) {
    src.requested != [] || |Entities(src, src.requested)| == 1
  }

  predicate Kept(src: Sources, m: Memory) {
    SubjectKept(src, m) && (EntityEnforced(src) ==> EntityMatch(src, m))
  }

  // --- Scores ----------------------------------------------------------------------------------

  function ReciprocalRank(rank: nat): (r: real)
    ensures 0.0 <= r <= 1.0
    ensures r == 0.0 <==> rank == 0
  {
    if rank == 0 then 0.0 else 61.0 / (60 + rank) as real
  }

  lemma PositiveFactor(d: real, x: real)
    requires d * x > 0.0 && x > 0.0
    ensures d > 0.0
  {
  }

  /** A smaller rank scores strictly higher. */
  lemma ReciprocalRankDecreases(a: nat, b: nat)
    requires 0 < a < b
    ensures ReciprocalRank(b) < ReciprocalRank(a)
  {
    var x, y := (60 + a) as real, (60 + b) as real;
    var p, q := 61.0 / x, 61.0 / y;
    assert p * x == 61.0 && q * y == 61.0 && q > 0.0;
    assert q * (y - x) > 0.0;
    assert (p - q) * x == q * (y - x);
    PositiveFactor(p - q, x);
  }

  /** Age of an update: 1 when new, a half after thirty days. */
  function RecencyScore(now: int, updatedAt: int): (r: real)
    ensures 0.0 < r <= 1.0
  {
    var days := (now - updatedAt) as real / 86400.0;
    if days < 0.0 then 1.0 else 1.0 / (1.0 + days / 30.0)
  }

  function Components(src: Sources, m: Memory): Parts {
    Parts(
      ReciprocalRank(LexicalRank(src, m.id)),
      ReciprocalRank(SemanticRank(src, m.id)),
      if EntityMatch(src, m) then 1.0 else 0.0,
      ScopeClosure.ScopeScore(src.scopes, m.scope),
      m.importance,
      m.confidence,
      if m.kind.Episode? then RecencyScore(src.now, m.updatedAt) else 0.0)
  }

  function Weigh(p: Parts, hybrid: bool): real {
    (if hybrid then 0.36 else 0.65) * p.lexical + (if hybrid then 0.29 else 0.0) * p.semantic
    + 0.15 * p.entity + 0.1 * p.scope + 0.05 * p.importance + 0.05 * p.confidence + 0.05 * p.recency
  }

  function RankedOf(src: Sources, m: Memory): Ranked {
    Ranked(m, Weigh(Components(src, m), src.semantic.Some?))
  }

  // --- The ranking -----------------------------------------------------------------------------

  /** Version, then update time, both descending, then id. */
  predicate BreaksTie(a: Memory, b: Memory) {
    if a.version != b.version then a.version > b.version
    else if a.updatedAt != b.updatedAt then a.updatedAt > b.updatedAt
    else TextLess(a.id, b.id)
  }

  /** The higher score; between equal scores the tie-breaking rule. */
  predicate Outranks(a: Ranked, b: Ranked) {
    if a.score != b.score then a.score > b.score else BreaksTie(a.memory, b.memory)
  }

  /** The comparator is a strict total order on results with distinct ids. */
  lemma OutranksIsStrictTotal()
    ensures Asymmetric(Outranks) && Transitive(Outranks)
    ensures forall a: Ranked, b: Ranked :: a.memory.id != b.memory.id ==> Outranks(a, b) || Outranks(b, a)
  {
    forall a, b | Outranks(a, b) ensures !Outranks(b, a) {
      if TextLess(a.memory.id, b.memory.id) { TextLessAsymmetric(a.memory.id, b.memory.id); }
    }
    forall a, b, c | Outranks(a, b) && Outranks(b, c) ensures Outranks(a, c) {
      if TextLess(a.memory.id, b.memory.id) && TextLess(b.memory.id, c.memory.id) {
        TextLessTransitive(a.memory.id, b.memory.id, c.memory.id);
      }
    }
    forall a: Ranked, b: Ranked | a.memory.id != b.memory.id ensures Outranks(a, b) || Outranks(b, a) {
      TextLessTotal(a.memory.id, b.memory.id);
    }
  }

  lemma CloserIsStrictTotal(scores: map<string, real>)
    ensures var less := (a, b) => Closer(scores, a, b); Asymmetric(less) && Transitive(less)
    ensures forall a, b :: a in scores && b in scores && a != b ==> Closer(scores, a, b) || Closer(scores, b, a)
  {
    forall a, b | Closer(scores, a, b) ensures !Closer(scores, b, a) {
      if TextLess(a, b) { TextLessAsymmetric(a, b); }
    }
    forall a, b, c | Closer(scores, a, b) && Closer(scores, b, c) ensures Closer(scores, a, c) {
      if TextLess(a, b) && TextLess(b, c) { TextLessTransitive(a, b, c); }
    }
    forall a, b | a in scores && b in scores && a != b ensures Closer(scores, a, b) || Closer(scores, b, a) {
      TextLessTotal(a, b);
    }
  }

  predicate Admitted(src: Sources, m: Memory) {
    m.id in Candidates(src) && Candidates(src)[m.id] == m && Kept(src, m)
  }

  /** Sorted, and exactly the kept candidates with their scores. */
  ghost predicate IsRanking(src: Sources, results: seq<Ranked>) {
    && Sorted(Outranks, results)
    && (forall r: Ranked :: r in results <==> Admitted(src, r.memory) && r == RankedOf(src, r.memory))
  }

  /** The request alone determines the ranking: iteration order has no influence. */
  lemma RankingIsDetermined(src: Sources, first: seq<Ranked>, second: seq<Ranked>)
    requires IsRanking(src, first) && IsRanking(src, second)
    ensures first == second
  {
    OutranksIsStrictTotal();
    SortedIsUnique(Outranks, first, second);
  }

  /** Every memory appears at most once. */
  lemma RankingHasDistinctIds(src: Sources, results: seq<Ranked>)
    requires IsRanking(src, results)
    ensures forall i, j :: 0 <= i < j < |results| ==> results[i].memory.id != results[j].memory.id
  {
    OutranksIsStrictTotal();
    SortedIsDistinct(Outranks, results);
    forall i, j | 0 <= i < j < |results| ensures results[i].memory.id != results[j].memory.id {
      assert results[i] in results && results[j] in results;
    }
  }

  function KeptIds(src: Sources): set<string> {
    set id | id in Candidates(src) && Kept(src, Candidates(src)[id])
  }

  /** Some sorted list holds exactly the results of these candidates. */
  lemma {:induction false} RankedList(src: Sources, ids: set<string>) returns (results: seq<Ranked>)
    requires src.Valid() && ids <= KeptIds(src)
    ensures Sorted(Outranks, results)
    ensures forall r: Ranked :: r in results <==>
      r.memory.id in ids && r.memory == Candidates(src)[r.memory.id] && r == RankedOf(src, r.memory)
    decreases |ids|
  {
    if ids == {} {
      results := [];
    } else {
      var id :| id in ids;
      var rest := RankedList(src, ids - {id});
      results := InsertRanked(src, ids, id, rest);
    }
  }

  lemma InsertRanked(src: Sources, ids: set<string>, id: string, rest: seq<Ranked>) returns (results: seq<Ranked>)
    requires src.Valid() && ids <= KeptIds(src) && id in ids && Sorted(Outranks, rest)
    requires forall r: Ranked :: r in rest <==>
      r.memory.id in ids - {id} && r.memory == Candidates(src)[r.memory.id] && r == RankedOf(src, r.memory)
    ensures Sorted(Outranks, results)
    ensures forall r: Ranked :: r in results <==>
      r.memory.id in ids && r.memory == Candidates(src)[r.memory.id] && r == RankedOf(src, r.memory)
  {
    OutranksIsStrictTotal();
    CandidatesByRank(src, id);
    var x := RankedOf(src, Candidates(src)[id]);
    var k := Position(Outranks, rest, x);
    Inserted(Outranks, rest, x, k);
    results := rest[..k] + [x] + rest[k..];
    forall r: Ranked ensures r in results <==> r in rest || r == x {
      assert r in results <==> r in multiset(results);
      assert r in rest <==> r in multiset(rest);
    }
  }

  lemma RankingExists(src: Sources)
    requires src.Valid()
    ensures exists results :: IsRanking(src, results)
  {
    var results := RankedList(src, KeptIds(src));
    assert IsRanking(src, results);
  }

  /** The ranking of a request. */
  ghost function RankingOf(src: Sources): (results: seq<Ranked>)
    requires src.Valid()
    ensures IsRanking(src, results)
  {
    RankingExists(src);
    var results :| IsRanking(src, results);
    results
  }

  /** The kept candidates that outrank a result. */
  ghost function Ahead(src: Sources, r: Ranked): set<string> {
    set id | id in KeptIds(src) && Outranks(RankedOf(src, Candidates(src)[id]), r)
  }

  /** A result stands in the ranking behind as many others as there are kept candidates that outrank it. */
  lemma PlaceIsNumberAhead(src: Sources, results: seq<Ranked>, i: nat)
    requires src.Valid() && IsRanking(src, results) && i < |results|
    ensures |Ahead(src, results[i])| == i
  {
    RankingHasDistinctIds(src, results);
    var ids := Transform((r: Ranked) => r.memory.id, results);
    SizeOfPrefix(ids, i);
    forall id ensures id in Members(ids[..i]) <==> id in Ahead(src, results[i]) {
      AheadIsBefore(src, results, i, id);
    }
    assert Members(ids[..i]) == Ahead(src, results[i]);
  }

  lemma AheadIsBefore(src: Sources, results: seq<Ranked>, i: nat, id: string)
    requires src.Valid() && IsRanking(src, results) && i < |results|
    ensures id in Transform((r: Ranked) => r.memory.id, results)[..i] <==> id in Ahead(src, results[i])
  {
    var ids := Transform((r: Ranked) => r.memory.id, results);
    OutranksIsStrictTotal();
    if id in ids[..i] {
      var k :| 0 <= k < i && ids[k] == id;
      assert results[k] in results && Outranks(results[k], results[i]);
    }
    if id in Ahead(src, results[i]) {
      CandidatesByRank(src, id);
      var r := RankedOf(src, Candidates(src)[id]);
      assert r in results;
      var k :| 0 <= k < |results| && results[k] == r;
      SortedPlaces(Outranks, results, k, i);
      assert ids[..i][k] == id;
    }
  }

  /** Write-time validation keeps importance and confidence between 0 and 1. */
  ghost predicate Rated(m: Memory) {
    0.0 <= m.importance <= 1.0 && 0.0 <= m.confidence <= 1.0
  }

  lemma ScopeScoreBounds(scopes: seq<string>, scope: string)
    ensures 0.0 <= ScopeClosure.ScopeScore(scopes, scope) <= 1.0
  {
    var n := ScopeClosure.FirstIndex(scopes, scope);
    if n < |scopes| {
      var x, y := (n + 1) as real, |scopes| as real;
      assert x / y * y == x;
    }
  }

  /** Scores lie in [0, 1.05], and in [0, 1] for everything but episodes. */
  lemma ScoresAreBounded(src: Sources, results: seq<Ranked>, r: Ranked)
    requires IsRanking(src, results) && r in results && Rated(r.memory)
    ensures 0.0 <= r.score <= 1.05
    ensures !r.memory.kind.Episode? ==> r.score <= 1.0
  {
    ScopeScoreBounds(src.scopes, r.memory.scope);
  }

  /** a is at least as good as b in every component and better in one that counts. */
  ghost predicate Dominates(p: Parts, q: Parts, hybrid: bool) {
    && p.lexical >= q.lexical && p.semantic >= q.semantic && p.entity >= q.entity && p.scope >= q.scope
    && p.importance >= q.importance && p.confidence >= q.confidence && p.recency >= q.recency
    && (p.lexical > q.lexical || (hybrid && p.semantic > q.semantic) || p.entity > q.entity || p.scope > q.scope
        || p.importance > q.importance || p.confidence > q.confidence || p.recency > q.recency)
  }

  /** A result that dominates another one is listed before it. */
  lemma DominantComesFirst(src: Sources, results: seq<Ranked>, i: nat, j: nat)
    requires IsRanking(src, results) && i < |results| && j < |results|
    requires Dominates(Components(src, results[i].memory), Components(src, results[j].memory), src.semantic.Some?)
    ensures i < j
  {
    assert results[i] in results && results[j] in results;
    assert results[i].score > results[j].score;
    OutranksIsStrictTotal();
    SortedPlaces(Outranks, results, i, j);
  }

  // --- Importance and confidence against rank -----------------------------------------------------

  /** What a better lexical rank adds to the score. */
  function RankGain(src: Sources, better: nat, worse: nat): real {
    if src.semantic.Some? then 0.36 * (ReciprocalRank(better) - ReciprocalRank(worse))
    else 0.65 * (ReciprocalRank(better) - ReciprocalRank(worse))
  }

  /** By how much the importance and confidence of m exceed those of n. */
  function Surplus(m: Memory, n: Memory): real {
    m.importance + m.confidence - n.importance - n.confidence
  }

  /** Equal but for the lexical rank, the importance and the confidence. */
  ghost predicate AlikeBut(p: Parts, q: Parts) {
    p == q.(lexical := p.lexical, importance := p.importance, confidence := p.confidence)
  }

  lemma EarlierExactly(src: Sources, results: seq<Ranked>, i: nat, j: nat)
    requires IsRanking(src, results) && i < |results| && j < |results| && i != j
    ensures i < j <==> Outranks(results[i], results[j])
  {
    OutranksIsStrictTotal();
    if i < j { assert Outranks(results[i], results[j]); } else { assert Outranks(results[j], results[i]); }
  }

  /**
   Importance and confidence are no mere tie-breakers: between results that are otherwise alike, the
   better lexical rank comes first exactly as long as its weighted gain exceeds a twentieth of the other
   result's surplus in importance and confidence; when both are equal, the tie-breaking rule decides.
   */
  lemma LexicalRankPrevailsExactly(src: Sources, results: seq<Ranked>, i: nat, j: nat)
    requires IsRanking(src, results) && i < |results| && j < |results| && i != j
    requires 0 < LexicalRank(src, results[i].memory.id) < LexicalRank(src, results[j].memory.id)
    requires AlikeBut(Components(src, results[i].memory), Components(src, results[j].memory))
    ensures var m, n := results[i].memory, results[j].memory;
      var gain := RankGain(src, LexicalRank(src, m.id), LexicalRank(src, n.id));
      i < j <==> gain > 0.05 * Surplus(n, m) || (gain == 0.05 * Surplus(n, m) && BreaksTie(m, n))
  {
    assert results[i] in results && results[j] in results;
    ScoreDifference(src, results[i].memory, results[j].memory);
    EarlierExactly(src, results, i, j);
  }

  lemma ScoreDifference(src: Sources, m: Memory, n: Memory)
    requires AlikeBut(Components(src, m), Components(src, n))
    ensures RankedOf(src, m).score - RankedOf(src, n).score
      == RankGain(src, LexicalRank(src, m.id), LexicalRank(src, n.id)) - 0.05 * Surplus(n, m)
  {
    WeighDifference(Components(src, m), Components(src, n), src.semantic.Some?);
  }

  lemma WeighDifference(p: Parts, q: Parts, hybrid: bool)
    requires AlikeBut(p, q)
    ensures Weigh(p, hybrid) - Weigh(q, hybrid) ==
      (if hybrid then 0.36 * (p.lexical - q.lexical) else 0.65 * (p.lexical - q.lexical))
      - 0.05 * (q.importance + q.confidence - p.importance - p.confidence)
  {
  }

  /** A hit in the scopes, without subject or validity bounds. */
  predicate PlainHit(m: Memory, id: string, scopes: seq<string>) {
    && m.id == id && m.state == "active" && m.subject == "" && (scopes == [] || m.scope in scopes)
    && m.validFrom.None? && m.validUntil.None?
  }

  /** A request in lexical mode with these two hits and nothing else. */
  function TwoHits(m: Memory, n: Memory, scopes: seq<string>): Sources {
    Sources("", scopes, [], [], map[], {}, [m, n], None, None, 0)
  }

  lemma TwoHitRanks(m: Memory, n: Memory, scopes: seq<string>)
    requires PlainHit(m, "a", scopes) && PlainHit(n, "b", scopes)
    ensures LexicalRank(TwoHits(m, n, scopes), "a") == 1 && LexicalRank(TwoHits(m, n, scopes), "b") == 2
  {
    var src := TwoHits(m, n, scopes);
    assert "a"[0] != "b"[0];
    assert src.lexical[..1] == [m] && [m][..0] == [];
    assert LastHit(src, [m], "a") == 1;
  }

  lemma TwoHitsAdmitted(m: Memory, n: Memory, scopes: seq<string>, x: Memory)
    requires PlainHit(m, "a", scopes) && PlainHit(n, "b", scopes) && (x == m || x == n)
    ensures Admitted(TwoHits(m, n, scopes), x)
  {
    var src := TwoHits(m, n, scopes);
    TwoHitRanks(m, n, scopes);
    CandidatesByRank(src, x.id);
    assert TrimSpace("") == "" && SubjectOf(m) == "" && SubjectOf(n) == "";
    forall id | id in Candidates(src) ensures !NamesSubject("", Candidates(src)[id]) {
      assert Candidates(src)[id] in src.lexical;
    }
    assert NamedSubjects("", Candidates(src)) == {};
  }

  lemma TwoHitResults(m: Memory, n: Memory, scopes: seq<string>, results: seq<Ranked>, r: Ranked)
    requires PlainHit(m, "a", scopes) && PlainHit(n, "b", scopes) && IsRanking(TwoHits(m, n, scopes), results)
    ensures r in results <==> r == RankedOf(TwoHits(m, n, scopes), m) || r == RankedOf(TwoHits(m, n, scopes), n)
  {
    TwoHitsAdmitted(m, n, scopes, m);
    TwoHitsAdmitted(m, n, scopes, n);
    if r in results {
      CandidatesByRank(TwoHits(m, n, scopes), r.memory.id);
      assert r.memory in TwoHits(m, n, scopes).lexical;
    }
  }

  lemma TwoHitRanking(m: Memory, n: Memory, scopes: seq<string>, results: seq<Ranked>)
    requires PlainHit(m, "a", scopes) && PlainHit(n, "b", scopes) && IsRanking(TwoHits(m, n, scopes), results)
    ensures var a, b := RankedOf(TwoHits(m, n, scopes), m), RankedOf(TwoHits(m, n, scopes), n);
      results == if Outranks(b, a) then [b, a] else [a, b]
  {
    var a, b := RankedOf(TwoHits(m, n, scopes), m), RankedOf(TwoHits(m, n, scopes), n);
    OutranksIsStrictTotal();
    assert "a"[0] != "b"[0];
    var listed := if Outranks(b, a) then [b, a] else [a, b];
    forall r ensures r in results <==> r in listed {
      TwoHitResults(m, n, scopes, results, r);
    }
    SortedIsUnique(Outranks, results, listed);
  }

  const FIRST_HIT := Memory.Memory("a", Fact, "", 1, "", "", "", "", 0.5, 0.5, "active", None, None, 0)
  const SECOND_HIT := FIRST_HIT.(id := "b", importance := 1.0)

  /** The more important memory is listed first although the lexical search ranked it second. */
  lemma ImportanceOutweighsRank(results: seq<Ranked>)
    requires IsRanking(TwoHits(FIRST_HIT, SECOND_HIT, []), results)
    ensures var src := TwoHits(FIRST_HIT, SECOND_HIT, []); LexicalRank(src, "a") < LexicalRank(src, "b")
    ensures |results| == 2 && results[0].memory == SECOND_HIT && results[1].memory == FIRST_HIT
  {
    TwoHitRanks(FIRST_HIT, SECOND_HIT, []);
    TwoHitRanking(FIRST_HIT, SECOND_HIT, [], results);
  }

  /** Between memories that are otherwise alike, the one that the lexical search found earlier is listed first. */
  lemma BetterLexicalRankComesFirst(src: Sources, results: seq<Ranked>, i: nat, j: nat)
    requires IsRanking(src, results) && i < |results| && j < |results|
    requires 0 < LexicalRank(src, results[i].memory.id) < LexicalRank(src, results[j].memory.id)
    requires var p, q := Components(src, results[i].memory), Components(src, results[j].memory);
      p == q.(lexical := p.lexical)
    ensures i < j
  {
    ReciprocalRankDecreases(LexicalRank(src, results[i].memory.id), LexicalRank(src, results[j].memory.id));
    DominantComesFirst(src, results, i, j);
  }

  /** Between memories that are otherwise alike, the one from the more specific scope is listed first. */
  lemma SpecificScopeComesFirst(src: Sources, results: seq<Ranked>, table: ScopeClosure.Scopes,
                                                   ids: seq<string>, a: nat, b: nat, i: nat, j: nat)
    requires ScopeClosure.WellFounded(table) && ScopeClosure.Known(table, ids) && b < |table|
    requires a != b && ScopeClosure.AncestorOrSelf(table, a, b)
    requires ScopeClosure.ScopeAncestors(table, ids) == Some(src.scopes) && table[b].id in src.scopes && a < |table|
    requires IsRanking(src, results) && i < |results| && j < |results|
    requires results[i].memory.scope == table[b].id && results[j].memory.scope == table[a].id
    requires var p, q := Components(src, results[i].memory), Components(src, results[j].memory);
      p == q.(scope := p.scope)
    ensures i < j
  {
    ScopeClosure.SpecificScopesScoreHigher(table, ids, a, b);
    DominantComesFirst(src, results, i, j);
  }

  // --- The retrieval ---------------------------------------------------------------------------

  /** Map iteration visits the keys in an arbitrary order. */
  method Iterate<V>(m: map<string, V>) returns (keys: seq<string>)
    ensures Distinct(keys) && forall id :: id in keys <==> id in m
  {
    keys := [];
    var rest := m.Keys;
    while rest != {}
      invariant Distinct(keys) && rest <= m.Keys
      invariant forall id :: id in keys <==> id in m.Keys - rest
      decreases |rest|
    {
      var id :| id in rest;
      assert id !in keys;
      keys := keys + [id];
      rest := rest - {id};
    }
  }

  /** The ranks after the first n hits. */
  ghost predicate RanksAfter(src: Sources, n: nat, rank: map<string, nat>)
    requires n <= |src.lexical|
  {
    forall id :: (if id in rank then rank[id] else 0) == LastHit(src, src.lexical[..n], id)
      && (id in rank ==> rank[id] > 0)
  }

  lemma RanksStep(src: Sources, n: nat, rank: map<string, nat>)
    requires n < |src.lexical| && RanksAfter(src, n, rank)
    ensures RanksAfter(src, n + 1, if Eligible(src, src.lexical[n]) then rank[src.lexical[n].id := n + 1] else rank)
  {
    assert src.lexical[..n + 1][..n] == src.lexical[..n];
  }

  /** Every candidate is the hit that its rank names. */
  ghost predicate HitsAt(src: Sources, n: nat, candidates: map<string, Memory>, rank: map<string, nat>) {
    && n <= |src.lexical| && rank.Keys == candidates.Keys
    && forall id :: id in rank ==> 0 < rank[id] <= n && candidates[id] == src.lexical[rank[id] - 1]
  }

  lemma HitsStep(src: Sources, n: nat, candidates: map<string, Memory>, rank: map<string, nat>)
    requires HitsAt(src, n, candidates, rank) && n < |src.lexical|
    ensures HitsAt(src, n + 1, candidates, rank)
    ensures var m := src.lexical[n]; HitsAt(src, n + 1, candidates[m.id := m], rank[m.id := n + 1])
  {
  }

  method LexicalCandidates(src: Sources) returns (candidates: map<string, Memory>, rank: map<string, nat>)
    ensures RanksAfter(src, |src.lexical|, rank) && rank.Keys == candidates.Keys
    ensures forall id :: id in candidates ==> rank[id] <= |src.lexical| && candidates[id] == src.lexical[rank[id] - 1]
  {
    candidates, rank := map[], map[];
    for i := 0 to |src.lexical|
      invariant RanksAfter(src, i, rank) && HitsAt(src, i, candidates, rank)
    {
      RanksStep(src, i, rank);
      HitsStep(src, i, candidates, rank);
      var m := src.lexical[i];
      if Eligible(src, m) {
        candidates, rank := candidates[m.id := m], rank[m.id := i + 1];
      }
    }
  }

  function Members(s: seq<string>): set<string> {
    set x | x in s
  }

  lemma MembersSnoc(s: seq<string>, x: string)
    ensures Members(s + [x]) == Members(s) + {x}
  {
  }

  lemma {:induction false} SizeOfPrefix(s: seq<string>, n: nat)
    requires Distinct(s) && n <= |s|
    ensures |Members(s[..n])| == n
  {
    if n > 0 {
      SizeOfPrefix(s, n - 1);
      TakeNext(s, n - 1);
      MembersSnoc(s[..n - 1], s[n - 1]);
      assert s[n - 1] !in s[..n - 1];
    }
  }

  /** Position in the sorted list is the rank. */
  lemma SortedPositionIsRank(scores: map<string, real>, ids: seq<string>, i: nat)
    requires Sorted((a, b) => Closer(scores, a, b), ids) && (forall id :: id in ids <==> id in scores) && i < |ids|
    ensures |set j | j in scores && Closer(scores, j, ids[i])| == i
  {
    var less := (a, b) => Closer(scores, a, b);
    CloserIsStrictTotal(scores);
    SortedIsDistinct(less, ids);
    SizeOfPrefix(ids, i);
    assert (set j | j in scores && Closer(scores, j, ids[i])) == Members(ids[..i]) by {
      forall x ensures x in scores && Closer(scores, x, ids[i]) <==> x in ids[..i] {
        if x in ids[..i] {
          var k :| 0 <= k < i && ids[k] == x;
          assert less(ids[k], ids[i]);
        }
        if x in scores && Closer(scores, x, ids[i]) {
          var k :| 0 <= k < |ids| && ids[k] == x;
          SortedPlaces(less, ids, k, i);
        }
      }
    }
  }

  /** Semantic ids in rank order: ranks are unique and independent of map iteration. */
  method SemanticRanks(src: Sources) returns (ids: seq<string>, rank: map<string, nat>)
    ensures forall id :: id in ids <==> id in src.Scores()
    ensures rank.Keys == src.Scores().Keys && forall id :: id in rank ==> rank[id] == SemanticRank(src, id)
  {
    var scores := src.Scores();
    var less := (a, b) => Closer(scores, a, b);
    CloserIsStrictTotal(scores);
    var keys := Iterate(scores);
    ids := Sort(less, keys);
    SortedIsDistinct(less, ids);
    PermutationDistinct(ids, keys);
    rank := map[];
    for i := 0 to |ids|
      invariant forall id :: id in rank <==> id in ids[..i]
      invariant forall j :: 0 <= j < i ==> rank[ids[j]] == j + 1
    {
      assert ids[..i + 1] == ids[..i] + [ids[i]];
      rank := rank[ids[i] := i + 1];
    }
    assert ids[..|ids|] == ids;
    forall id | id in rank ensures rank[id] == SemanticRank(src, id) {
      var j :| 0 <= j < |ids| && ids[j] == id;
      SortedPositionIsRank(scores, ids, j);
    }
  }

  method AddSemanticCandidates(src: Sources, lexical: map<string, Memory>, ids: seq<string>)
    returns (candidates: map<string, Memory>)
    requires src.Valid()
    requires forall id :: id in lexical <==> LexicalRank(src, id) > 0
    requires forall id :: id in lexical ==> lexical[id] == src.lexical[LexicalRank(src, id) - 1]
    requires forall id :: id in ids <==> id in src.Scores()
    ensures candidates == Candidates(src)
  {
    candidates := lexical;
    if src.current.Some? {
      var current := src.current.value;
      for i := 0 to |ids|
        invariant forall id :: id in candidates <==> id in lexical || (id in ids[..i] && SemanticHit(src, id))
        invariant forall id :: id in candidates ==> candidates[id] == if id in lexical then lexical[id] else current[id]
      {
        assert ids[..i + 1] == ids[..i] + [ids[i]];
        if ids[i] !in lexical && ids[i] in current && Eligible(src, current[ids[i]]) {
          candidates := candidates[ids[i] := current[ids[i]]];
        }
      }
      assert ids[..|ids|] == ids;
    }
    CandidatesAre(src, candidates);
  }

  lemma CandidatesAre(src: Sources, candidates: map<string, Memory>)
    requires src.Valid()
    requires forall id :: id in candidates <==> LexicalRank(src, id) > 0 || SemanticHit(src, id)
    requires forall id | id in candidates ::
      if LexicalRank(src, id) > 0 then candidates[id] == src.lexical[LexicalRank(src, id) - 1]
      else SemanticHit(src, id) && candidates[id] == src.current.value[id]
    ensures candidates == Candidates(src)
  {
    forall id ensures id in candidates <==> id in Candidates(src) {
      CandidatesByRank(src, id);
    }
  }

  /** The one subject that the query names, in the casing of whichever candidate came last; empty otherwise. */
  method CanonicalCandidateSubject(query: string, candidates: map<string, Memory>) returns (subject: string)
    ensures |NamedSubjects(query, candidates)| == 1 ==>
      subject != "" && NamedSubjects(query, candidates) == {Lower(subject)}
    ensures |NamedSubjects(query, candidates)| != 1 ==> subject == ""
  {
    var matches: map<string, string> := map[];
    var keys := Iterate(candidates);
    for i := 0 to |keys|
      invariant forall s :: s in matches <==>
        exists j :: 0 <= j < i && NamesSubject(query, candidates[keys[j]]) && SubjectOf(candidates[keys[j]]) == s
      invariant forall s :: s in matches ==> s != "" && Lower(matches[s]) == s
    {
      var own := TrimSpace(candidates[keys[i]].subject);
      if own != "" && Contains(Lower(query), Lower(own)) {
        matches := matches[Lower(own) := own];
      }
    }
    MatchesAreNamed(query, candidates, keys, matches.Keys);
    if |matches| != 1 {
      return "";
    }
    assert |matches.Keys| == 1;
    var s :| s in matches;
    Singleton(matches.Keys, s);
    return matches[s];
  }

  lemma MatchesAreNamed(query: string, candidates: map<string, Memory>, keys: seq<string>, matches: set<string>)
    requires forall id :: id in keys <==> id in candidates
    requires forall s :: s in matches <==>
      exists j :: 0 <= j < |keys| && NamesSubject(query, candidates[keys[j]]) && SubjectOf(candidates[keys[j]]) == s
    ensures matches == NamedSubjects(query, candidates)
  {
    forall s ensures s in matches <==> s in NamedSubjects(query, candidates) {
      if s in NamedSubjects(query, candidates) {
        var id :| id in candidates && NamesSubject(query, candidates[id]) && SubjectOf(candidates[id]) == s;
        assert id in keys;
      }
    }
  }

  lemma Singleton<T>(s: set<T>, x: T)
    requires |s| == 1 && x in s
    ensures s == {x}
  {
    assert |s - {x}| == 0;
  }

  /** The filter as coded does not see which casing was picked. */
  lemma AnyCasingFiltersAlike(src: Sources, subject: string, m: Memory)
    requires var named := NamedSubjects(src.query, Candidates(src));
      (|named| == 1 ==> subject != "" && named == {Lower(subject)}) && (|named| != 1 ==> subject == "")
    ensures subject == "" || EqualFold(TrimSpace(m.subject), subject) <==> SubjectKept(src, m)
  {
  }

  /** The kept ones among the first i candidates, each with its score. */
  ghost predicate FoundAmong(src: Sources, keys: seq<string>, i: nat, found: seq<Ranked>)
    requires i <= |keys|
  {
    && (forall r: Ranked :: r in found <==>
          Admitted(src, r.memory) && r.memory.id in keys[..i] && r == RankedOf(src, r.memory))
    && IdsDiffer(found)
  }

  ghost predicate IdsDiffer(found: seq<Ranked>) {
    forall j, k :: 0 <= j < k < |found| ==> found[j].memory.id != found[k].memory.id
  }

  lemma IdsDifferNext(src: Sources, keys: seq<string>, i: nat, found: seq<Ranked>, r: Ranked)
    requires Distinct(keys) && i < |keys| && FoundAmong(src, keys, i, found) && r.memory.id == keys[i]
    ensures IdsDiffer(found + [r])
  {
    forall j | 0 <= j < |found| ensures found[j].memory.id != r.memory.id {
      assert found[j] in found && keys[i] !in keys[..i];
    }
  }

  lemma FoundNext(src: Sources, keys: seq<string>, i: nat, found: seq<Ranked>)
    requires src.Valid() && Distinct(keys) && i < |keys| && keys[i] in Candidates(src)
    requires FoundAmong(src, keys, i, found)
    ensures var m := Candidates(src)[keys[i]];
      FoundAmong(src, keys, i + 1, if Kept(src, m) then found + [RankedOf(src, m)] else found)
  {
    var m := Candidates(src)[keys[i]];
    CandidatesByRank(src, keys[i]);
    TakeNext(keys, i);
    IdsDifferNext(src, keys, i, found, RankedOf(src, m));
  }

  method RankCandidates(src: Sources, candidates: map<string, Memory>, lexicalRank: map<string, nat>,
                        semanticRank: map<string, nat>)
    returns (results: seq<Ranked>)
    requires src.Valid() && candidates == Candidates(src)
    requires forall id :: (if id in lexicalRank then lexicalRank[id] else 0) == LexicalRank(src, id)
    requires forall id :: (if id in semanticRank then semanticRank[id] else 0) == SemanticRank(src, id)
    ensures IsRanking(src, results)
  {
    var subject := CanonicalCandidateSubject(src.query, candidates);
    var keys := Iterate(candidates);
    var found: seq<Ranked> := [];
    for i := 0 to |keys|
      invariant FoundAmong(src, keys, i, found)
    {
      var m := candidates[keys[i]];
      FoundNext(src, keys, i, found);
      AnyCasingFiltersAlike(src, subject, m);
      if subject == "" || EqualFold(TrimSpace(m.subject), subject) {
        var entity := EntityMatch(src, m);
        if !EntityEnforced(src) || entity {
          var lexical := if m.id in lexicalRank then lexicalRank[m.id] else 0;
          var semantic := if m.id in semanticRank then semanticRank[m.id] else 0;
          var r := Fuse(src, m, lexical, semantic, entity);
          found := found + [r];
        }
      }
    }
    results := SortRanked(src, keys, found);
  }

  method Fuse(src: Sources, m: Memory, lexicalRank: nat, semanticRank: nat, entity: bool) returns (r: Ranked)
    requires lexicalRank == LexicalRank(src, m.id) && semanticRank == SemanticRank(src, m.id)
    requires entity == EntityMatch(src, m)
    ensures r == RankedOf(src, m)
  {
    var parts := Parts(ReciprocalRank(lexicalRank), ReciprocalRank(semanticRank), if entity then 1.0 else 0.0,
      ScopeClosure.ScopeScore(src.scopes, m.scope), m.importance, m.confidence,
      if m.kind.Episode? then RecencyScore(src.now, m.updatedAt) else 0.0);
    r := Ranked(m, Weigh(parts, src.semantic.Some?));
  }

  method SortRanked(src: Sources, keys: seq<string>, found: seq<Ranked>) returns (results: seq<Ranked>)
    requires FoundAmong(src, keys, |keys|, found) && forall id :: id in keys <==> id in Candidates(src)
    ensures IsRanking(src, results)
  {
    assert keys[..|keys|] == keys;
    OutranksIsStrictTotal();
    results := Sort(Outranks, found);
    assert forall r :: r in results <==> r in multiset(results);
  }

  method RetrieveMemories(src: Sources) returns (results: seq<Ranked>)
    requires src.Valid()
    ensures IsRanking(src, results)
  {
    var lexical, lexicalRank := LexicalCandidates(src);
    assert src.lexical[..|src.lexical|] == src.lexical;
    var ids, semanticRank := SemanticRanks(src);
    var candidates := AddSemanticCandidates(src, lexical, ids);
    results := RankCandidates(src, candidates, lexicalRank, semanticRank);
  }
}
