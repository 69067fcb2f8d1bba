/** What a ranking holds, in which order and with which scores: over the request itself. */
module RetrievalLaws {
  import opened EventStore
  import opened Ordering
  import opened Sequences
  import opened Text
  import opened Retrieval
  import ScopeClosure

  // --- Which memories are candidates -------------------------------------------------------------

  /** Active, in the scopes asked for if any, and valid now. */
  predicate Usable(src: Sources, m: Memory) {
    && m.state == "active"
    && (src.scopes != [] ==> m.scope in src.scopes)
    && (m.validFrom.Some? ==> m.validFrom.value <= src.now)
    && (m.validUntil.Some? ==> src.now <= m.validUntil.value)
  }

  /** The last usable hit with this id stands at place r, counted from 1; 0 without one. */
  ghost predicate FoundAt(src: Sources, id: string, r: nat) {
    && r <= |src.lexical|
    && (r > 0 ==> src.lexical[r - 1].id == id && Usable(src, src.lexical[r - 1]))
    && forall i :: r <= i < |src.lexical| ==> !(src.lexical[i].id == id && Usable(src, src.lexical[i]))
  }

  lemma {:induction false} LastHitIsLast(src: Sources, hits: seq<Memory>, id: string)
    ensures forall i :: LastHit(src, hits, id) <= i < |hits| ==> !(hits[i].id == id && Usable(src, hits[i]))
    ensures LastHit(src, hits, id) > 0 ==> Usable(src, hits[LastHit(src, hits, id) - 1])
  {
    if hits != [] { LastHitIsLast(src, hits[..|hits| - 1], id); }
  }

  lemma LexicalRankExactly(src: Sources, id: string, r: nat)
    ensures FoundAt(src, id, r) <==> r == LexicalRank(src, id)
  {
    LastHitIsLast(src, src.lexical, id);
  }

  /**
   The lexical search supplies every memory of which it has a usable hit, in the version of the last one; the
   semantic search supplies the usable current version of the other memories that it scored.
   */
  lemma CandidatesExactly(src: Sources, m: Memory)
    requires src.Valid()
    ensures m.id in Candidates(src) && Candidates(src)[m.id] == m <==>
      || (exists r: nat :: r > 0 && FoundAt(src, m.id, r) && src.lexical[r - 1] == m)
      || (FoundAt(src, m.id, 0) && src.semantic.Some? && m.id in src.semantic.value
          && src.current.Some? && m.id in src.current.value && src.current.value[m.id] == m && Usable(src, m))
  {
    CandidatesByRank(src, m.id);
    LexicalRankExactly(src, m.id, LexicalRank(src, m.id));
    LexicalRankExactly(src, m.id, 0);
    forall r: nat ensures FoundAt(src, m.id, r) <==> r == LexicalRank(src, m.id) {
      LexicalRankExactly(src, m.id, r);
    }
  }

  // --- Which candidates stay -----------------------------------------------------------------------

  /** The query contains s, and s is the subject of some candidate, trimmed and in lower case. */
  ghost predicate Named(src: Sources, s: string) {
    s != "" && Contains(Lower(src.query), s)
    && exists id :: id in Candidates(src) && Lower(TrimSpace(Candidates(src)[id].subject)) == s
  }

  /** If the query names exactly one subject, it is the memory's. */
  ghost predicate OnTheSubject(src: Sources, m: Memory) {
    forall s :: Named(src, s) && (forall t :: Named(src, t) ==> t == s) ==> Lower(TrimSpace(m.subject)) == s
  }

  lemma NamedExactly(src: Sources, s: string)
    ensures s in NamedSubjects(src.query, Candidates(src)) <==> Named(src, s)
  {
  }

  lemma OneNamed(src: Sources, named: set<string>, s: string)
    requires (forall t :: t in named <==> Named(src, t)) && Named(src, s)
    ensures |named| == 1 <==> forall t :: Named(src, t) ==> t == s
  {
    if |named| == 1 { Singleton(named, s); }
    if forall t :: Named(src, t) ==> t == s { assert named == {s}; }
  }

  lemma SubjectKeptExactly(src: Sources, m: Memory)
    ensures SubjectKept(src, m) <==> OnTheSubject(src, m)
  {
    var named := NamedSubjects(src.query, Candidates(src));
    forall s ensures s in named <==> Named(src, s) { NamedExactly(src, s); }
    forall s | Named(src, s) ensures |named| == 1 <==> forall t :: Named(src, t) ==> t == s { OneNamed(src, named, s); }
    if |named| == 1 {
      var s :| s in named;
      Singleton(named, s);
    }
  }

  /** An entity that the request is about: resolved from its text, or asked for by id and not resolved. */
  ghost predicate About(src: Sources, e: Entity) {
    || e in src.resolved
    || exists id :: id in src.requested && id in src.entityRows && src.entityRows[id] == e
                    && forall x :: x in src.resolved ==> x.id != id
  }

  /** The memory is related to such an entity, or its text contains one of its names, trimmed and in lower case. */
  ghost predicate OnAnEntity(src: Sources, m: Memory) {
    || m.id in src.related
    || exists e, name :: About(src, e) && name in e.names && TextHolds(m, TrimSpace(Lower(name)))
  }

  predicate TextHolds(m: Memory, name: string) {
    name != "" && Contains(Lower(m.subject + " " + m.title + " " + m.content), name)
  }

  ghost predicate RowsHaveTheirIds(src: Sources) {
    forall id :: id in src.entityRows ==> src.entityRows[id].id == id
  }

  /** Asked for among the first n ids, and not resolved. */
  ghost predicate AskedFor(src: Sources, requested: seq<string>, e: Entity) {
    exists id :: id in requested && id in src.entityRows && src.entityRows[id] == e
                 && forall x :: x in src.resolved ==> x.id != id
  }

  lemma {:induction false} EntitiesExactly(src: Sources, requested: seq<string>, e: Entity)
    requires RowsHaveTheirIds(src)
    ensures e in Entities(src, requested) <==> e in src.resolved || AskedFor(src, requested, e)
  {
    if requested != [] {
      var before, id := requested[..|requested| - 1], requested[|requested| - 1];
      assert requested == before + [id];
      EntitiesExactly(src, before, e);
      var entities := Entities(src, before);
      if id in src.entityRows {
        var row := src.entityRows[id];
        ListedAlready(src, before, id);
        if AskedFor(src, before, e) { assert AskedFor(src, requested, e); }
        if AskedFor(src, requested, e) && !AskedFor(src, before, e) { assert e == row; }
      }
    }
  }

  /** An id is among the entities exactly when it was resolved or its row was added. */
  lemma ListedAlready(src: Sources, before: seq<string>, id: string)
    requires RowsHaveTheirIds(src) && id in src.entityRows
    ensures (exists i :: 0 <= i < |Entities(src, before)| && Entities(src, before)[i].id == id) <==>
      (exists x :: x in src.resolved && x.id == id) || src.entityRows[id] in Entities(src, before)
  {
    IdsOfEntities(src, before, id);
  }

  lemma {:induction false} IdsOfEntities(src: Sources, before: seq<string>, id: string)
    requires RowsHaveTheirIds(src)
    ensures forall x :: x in src.resolved ==> x in Entities(src, before)
    ensures forall x :: x in Entities(src, before) && x !in src.resolved ==>
      x.id in src.entityRows && src.entityRows[x.id] == x
  {
    if before != [] { IdsOfEntities(src, before[..|before| - 1], id); }
  }

  lemma JoinOfThree(a: string, b: string, c: string)
    ensures Join([a, b, c], " ") == a + " " + b + " " + c
  {
    assert [a, b, c][1..] == [b, c] && [b, c][1..] == [c];
    assert Join([b, c], " ") == b + " " + c;
    assert a + " " + (b + " " + c) == a + " " + b + " " + c;
  }

  lemma MentionsExactly(m: Memory, e: Entity)
    ensures MentionsEntity(m, e) <==> exists name :: name in e.names && TextHolds(m, TrimSpace(Lower(name)))
  {
    JoinOfThree(m.subject, m.title, m.content);
    if name :| name in e.names && MentionsName(m, name) {
      var j :| 0 <= j < |e.names| && e.names[j] == name;
    }
  }

  lemma EntityMatchExactly(src: Sources, m: Memory)
    requires RowsHaveTheirIds(src)
    ensures EntityMatch(src, m) <==> OnAnEntity(src, m)
  {
    var entities := Entities(src, src.requested);
    forall e ensures e in entities <==> About(src, e) {
      EntitiesExactly(src, src.requested, e);
    }
    forall e ensures MentionsEntity(m, e) <==> exists name :: name in e.names && TextHolds(m, TrimSpace(Lower(name))) {
      MentionsExactly(m, e);
    }
    if e, name :| About(src, e) && name in e.names && TextHolds(m, TrimSpace(Lower(name))) {
      assert MentionsEntity(m, e);
      var i :| 0 <= i < |entities| && entities[i] == e;
    }
  }

  /**
   The filters: a memory is returned exactly when it is a candidate, is on the one subject that the query names, if it
   names exactly one, and, if entities were asked for or exactly one was resolved, is related to such an entity or
   mentions it. With no entity asked for and none or several resolved nothing is dropped for its entities.
   */
  lemma ResultsExactly(src: Sources, results: seq<Ranked>, m: Memory)
    requires src.Valid() && RowsHaveTheirIds(src) && IsRanking(src, results)
    ensures (exists r :: r in results && r.memory == m) <==>
      && m.id in Candidates(src) && Candidates(src)[m.id] == m
      && OnTheSubject(src, m)
      && (src.requested != [] || |src.resolved| == 1 ==> OnAnEntity(src, m))
  {
    SubjectKeptExactly(src, m);
    EntityMatchExactly(src, m);
    if Admitted(src, m) { assert RankedOf(src, m) in results; }
  }

  // --- Order and scores ------------------------------------------------------------------------------

  /** Higher scores come first; between equal scores higher versions, then later updates, then smaller ids. */
  lemma OrderExactly(src: Sources, results: seq<Ranked>, i: nat, j: nat)
    requires IsRanking(src, results) && i < j < |results|
    ensures var a, b, m, n := results[i].score, results[j].score, results[i].memory, results[j].memory;
      || a > b
      || (a == b && m.version > n.version)
      || (a == b && m.version == n.version && m.updatedAt > n.updatedAt)
      || (a == b && m.version == n.version && m.updatedAt == n.updatedAt && TextLess(m.id, n.id))
  {
    assert Outranks(results[i], results[j]);
  }

  /** One more than the number of ids with a higher semantic score, or an equal one and a smaller id; 0 without one. */
  ghost predicate ScoredAt(src: Sources, id: string, r: nat) {
    if src.semantic.Some? && id in src.semantic.value then
      var scores := src.semantic.value;
      r == 1 + |set j | j in scores && (scores[j] > scores[id] || (scores[j] == scores[id] && TextLess(j, id)))|
    else r == 0
  }

  lemma SemanticRankExactly(src: Sources, id: string, r: nat)
    ensures ScoredAt(src, id, r) <==> r == SemanticRank(src, id)
  {
    var scores := src.Scores();
    if id in scores {
      assert (set j | j in scores && (scores[j] > scores[id] || (scores[j] == scores[id] && TextLess(j, id))))
        == set j | j in scores && Closer(scores, j, id);
    }
  }

  /** A half without scopes; with n scopes, place / n for the first place of the scope, counted from 1, else 0. */
  ghost predicate ScopePart(scopes: seq<string>, scope: string, part: real) {
    if scopes == [] then part == 0.5
    else if scope !in scopes then part == 0.0
    else exists i :: 0 <= i < |scopes| && scopes[i] == scope && scope !in scopes[..i]
                     && part == (i + 1) as real / |scopes| as real
  }

  lemma ScopePartExactly(scopes: seq<string>, scope: string, part: real)
    ensures ScopePart(scopes, scope, part) <==> part == ScopeClosure.ScopeScore(scopes, scope)
  {
    var n := ScopeClosure.FirstIndex(scopes, scope);
    assert n < |scopes| ==> scope !in scopes[..n];
    assert forall i :: 0 <= i < |scopes| && scopes[i] == scope && scope !in scopes[..i] ==> i == n;
  }

  /** 1 for an update in the future, and half as much for every thirty days more in the denominator. */
  ghost predicate RecencyPart(now: int, updatedAt: int, part: real) {
    if now < updatedAt then part == 1.0 else part == 1.0 / (1.0 + (now - updatedAt) as real / 2592000.0)
  }

  lemma RecencyPartExactly(now: int, updatedAt: int, part: real)
    ensures RecencyPart(now, updatedAt, part) <==> part == RecencyScore(now, updatedAt)
  {
    var seconds := (now - updatedAt) as real;
    assert seconds / 86400.0 / 30.0 == seconds / 2592000.0;
  }

  /** The part of a search in the score: 61 / (60 + place), nothing without a place. */
  function PlacePart(place: nat): real {
    if place == 0 then 0.0 else 61.0 / (60 + place) as real
  }

  /**
   The score of a result: .65 for the lexical place, or .36 and .29 for the lexical and the semantic one when there
   are semantic scores, .15 for an entity, .1 for the scope, .05 each for importance, confidence and, for episodes
   only, recency.
   */
  lemma ScoreExactly(src: Sources, results: seq<Ranked>, r: Ranked, lexical: nat, semantic: nat, scope: real,
                     recency: real)
    requires RowsHaveTheirIds(src) && IsRanking(src, results) && r in results
    requires FoundAt(src, r.memory.id, lexical) && ScoredAt(src, r.memory.id, semantic)
    requires ScopePart(src.scopes, r.memory.scope, scope) && RecencyPart(src.now, r.memory.updatedAt, recency)
    ensures r.score ==
      (if src.semantic.Some? then 0.36 * PlacePart(lexical) + 0.29 * PlacePart(semantic) else 0.65 * PlacePart(lexical))
      + (if OnAnEntity(src, r.memory) then 0.15 else 0.0) + 0.1 * scope
      + 0.05 * r.memory.importance + 0.05 * r.memory.confidence
      + (if r.memory.kind.Episode? then 0.05 * recency else 0.0)
  {
    LexicalRankExactly(src, r.memory.id, lexical);
    SemanticRankExactly(src, r.memory.id, semantic);
    ScopePartExactly(src.scopes, r.memory.scope, scope);
    RecencyPartExactly(src.now, r.memory.updatedAt, recency);
    EntityMatchExactly(src, r.memory);
  }
}
