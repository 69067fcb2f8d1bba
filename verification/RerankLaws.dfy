/** When the provider is asked, what its reply changes and what a response holds, over requests and replies. */
module RerankLaws {
  import opened EventStore
  import opened Sequences
  import opened Text
  import opened Retrieval
  import opened RetrievalLaws
  import opened Rerank

  // --- Asking ------------------------------------------------------------------------------------

  /** The query contains the text, trimmed and in lower case. */
  predicate Holds(query: string, text: string) {
    TrimSpace(Lower(text)) != "" && Contains(Lower(query), TrimSpace(Lower(text)))
  }

  /** The first result leads by .08 or more and the query contains its subject or its title. */
  predicate Confident(query: string, results: seq<Ranked>)
    requires |results| >= 2
  {
    && results[0].score - results[1].score >= 0.08
    && (Holds(query, results[0].memory.subject) || Holds(query, results[0].memory.title))
  }

  /** A usable reply: at least one id, none twice, each that of one of the first twelve results. */
  ghost predicate UsableReply(results: seq<Ranked>, ids: seq<string>) {
    && ids != []
    && (forall i, j :: 0 <= i < j < |ids| ==> ids[i] != ids[j])
    && (forall id :: id in ids ==> exists k :: 0 <= k < |results| && k < 12 && results[k].memory.id == id)
  }

  lemma AcceptableExactly(results: seq<Ranked>, ids: seq<string>)
    ensures Acceptable(results, ids) <==> UsableReply(results, ids)
  {
    var known := Ids(results)[..CandidateCount(results)];
    forall id ensures id in known <==> exists k :: 0 <= k < |results| && k < 12 && results[k].memory.id == id {
      if id in known {
        var k :| 0 <= k < |known| && known[k] == id;
        assert results[k].memory.id == id;
      }
      if k :| 0 <= k < |results| && k < 12 && results[k].memory.id == id { assert known[k] == id; }
    }
    if Acceptable(results, ids) {
      forall id | id in ids ensures id in known {
        var i :| 0 <= i < |ids| && ids[i] == id;
      }
    }
    if UsableReply(results, ids) {
      forall i | 0 <= i < |ids| ensures ids[i] in known { assert ids[i] in ids; }
    }
  }

  /**
   The reason that a response reports, and with it whether the reply was used: the provider is asked unless the
   request or the configuration rules it out, there are fewer than three results, or, in mode auto, the first one is a
   confident match.
   */
  lemma ReasonExactly(mode: Mode, present: bool, query: string, results: seq<Ranked>, reply: Reply)
    ensures FinalReason(mode, present, query, results, reply) ==
      if mode == Never then RequestDisabled
      else if !present then Disabled
      else if |results| < 3 then InsufficientCandidates
      else if mode == Auto && Confident(query, results) then ConfidentHybridMatch
      else if reply.Failed? then ProviderError
      else if UsableReply(results, reply.ids) then AmbiguousHybridCandidates
      else InvalidProviderResult
    ensures Accepted(mode, present, query, results, reply) <==>
      FinalReason(mode, present, query, results, reply) == AmbiguousHybridCandidates
  {
    if reply.Answered? { AcceptableExactly(results, reply.ids); }
  }

  // --- What a reply changes ------------------------------------------------------------------------

  /**
   The id at index i of a used reply puts its result there with .7 times 61 / (61 + i) plus .3 times its old score;
   the results that are not named keep their scores; without a used reply nothing changes.
   */
  lemma ScoresAfterReply(mode: Mode, present: bool, query: string, results: seq<Ranked>, reply: Reply)
    requires DistinctIds(results)
    ensures var after := FinalOrder(mode, present, query, results, reply);
      if Accepted(mode, present, query, results, reply) then
        && |after| >= |reply.ids|
        && (forall i, j | 0 <= i < |reply.ids| && 0 <= j < |results| && results[j].memory.id == reply.ids[i] ::
              after[i] == Ranked(results[j].memory, 0.7 * (61.0 / (61 + i) as real) + 0.3 * results[j].score))
        && (forall r :: r in after[|reply.ids|..] <==> r in results && r.memory.id !in reply.ids)
      else after == results
  {
    if Accepted(mode, present, query, results, reply) {
      AcceptableIsPresent(results, reply.ids);
      var after := FinalOrder(mode, present, query, results, reply);
      FilterMembers((r: Ranked) => r.memory.id !in reply.ids, results);
      assert after[|reply.ids|..] == Filter((r: Ranked) => r.memory.id !in reply.ids, results);
      forall i, j | 0 <= i < |reply.ids| && 0 <= j < |results| && results[j].memory.id == reply.ids[i]
        ensures after[i] == Ranked(results[j].memory, 0.7 * (61.0 / (61 + i) as real) + 0.3 * results[j].score)
      {
        PlacedAt(results, reply.ids, i, j);
      }
    }
  }

  lemma PlacedAt(results: seq<Ranked>, ids: seq<string>, i: nat, j: nat)
    requires DistinctIds(results) && AllPresent(results, ids)
    requires i < |ids| && j < |results| && results[j].memory.id == ids[i]
    ensures Reordered(results, ids)[i]
         == Ranked(results[j].memory, 0.7 * (61.0 / (61 + i) as real) + 0.3 * results[j].score)
  {
    var place := PlaceOf(results, ids[i]);
    assert place == j;
    assert Reordered(results, ids)[i] == Promoted(results, ids, i);
  }

  // --- The response --------------------------------------------------------------------------------

  /** Two durable results have different subjects, and no subject of a durable result is in the query. */
  ghost predicate SubjectsCompete(query: string, results: seq<Ranked>) {
    && (forall r :: r in results && r.memory.kind != Episode ==> !Holds(query, r.memory.subject))
    && exists r, s :: r in results && s in results && r.memory.kind != Episode && s.memory.kind != Episode
                      && TrimSpace(Lower(r.memory.subject)) != "" && TrimSpace(Lower(s.memory.subject)) != ""
                      && TrimSpace(Lower(r.memory.subject)) != TrimSpace(Lower(s.memory.subject))
  }

  lemma TwoMembers(s: set<string>)
    ensures |s| > 1 <==> exists x, y :: x in s && y in s && x != y
  {
    if |s| > 1 {
      var x :| x in s;
      assert |s - {x}| > 0;
      var y :| y in s - {x};
    }
    if x, y :| x in s && y in s && x != y { assert |s - {x} - {y}| == |s| - 2; }
  }

  lemma SubjectIsMember(results: seq<Ranked>, r: Ranked)
    requires r in results && r.memory.kind != Episode && TrimSpace(Lower(r.memory.subject)) != ""
    ensures TrimSpace(Lower(r.memory.subject)) in NonEpisodeSubjects(results)
  {
    LowerTrim(r.memory.subject);
  }

  lemma MemberIsSubject(results: seq<Ranked>, x: string) returns (r: Ranked)
    requires x in NonEpisodeSubjects(results)
    ensures r in results && r.memory.kind != Episode && TrimSpace(Lower(r.memory.subject)) == x != ""
  {
    r :| r in results && r.memory.kind != Episode && SubjectOf(r.memory) == x != "";
    LowerTrim(r.memory.subject);
  }

  lemma AmbiguousCompete(query: string, results: seq<Ranked>)
    requires AmbiguousSubjects(query, results)
    ensures SubjectsCompete(query, results)
  {
    forall r | r in results && r.memory.kind != Episode ensures !Holds(query, r.memory.subject) {
      if TrimSpace(Lower(r.memory.subject)) != "" { SubjectIsMember(results, r); }
    }
    TwoMembers(NonEpisodeSubjects(results));
    var x, y :| x in NonEpisodeSubjects(results) && y in NonEpisodeSubjects(results) && x != y;
    var r := MemberIsSubject(results, x);
    var s := MemberIsSubject(results, y);
  }

  lemma CompetingAreAmbiguous(query: string, results: seq<Ranked>)
    requires SubjectsCompete(query, results)
    ensures AmbiguousSubjects(query, results)
  {
    forall x | x in NonEpisodeSubjects(results) ensures !Contains(Lower(query), x) {
      var r := MemberIsSubject(results, x);
      assert !Holds(query, r.memory.subject);
    }
    TwoMembers(NonEpisodeSubjects(results));
    var r, s :| r in results && s in results && r.memory.kind != Episode && s.memory.kind != Episode
      && TrimSpace(Lower(r.memory.subject)) != "" && TrimSpace(Lower(s.memory.subject)) != ""
      && TrimSpace(Lower(r.memory.subject)) != TrimSpace(Lower(s.memory.subject));
    SubjectIsMember(results, r);
    SubjectIsMember(results, s);
  }

  /**
   A response is reported ambiguous, and the provider not asked, exactly when no entity was asked for and several
   were resolved or several subjects compete.
   */
  lemma AmbiguousExactly(src: Sources, results: seq<Ranked>)
    ensures Ambiguous(src, results) <==>
      src.requested == [] && (|src.resolved| > 1 || SubjectsCompete(src.query, results))
  {
    if AmbiguousSubjects(src.query, results) { AmbiguousCompete(src.query, results); }
    if SubjectsCompete(src.query, results) { CompetingAreAmbiguous(src.query, results); }
  }

  /** A limit keeps the first results and no more. */
  lemma ResponseIsCut(src: Sources, mode: Mode, present: bool, reply: Reply, limit: nat, ranking: seq<Ranked>)
    ensures var response := ResponseOf(src, mode, present, reply, limit, ranking);
            var whole :=
              if src.requested == [] && (|src.resolved| > 1 || SubjectsCompete(src.query, ranking)) then ranking
              else FinalOrder(mode, present, src.query, ranking, reply);
      response <= whole && |response| == if |whole| < limit then |whole| else limit
  {
    AmbiguousExactly(src, ranking);
  }

  /** The explanation of a result names each part of its score. */
  lemma ExplanationExactly(src: Sources, m: Memory, lexical: nat, semantic: nat, scope: real, recency: real)
    requires RowsHaveTheirIds(src) && FoundAt(src, m.id, lexical) && ScoredAt(src, m.id, semantic)
    requires ScopePart(src.scopes, m.scope, scope) && RecencyPart(src.now, m.updatedAt, recency)
    ensures Entries(Components(src, m)) ==
      map["lexical" := PlacePart(lexical), "semantic" := PlacePart(semantic),
          "entity" := if OnAnEntity(src, m) then 1.0 else 0.0, "scope" := scope, "importance" := m.importance,
          "confidence" := m.confidence, "recency" := if m.kind.Episode? then recency else 0.0]
  {
    LexicalRankExactly(src, m.id, lexical);
    SemanticRankExactly(src, m.id, semantic);
    ScopePartExactly(src.scopes, m.scope, scope);
    RecencyPartExactly(src.now, m.updatedAt, recency);
    EntityMatchExactly(src, m);
  }
}
