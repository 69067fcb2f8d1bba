/**
 Which of several instructions with one semantic key reaches the context. A more specific instruction is meant
 to replace a broader one; the code keeps the one that ranks first.
 */
module InstructionOverride {
  import opened Sequences
  import opened Ordering
  import opened EventStore
  import opened Retrieval
  import opened ContextAssembly
  import opened ContextLaws
  import opened ContextService
  import ScopeClosure
  import ScopeLookups
  import Rerank

  // --- In the assembly -------------------------------------------------------------------------------

  /** No instruction before place i has the key of the one there. */
  ghost predicate FirstOfKey(ranked: seq<Memory>, i: nat)
    requires i < |ranked|
  {
    ranked[i].semanticKey == "" || forall j :: 0 <= j < i && ranked[j].kind.Instruction? ==>
      ranked[j].semanticKey != ranked[i].semanticKey
  }

  /** The instructions so far are the first ones of their keys, and their keys are used up. */
  ghost predicate FirstsKept(d: Draft, ranked: seq<Memory>) {
    && (forall m :: m in d.instructions <==> KeptAt(ranked, m))
    && (forall k :: k in d.keys <==> UsedKey(ranked, k))
  }

  ghost predicate KeptAt(ranked: seq<Memory>, m: Memory) {
    exists j :: 0 <= j < |ranked| && ranked[j] == m && m.kind.Instruction? && FirstOfKey(ranked, j)
  }

  ghost predicate UsedKey(ranked: seq<Memory>, k: string) {
    k != "" && exists j :: 0 <= j < |ranked| && ranked[j].kind.Instruction? && ranked[j].semanticKey == k
  }

  lemma KeptAtSnoc(ranked: seq<Memory>, m: Memory, x: Memory)
    ensures KeptAt(ranked + [m], x)
      <==> KeptAt(ranked, x) || (x == m && m.kind.Instruction? && !UsedKey(ranked, m.semanticKey))
  {
    var longer := ranked + [m];
    assert forall j :: 0 <= j < |ranked| ==> longer[j] == ranked[j];
    forall j | 0 <= j < |ranked| ensures FirstOfKey(longer, j) <==> FirstOfKey(ranked, j) {}
    assert FirstOfKey(longer, |ranked|) <==> !UsedKey(ranked, m.semanticKey);
    if KeptAt(ranked, x) {
      var j :| 0 <= j < |ranked| && ranked[j] == x && x.kind.Instruction? && FirstOfKey(ranked, j);
      assert longer[j] == x;
    }
    if x == m && m.kind.Instruction? && !UsedKey(ranked, m.semanticKey) {
      assert longer[|ranked|] == x;
    }
  }

  lemma UsedKeySnoc(ranked: seq<Memory>, m: Memory, k: string)
    ensures UsedKey(ranked + [m], k)
      <==> UsedKey(ranked, k) || (k != "" && m.kind.Instruction? && m.semanticKey == k)
  {
    var longer := ranked + [m];
    assert longer[|ranked|] == m && forall j :: 0 <= j < |ranked| ==> longer[j] == ranked[j];
    if UsedKey(ranked, k) {
      var j :| 0 <= j < |ranked| && ranked[j].kind.Instruction? && ranked[j].semanticKey == k;
      assert longer[j].semanticKey == k;
    }
  }

  lemma FirstsKeptStep(r: Request, d: Draft, ranked: seq<Memory>, m: Memory)
    requires FirstsKept(d, ranked) && d.used + MemoryCost(m) <= Budget(r)
    ensures FirstsKept(StepDurable(r, d, m), ranked + [m])
  {
    var t := StepDurable(r, d, m);
    forall x ensures x in t.instructions <==> KeptAt(ranked + [m], x) {
      KeptAtSnoc(ranked, m, x);
    }
    forall k ensures k in t.keys <==> UsedKey(ranked + [m], k) {
      UsedKeySnoc(ranked, m, k);
    }
  }

  lemma {:induction false} DurablePassKeepsFirsts(r: Request, arts: seq<Artifact>, ranked: seq<Memory>, n: nat)
    requires Roomy(r, arts, ranked) && n <= |ranked|
    ensures FirstsKept(AfterDurable(r, arts, ranked[..n]), ranked[..n])
  {
    if n == 0 {
      NoOverrideYet(r, arts);
    } else {
      DurablePassKeepsFirsts(r, arts, ranked, n - 1);
      RoomyFits(r, arts, ranked, n - 1);
      TakeNext(ranked, n - 1);
      assert ranked[..n][..n - 1] == ranked[..n - 1];
      FirstsKeptStep(r, AfterDurable(r, arts, ranked[..n - 1]), ranked[..n - 1], ranked[n - 1]);
    }
  }

  /** With room for everything, an instruction is kept exactly when none with its key ranks before it. */
  lemma InstructionKeptExactly(r: Request, arts: seq<Artifact>, ranked: seq<Memory>, m: Memory)
    requires Roomy(r, arts, ranked)
    ensures m in Answer(Assemble(r, arts, ranked)).instructions <==> KeptAt(ranked, m)
  {
    DurablePassKeepsFirsts(r, arts, ranked, |ranked|);
    assert ranked[..|ranked|] == ranked;
    var d := AfterDurable(r, arts, ranked);
    OrdinaryKeepsInstructions(r, d, arts);
    EpisodeKeepsInstructions(r, OrdinaryPass(r, d, arts), ranked);
  }

  // --- In a whole request ------------------------------------------------------------------------------

  /** m and n are the only instructions with their key among the kept candidates. */
  ghost predicate RivalsFor(src: Sources, m: Memory, n: Memory) {
    && Admitted(src, m) && Admitted(src, n) && m.id != n.id
    && m.kind.Instruction? && n.kind.Instruction? && m.semanticKey == n.semanticKey != ""
    && forall x :: Admitted(src, x) && x.kind.Instruction? && x.semanticKey == m.semanticKey ==> x == m || x == n
  }

  /** The kept candidates, in whatever order, are within the limit of a context and within its budget. */
  ghost predicate Uncut(src: Sources, r: Request, arts: seq<Artifact>, kept: seq<Memory>) {
    && Distinct(kept) && (forall m :: m in kept <==> Admitted(src, m))
    && |kept| <= CONTEXT_LIMIT && Roomy(r, arts, kept)
  }

  lemma {:induction false} CostWithout(s: seq<Memory>, i: nat)
    requires i < |s|
    ensures MemoriesCost(s) == MemoriesCost(s[..i] + s[i + 1..]) + MemoryCost(s[i])
  {
    var n := |s| - 1;
    if i < n {
      CostWithout(s[..n], i);
      var rest := s[..i] + s[i + 1..];
      assert rest[|rest| - 1] == s[n] && rest[..|rest| - 1] == s[..n][..i] + s[..n][i + 1..];
    } else {
      assert s[..i] + s[i + 1..] == s[..n];
    }
  }

  lemma WithoutLast(s: seq<Memory>, t: seq<Memory>) returns (i: nat)
    requires multiset(s) == multiset(t) && s != []
    ensures i < |t| && t[i] == s[|s| - 1] && multiset(s[..|s| - 1]) == multiset(t[..i] + t[i + 1..])
  {
    var n := |s| - 1;
    assert s == s[..n] + [s[n]];
    assert s[n] in multiset(s);
    i :| 0 <= i < |t| && t[i] == s[n];
    ElementRemove(t, i);
    var a, b := multiset(s[..n]), multiset(t[..i] + t[i + 1..]);
    assert multiset(s) == a + multiset{s[n]} && multiset(t) == b + multiset{s[n]};
    assert a == (a + multiset{s[n]}) - multiset{s[n]};
    assert b == (b + multiset{s[n]}) - multiset{s[n]};
  }

  lemma {:induction false} CostPermutes(s: seq<Memory>, t: seq<Memory>)
    requires multiset(s) == multiset(t)
    ensures MemoriesCost(s) == MemoriesCost(t)
  {
    if s == [] {
      assert |multiset(t)| == 0;
    } else {
      var i := WithoutLast(s, t);
      CostWithout(t, i);
      CostPermutes(s[..|s| - 1], t[..i] + t[i + 1..]);
    }
  }

  /** The ranking is the kept candidates in another order. */
  lemma RankingIsKept(src: Sources, r: Request, arts: seq<Artifact>, kept: seq<Memory>)
    requires src.Valid() && Uncut(src, r, arts, kept)
    ensures |RankingOf(src)| <= CONTEXT_LIMIT && Roomy(r, arts, Rerank.MemoriesOf(RankingOf(src)))
  {
    var ranked := Rerank.MemoriesOf(RankingOf(src));
    RankedMembers(src);
    DistinctInside(ranked, kept);
    DistinctInside(kept, ranked);
    CostPermutes(ranked, kept);
  }

  lemma RankedMembers(src: Sources)
    requires src.Valid()
    ensures var ranked := Rerank.MemoriesOf(RankingOf(src));
      Distinct(ranked) && forall m :: m in ranked <==> Admitted(src, m)
  {
    var ranking := RankingOf(src);
    var ranked := Rerank.MemoriesOf(ranking);
    RankingHasDistinctIds(src, ranking);
    forall m ensures m in ranked <==> Admitted(src, m) {
      if m in ranked {
        var i :| 0 <= i < |ranked| && ranked[i] == m;
        assert ranking[i] in ranking;
      }
      if Admitted(src, m) {
        var i := PlaceOf(src, m);
        assert ranked[i] == m;
      }
    }
  }

  ghost function Plain(src: Sources, r: Request, arts: seq<Artifact>): Response
    requires src.Valid()
  {
    Answer(ContextOf(src, false, Rerank.Failed, RankingOf(src), r, arts))
  }

  lemma PlainReceives(src: Sources)
    requires src.Valid() && |RankingOf(src)| <= CONTEXT_LIMIT
    ensures Received(src, false, Rerank.Failed, RankingOf(src)) == Rerank.MemoriesOf(RankingOf(src))
  {
  }

  lemma PlaceOf(src: Sources, m: Memory) returns (i: nat)
    requires src.Valid() && Admitted(src, m)
    ensures i < |RankingOf(src)| && RankingOf(src)[i] == RankedOf(src, m)
  {
    assert RankedOf(src, m) in RankingOf(src);
    i :| 0 <= i < |RankingOf(src)| && RankingOf(src)[i] == RankedOf(src, m);
  }

  /** Of two rivals the assembly keeps exactly the one that outranks the other. */
  lemma RivalKeptExactly(src: Sources, r: Request, arts: seq<Artifact>, kept: seq<Memory>, m: Memory, n: Memory)
    requires src.Valid() && RivalsFor(src, m, n) && Uncut(src, r, arts, kept)
    ensures m in Plain(src, r, arts).instructions <==> Outranks(RankedOf(src, m), RankedOf(src, n))
  {
    var ranking := RankingOf(src);
    var ranked := Rerank.MemoriesOf(ranking);
    RankingIsKept(src, r, arts, kept);
    PlainReceives(src);
    InstructionKeptExactly(r, arts, ranked, m);
    var i := PlaceOf(src, m);
    var j := PlaceOf(src, n);
    OrderOfPlaces(ranking, i, j);
    if j < i {
      RivalBefore(src, m, n, i, j);
    } else {
      NoRivalBefore(src, m, n, i, j);
    }
  }

  lemma RivalBefore(src: Sources, m: Memory, n: Memory, i: nat, j: nat)
    requires src.Valid() && RivalsFor(src, m, n)
    requires i < |RankingOf(src)| && RankingOf(src)[i] == RankedOf(src, m)
    requires j < i && RankingOf(src)[j] == RankedOf(src, n)
    ensures !KeptAt(Rerank.MemoriesOf(RankingOf(src)), m)
  {
    OnlyPlace(src, m, i);
    assert Rerank.MemoriesOf(RankingOf(src))[j] == n;
  }

  lemma OrderOfPlaces(ranking: seq<Ranked>, i: nat, j: nat)
    requires Sorted(Outranks, ranking) && i < |ranking| && j < |ranking|
    ensures Outranks(ranking[i], ranking[j]) <==> i < j
  {
    OutranksIsStrictTotal();
  }

  lemma OnlyPlace(src: Sources, m: Memory, i: nat)
    requires src.Valid() && i < |RankingOf(src)| && RankingOf(src)[i].memory == m
    ensures forall k :: 0 <= k < |RankingOf(src)| && Rerank.MemoriesOf(RankingOf(src))[k] == m ==> k == i
  {
    RankingHasDistinctIds(src, RankingOf(src));
  }

  lemma NoRivalBefore(src: Sources, m: Memory, n: Memory, i: nat, j: nat)
    requires src.Valid() && RivalsFor(src, m, n)
    requires i < |RankingOf(src)| && RankingOf(src)[i] == RankedOf(src, m)
    requires i <= j < |RankingOf(src)| && RankingOf(src)[j] == RankedOf(src, n)
    ensures KeptAt(Rerank.MemoriesOf(RankingOf(src)), m)
  {
    var ranking := RankingOf(src);
    var ranked := Rerank.MemoriesOf(ranking);
    RankingHasDistinctIds(src, ranking);
    forall k | 0 <= k < i && ranked[k].kind.Instruction? ensures ranked[k].semanticKey != m.semanticKey {
      assert ranking[k] in ranking;
    }
    assert FirstOfKey(ranked, i) && ranked[i] == m;
  }

  // --- More specific instructions ------------------------------------------------------------------------

  /** Equal but for the lexical rank, the scope, the importance and the confidence. */
  ghost predicate AlikeInRest(p: Parts, q: Parts) {
    p == q.(lexical := p.lexical, scope := p.scope, importance := p.importance, confidence := p.confidence)
  }

  /** What the narrower scope adds to the score. */
  function ScopeGain(src: Sources, narrow: string, wide: string): real {
    0.1 * (ScopeClosure.ScopeScore(src.scopes, narrow) - ScopeClosure.ScopeScore(src.scopes, wide))
  }

  lemma ScoreGap(src: Sources, m: Memory, n: Memory)
    requires AlikeInRest(Components(src, m), Components(src, n))
    ensures RankedOf(src, m).score - RankedOf(src, n).score
         == ScopeGain(src, m.scope, n.scope) + RankGain(src, LexicalRank(src, m.id), LexicalRank(src, n.id))
            - 0.05 * Surplus(n, m)
  {
    GapOfParts(Components(src, m), Components(src, n), src.semantic.Some?);
  }

  lemma GapOfParts(p: Parts, q: Parts, hybrid: bool)
    requires AlikeInRest(p, q)
    ensures Weigh(p, hybrid) - Weigh(q, hybrid)
         == 0.1 * (p.scope - q.scope)
            + (if hybrid then 0.36 * (p.lexical - q.lexical) else 0.65 * (p.lexical - q.lexical))
            - 0.05 * (q.importance + q.confidence - p.importance - p.confidence)
  {
  }

  /**
   A more specific instruction replaces a broader one with its key exactly as long as the gain of its scope and
   of its lexical rank exceeds a twentieth of the broader one's surplus in importance and confidence; when they
   are equal the tie-breaking rule decides. The gain of the scope itself is always positive.
   */
  lemma SpecificInstructionKeptExactly(src: Sources, table: ScopeClosure.Scopes, ids: seq<string>, a: nat, b: nat,
                                       r: Request, arts: seq<Artifact>, kept: seq<Memory>, m: Memory, n: Memory)
    requires ScopeClosure.WellFounded(table) && ScopeClosure.Known(table, ids) && b < |table| && a < |table|
    requires a != b && ScopeClosure.AncestorOrSelf(table, a, b)
    requires ScopeClosure.ScopeAncestors(table, ids) == Some(src.scopes) && table[b].id in src.scopes
    requires m.scope == table[b].id && n.scope == table[a].id
    requires src.Valid() && RivalsFor(src, m, n) && Uncut(src, r, arts, kept)
    requires AlikeInRest(Components(src, m), Components(src, n))
    ensures ScopeGain(src, m.scope, n.scope) > 0.0
    ensures var gain := ScopeGain(src, m.scope, n.scope)
                        + RankGain(src, LexicalRank(src, m.id), LexicalRank(src, n.id));
      m in Plain(src, r, arts).instructions
      <==> gain > 0.05 * Surplus(n, m) || (gain == 0.05 * Surplus(n, m) && BreaksTie(m, n))
  {
    ScopeClosure.SpecificScopesScoreHigher(table, ids, a, b);
    RivalKeptExactly(src, r, arts, kept, m, n);
    ScoreGap(src, m, n);
  }

  // --- A broader instruction that is kept ------------------------------------------------------------------

  const BROAD := FIRST_HIT.(kind := Instruction, semanticKey := "k", scope := "r", importance := 1.0, confidence := 1.0)
  const NARROW := FIRST_HIT.(id := "b", kind := Instruction, semanticKey := "k", scope := "l")

  /** A request in the leaf scope "l" of the root scope "r", which finds the broad instruction first. */
  const BOTH := TwoHits(BROAD, NARROW, ["r", "l"])

  const ANY_BUDGET := Request(0, "", [], {})

  /** Root and leaf: asked for the leaf, the expansion is root and leaf. */
  lemma LeafExpands()
    ensures var table := ScopeLookups.ByRef("r", "rk", "l", "lk", "r");
      && ScopeClosure.Created(table) && ScopeClosure.WellFounded(table)
      && ScopeClosure.ScopeAncestors(table, ["l"]) == Some(BOTH.scopes)
  {
    assert "r"[0] != "l"[0] && |"r"| != |"rk"|;
    assert "rk"[0] != "lk"[0];
    ScopeLookups.ByRefIsCreated("r", "rk", "l", "lk", "r");
    ScopeLookups.ChildExpands("r", "rk", "l", "lk", "r");
  }

  lemma BroadRanksFirst()
    ensures BOTH.Valid() && Rerank.MemoriesOf(RankingOf(BOTH)) == [BROAD, NARROW]
  {
    var ranking := RankingOf(BOTH);
    TwoHitRanks(BROAD, NARROW, ["r", "l"]);
    BroadScoresHigher();
    TwoHitRanking(BROAD, NARROW, ["r", "l"], ranking);
  }

  lemma BroadScoresHigher()
    ensures RankedOf(BOTH, BROAD).score > RankedOf(BOTH, NARROW).score
  {
    TwoHitRanks(BROAD, NARROW, ["r", "l"]);
    LeafScores();
    var p, q := Components(BOTH, BROAD), Components(BOTH, NARROW);
    assert p.lexical == 1.0 && q.lexical == 61.0 / 62.0;
    assert p.entity == q.entity;
    assert p.semantic == q.semantic;
    GapOfParts(p, q, false);
  }

  lemma LeafScores()
    ensures ScopeClosure.ScopeScore(["r", "l"], "r") == 0.5 && ScopeClosure.ScopeScore(["r", "l"], "l") == 1.0
  {
    assert "r"[0] != "l"[0];
    assert ["r", "l"][1..] == ["l"];
    assert ScopeClosure.FirstIndex(["l"], "l") == 0;
  }

  /** The context keeps the instruction of the root scope and leaves out that of the leaf scope as overridden. */
  lemma BroaderInstructionPrevails()
    ensures BOTH.Valid()
    ensures var d := ContextOf(BOTH, false, Rerank.Failed, RankingOf(BOTH), ANY_BUDGET, []);
      Answer(d).instructions == [BROAD] && Answer(d).omissions == [OmittedMemory(Override, NARROW)]
  {
    BroadRanksFirst();
    BothReceived();
    BothAssembled();
  }

  lemma BothReceived()
    requires BOTH.Valid()
    ensures Received(BOTH, false, Rerank.Failed, RankingOf(BOTH)) == [BROAD, NARROW]
  {
    BroadRanksFirst();
    assert |RankingOf(BOTH)| == |Rerank.MemoriesOf(RankingOf(BOTH))|;
    PlainReceives(BOTH);
  }

  lemma BothAssembled()
    ensures var d := Assemble(ANY_BUDGET, [], [BROAD, NARROW]);
      d.instructions == [BROAD] && d.omissions == [OmittedMemory(Override, NARROW)]
  {
    var ranked := [BROAD, NARROW];
    assert ranked[..1] == [BROAD] && ranked[..1][..0] == [];
    var first := StepDurable(ANY_BUDGET, BLANK, BROAD);
    assert first == Draft([], [BROAD], [], [], [], [], 1, 0, 0, {"k"});
    assert DurablePass(ANY_BUDGET, BLANK, [BROAD]) == first;
    var second := StepDurable(ANY_BUDGET, first, NARROW);
    assert AfterDurable(ANY_BUDGET, [], ranked) == second;
    EpisodeNothing(second, ranked);
  }

  lemma EpisodeNothing(d: Draft, ranked: seq<Memory>)
    requires forall i :: 0 <= i < |ranked| ==> !ranked[i].kind.Episode?
    ensures EpisodePass(ANY_BUDGET, d, ranked) == d
  {
    if ranked != [] { EpisodeNothing(d, ranked[..|ranked| - 1]); }
  }
}
