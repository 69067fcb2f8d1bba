/** Whole answers of the context assembly: what a list may hold, single items, and requests with room for everything. */
module ContextAnswers {
  import opened Sequences
  import opened Text
  import opened ContextAssembly
  import opened ContextLaws
  import InstructionOverride

  // --- What decides about an item, on its own ------------------------------------------------------

  lemma TokensExact(s: string)
    ensures if |s| < 4 then Tokens(s) == 1 else 4 * Tokens(s) <= |s| < 4 * Tokens(s) + 4
  {
  }

  lemma ExplicitByMembers(r: Request, a: Artifact)
    ensures Explicit(r, a) <==>
      exists s :: s in r.selectors && ((s.id != "" && s.id == a.id) || (s.version > 0 && s.version == a.version))
  {
    if Explicit(r, a) {
      var i :| 0 <= i < |r.selectors| && Selects(r.selectors[i], a);
      assert r.selectors[i] in r.selectors;
    }
    if s :| s in r.selectors && ((s.id != "" && s.id == a.id) || (s.version > 0 && s.version == a.version)) {
      var i :| 0 <= i < |r.selectors| && r.selectors[i] == s;
      assert Selects(r.selectors[i], a);
    }
  }

  /** An artifact is relevant to every query without words, and else when it contains one of the query's words. */
  lemma RelevantExactly(r: Request, a: Artifact)
    ensures var words := Fields(Lower(r.query));
      Relevant(r, a) <==>
        || a.id in r.related || words == []
        || exists w :: w in words && Contains(Lower(a.title + " " + a.content), w)
  {
    var words, text := Fields(Lower(r.query)), Lower(a.title + " " + a.content);
    if words != [] {
      var hits, n := Hits(words, text), |words|;
      assert hits as real / n as real > 0.0 <==> hits > 0;
      if hits > 0 {
        var i :| 0 <= i < |words| && Contains(text, words[i]);
        assert words[i] in words;
      }
      if w :| w in words && Contains(text, w) {
        var i :| 0 <= i < |words| && words[i] == w;
      }
    }
  }

  // --- Single items --------------------------------------------------------------------------------

  const NOTHING := Response([], [], [], [], [], [], 0)

  lemma OneArtifactPasses(r: Request, a: Artifact)
    ensures Assemble(r, [a], []) == StepOrdinary(r, StepExplicit(r, BLANK, a), a)
  {
    assert [a][..0] == [] && [a][..1] == [a];
    PassNext(r, BLANK, [a], [], 0);
    var d := ExplicitPass(r, BLANK, [a]);
    PassNext(r, d, [a], [], 0);
    assert AfterDurable(r, [a], []) == d;
  }

  lemma SelectedOnce(r: Request, a: Artifact)
    requires Explicit(r, a)
    ensures StepOrdinary(r, StepExplicit(r, BLANK, a), a)
         == if ArtifactCost(a) <= Budget(r) then AdmitArtifact(BLANK, a)
            else Omit(BLANK, OmittedArtifact(TokenBudget, a))
  {
  }

  lemma UnselectedOnce(r: Request, a: Artifact)
    requires !Explicit(r, a)
    ensures StepOrdinary(r, StepExplicit(r, BLANK, a), a)
         == if !Relevant(r, a) then Omit(BLANK, OmittedArtifact(Irrelevant, a))
            else if ArtifactCost(a) <= Budget(r) / 2 then AdmitArtifact(BLANK, a)
            else Omit(BLANK, OmittedArtifact(TypeBudget, a))
  {
  }

  lemma OneArtifactAnswer(r: Request, a: Artifact)
    ensures Answer(Assemble(r, [a], [])) ==
      if Explicit(r, a) && ArtifactCost(a) <= Budget(r) then Response([a], [], [], [], [], [], ArtifactCost(a))
      else if Explicit(r, a) then NOTHING.(omissions := [OmittedArtifact(TokenBudget, a)])
      else if !Relevant(r, a) then NOTHING.(omissions := [OmittedArtifact(Irrelevant, a)])
      else if ArtifactCost(a) <= Budget(r) / 2 then Response([a], [], [], [], [], [], ArtifactCost(a))
      else NOTHING.(omissions := [OmittedArtifact(TypeBudget, a)])
  {
    OneArtifactPasses(r, a);
    if Explicit(r, a) { SelectedOnce(r, a); } else { UnselectedOnce(r, a); }
  }

  /** A request with one artifact: its whole answer. */
  lemma OneArtifactExactly(r: Request, a: Artifact, budget: int, cost: int)
    requires budget == if r.tokenBudget <= 0 then 12000 else r.tokenBudget
    requires if |a.title + a.content| < 4 then cost == 1 else 4 * cost <= |a.title + a.content| < 4 * cost + 4
    ensures var listed := Response([a], [], [], [], [], [], cost);
      Answer(Assemble(r, [a], [])) ==
        if exists s :: s in r.selectors && ((s.id != "" && s.id == a.id) || (s.version > 0 && s.version == a.version))
        then if cost <= budget then listed else NOTHING.(omissions := [OmittedArtifact(TokenBudget, a)])
        else if a.id !in r.related && Fields(Lower(r.query)) != []
          && forall w :: w in Fields(Lower(r.query)) ==> !Contains(Lower(a.title + " " + a.content), w)
        then NOTHING.(omissions := [OmittedArtifact(Irrelevant, a)])
        else if cost <= budget / 2 then listed
        else NOTHING.(omissions := [OmittedArtifact(TypeBudget, a)])
  {
    ExplicitByMembers(r, a);
    RelevantExactly(r, a);
    TokensExact(a.title + a.content);
    OneArtifactAnswer(r, a);
  }

  lemma OneMemoryPasses(r: Request, m: Memory)
    ensures Assemble(r, [], [m]) == StepEpisode(r, StepDurable(r, BLANK, m), m)
  {
    PassNext(r, BLANK, [], [m], 0);
    assert [m][..0] == [] && [m][..1] == [m];
    var d := DurablePass(r, BLANK, [m]);
    assert AfterDurable(r, [], [m]) == d && OrdinaryPass(r, d, []) == d;
    PassNext(r, d, [], [m], 0);
  }

  /** A request with one memory: its whole answer. */
  lemma OneMemoryExactly(r: Request, m: Memory, budget: int, cost: int)
    requires budget == if r.tokenBudget <= 0 then 12000 else r.tokenBudget
    requires if |m.title + m.content| < 4 then cost == 1 else 4 * cost <= |m.title + m.content| < 4 * cost + 4
    ensures Answer(Assemble(r, [], [m])) ==
      if cost > (if m.kind.Episode? then budget / 5 else budget) then
        NOTHING.(omissions := [OmittedMemory(if m.kind.Episode? then TypeBudget else TokenBudget, m)])
      else match m.kind
        case Instruction => NOTHING.(instructions := [m], tokenEstimate := cost)
        case Decision => NOTHING.(decisions := [m], tokenEstimate := cost)
        case Fact => NOTHING.(facts := [m], tokenEstimate := cost)
        case Episode => NOTHING.(episodes := [m], tokenEstimate := cost)
        case Other(_) => NOTHING.(tokenEstimate := cost)
  {
    TokensExact(m.title + m.content);
    assert Budget(r) == budget && MemoryCost(m) == cost;
    OneMemoryPasses(r, m);
  }

  // --- Room for everything ---------------------------------------------------------------------------

  function DecisionMemory(): Memory -> bool { (m: Memory) => m.kind.Decision? }

  function FactMemory(): Memory -> bool { (m: Memory) => m.kind.Fact? }

  function EpisodeMemory(): Memory -> bool { (m: Memory) => m.kind.Episode? }

  lemma DurableStepLists(r: Request, d: Draft, m: Memory)
    requires d.used + MemoryCost(m) <= Budget(r)
    ensures var d' := StepDurable(r, d, m);
      && d'.decisions == d.decisions + (if m.kind.Decision? then [m] else [])
      && d'.facts == d.facts + (if m.kind.Fact? then [m] else [])
  {
  }

  lemma {:induction false} DurablePassLists(r: Request, d: Draft, ranked: seq<Memory>)
    requires d.used + MemoriesCost(ranked) <= Budget(r)
    ensures var d' := DurablePass(r, d, ranked);
      && d'.decisions == d.decisions + Filter(DecisionMemory(), ranked)
      && d'.facts == d.facts + Filter(FactMemory(), ranked)
  {
    if ranked != [] {
      var n := |ranked| - 1;
      DurablePassLists(r, d, ranked[..n]);
      DurableUsesAtMost(r, d, ranked[..n]);
      DurableStepLists(r, DurablePass(r, d, ranked[..n]), ranked[n]);
    }
  }

  /**
   With a budget for all artifacts and memories, the decisions of a context are exactly the ranked decisions, and its
   facts exactly the ranked facts, in rank order; an instruction is in it exactly when no instruction ranked before
   it has its key.
   */
  lemma RoomyDurablesExactly(r: Request, arts: seq<Artifact>, ranked: seq<Memory>, m: Memory)
    requires Roomy(r, arts, ranked)
    ensures var a := Answer(Assemble(r, arts, ranked));
      && (m in a.decisions <==> m in ranked && m.kind.Decision?)
      && (m in a.facts <==> m in ranked && m.kind.Fact?)
      && (m in a.instructions <==>
            exists j | 0 <= j < |ranked| && ranked[j] == m && m.kind.Instruction? ::
              m.semanticKey == ""
                || forall i :: 0 <= i < j && ranked[i].kind.Instruction? ==> ranked[i].semanticKey != m.semanticKey)
      && a.decisions == Filter(DecisionMemory(), ranked) && a.facts == Filter(FactMemory(), ranked)
  {
    ExplicitUsesAtMost(r, arts);
    ExplicitKeepsOrder(r, arts);
    DurablePassLists(r, ExplicitPass(r, BLANK, arts), ranked);
    var d := AfterDurable(r, arts, ranked);
    OrdinaryKeepsInstructions(r, d, arts);
    EpisodeKeepsInstructions(r, OrdinaryPass(r, d, arts), ranked);
    FilterMembers(DecisionMemory(), ranked);
    FilterMembers(FactMemory(), ranked);
    InstructionOverride.InstructionKeptExactly(r, arts, ranked, m);
  }

  function Unselected(r: Request): Artifact -> bool { (a: Artifact) => !Explicit(r, a) }

  function Chosen(r: Request): Artifact -> bool { (a: Artifact) => !Explicit(r, a) && Relevant(r, a) }

  lemma ArtifactsCostNext(p: Artifact -> bool, arts: seq<Artifact>)
    requires arts != []
    ensures var n := |arts| - 1;
      ArtifactsCost(Filter(p, arts))
        == ArtifactsCost(Filter(p, arts[..n])) + if p(arts[n]) then ArtifactCost(arts[n]) else 0
  {
    var before, a := arts[..|arts| - 1], arts[|arts| - 1];
    if p(a) {
      CostSnoc(Filter(p, before), a, [], SOME_MEMORY);
      assert Filter(p, arts) == Filter(p, before) + [a];
    } else {
      assert Filter(p, arts) == Filter(p, before);
    }
  }

  lemma MemoriesCostNext(p: Memory -> bool, ranked: seq<Memory>)
    requires ranked != []
    ensures var n := |ranked| - 1;
      MemoriesCost(Filter(p, ranked))
        == MemoriesCost(Filter(p, ranked[..n])) + if p(ranked[n]) then MemoryCost(ranked[n]) else 0
  {
    var before, m := ranked[..|ranked| - 1], ranked[|ranked| - 1];
    if p(m) {
      CostSnoc([], SOME_ARTIFACT, Filter(p, before), m);
      assert Filter(p, ranked) == Filter(p, before) + [m];
    } else {
      assert Filter(p, ranked) == Filter(p, before);
    }
  }

  lemma {:induction false} ArtifactCostsSplit(r: Request, arts: seq<Artifact>)
    ensures ArtifactsCost(arts)
         == ArtifactsCost(Filter(IsExplicit(r), arts)) + ArtifactsCost(Filter(Unselected(r), arts))
  {
    if arts != [] {
      var n := |arts| - 1;
      ArtifactCostsSplit(r, arts[..n]);
      ArtifactsCostNext(IsExplicit(r), arts);
      ArtifactsCostNext(Unselected(r), arts);
    }
  }

  lemma {:induction false} MemoryCostsSplit(ranked: seq<Memory>)
    ensures MemoriesCost(ranked)
         == MemoriesCost(Filter(IsDurable(), ranked)) + MemoriesCost(Filter(EpisodeMemory(), ranked))
  {
    if ranked != [] {
      var n := |ranked| - 1;
      MemoryCostsSplit(ranked[..n]);
      MemoriesCostNext(IsDurable(), ranked);
      MemoriesCostNext(EpisodeMemory(), ranked);
    }
  }

  lemma {:induction false} ExplicitPassLists(r: Request, arts: seq<Artifact>)
    requires ArtifactsCost(Filter(IsExplicit(r), arts)) <= Budget(r)
    ensures var d := ExplicitPass(r, BLANK, arts);
      && d.artifacts == Filter(IsExplicit(r), arts) && d.episodes == [] && d.episodeUsed == 0
      && d.used == d.artifactUsed == ArtifactsCost(Filter(IsExplicit(r), arts))
  {
    if arts != [] {
      var n := |arts| - 1;
      ArtifactsCostNext(IsExplicit(r), arts);
      ExplicitPassLists(r, arts[..n]);
    }
  }

  lemma {:induction false} DurablePassUses(r: Request, d: Draft, ranked: seq<Memory>)
    ensures var d' := DurablePass(r, d, ranked);
      && d'.used <= d.used + MemoriesCost(Filter(IsDurable(), ranked))
      && d'.artifacts == d.artifacts && d'.artifactUsed == d.artifactUsed
      && d'.episodes == d.episodes && d'.episodeUsed == d.episodeUsed
  {
    if ranked != [] {
      var n := |ranked| - 1;
      MemoriesCostNext(IsDurable(), ranked);
      DurablePassUses(r, d, ranked[..n]);
    }
  }

  lemma OrdinaryStepLists(r: Request, d: Draft, a: Artifact)
    requires !Explicit(r, a) ==>
      d.artifactUsed + ArtifactCost(a) <= Budget(r) / 2 && d.used + ArtifactCost(a) <= Budget(r)
    ensures StepOrdinary(r, d, a)
         == if Explicit(r, a) then d
            else if Relevant(r, a) then AdmitArtifact(d, a)
            else Omit(d, OmittedArtifact(Irrelevant, a))
  {
  }

  lemma {:induction false} OrdinaryPassLists(r: Request, d: Draft, arts: seq<Artifact>)
    requires d.artifactUsed + ArtifactsCost(Filter(Unselected(r), arts)) <= Budget(r) / 2
    requires d.used + ArtifactsCost(Filter(Unselected(r), arts)) <= Budget(r)
    ensures var d', cost := OrdinaryPass(r, d, arts), ArtifactsCost(Filter(Unselected(r), arts));
      && d'.artifacts == d.artifacts + Filter(Chosen(r), arts)
      && d'.used <= d.used + cost && d'.artifactUsed <= d.artifactUsed + cost
      && d'.episodes == d.episodes && d'.episodeUsed == d.episodeUsed
  {
    if arts != [] {
      var n := |arts| - 1;
      ArtifactsCostNext(Unselected(r), arts);
      OrdinaryPassLists(r, d, arts[..n]);
      OrdinaryStepLists(r, OrdinaryPass(r, d, arts[..n]), arts[n]);
    }
  }

  /** The draft with these episodes added. */
  ghost predicate AddsEpisodes(d: Draft, d': Draft, episodes: seq<Memory>) {
    && d'.episodes == d.episodes + episodes && d'.artifacts == d.artifacts
    && d'.used == d.used + MemoriesCost(episodes) && d'.episodeUsed == d.episodeUsed + MemoriesCost(episodes)
  }

  lemma EpisodeStepAdds(r: Request, d: Draft, before: Draft, episodes: seq<Memory>, m: Memory)
    requires AddsEpisodes(d, before, episodes) && m.kind.Episode?
    requires d.episodeUsed + MemoriesCost(episodes + [m]) <= Budget(r) / 5
    requires d.used + MemoriesCost(episodes + [m]) <= Budget(r)
    ensures AddsEpisodes(d, StepEpisode(r, before, m), episodes + [m])
  {
    CostSnoc([], SOME_ARTIFACT, episodes, m);
  }

  lemma {:induction false} EpisodePassLists(r: Request, d: Draft, ranked: seq<Memory>)
    requires d.episodeUsed + MemoriesCost(Filter(EpisodeMemory(), ranked)) <= Budget(r) / 5
    requires d.used + MemoriesCost(Filter(EpisodeMemory(), ranked)) <= Budget(r)
    ensures AddsEpisodes(d, EpisodePass(r, d, ranked), Filter(EpisodeMemory(), ranked))
  {
    if ranked != [] {
      var before, m := ranked[..|ranked| - 1], ranked[|ranked| - 1];
      MemoriesCostNext(EpisodeMemory(), ranked);
      EpisodePassLists(r, d, before);
      if m.kind.Episode? {
        assert Filter(EpisodeMemory(), ranked) == Filter(EpisodeMemory(), before) + [m];
        EpisodeStepAdds(r, d, EpisodePass(r, d, before), Filter(EpisodeMemory(), before), m);
      } else {
        assert Filter(EpisodeMemory(), ranked) == Filter(EpisodeMemory(), before);
      }
    }
  }

  lemma RoomyLists(r: Request, arts: seq<Artifact>, ranked: seq<Memory>)
    requires Roomy(r, arts, ranked) && ArtifactsCost(arts) <= Budget(r) / 2
    requires MemoriesCost(Filter(EpisodeMemory(), ranked)) <= Budget(r) / 5
    ensures var d := Assemble(r, arts, ranked);
      && d.artifacts == Filter(IsExplicit(r), arts) + Filter(Chosen(r), arts)
      && d.episodes == Filter(EpisodeMemory(), ranked)
  {
    ArtifactCostsSplit(r, arts);
    MemoryCostsSplit(ranked);
    ArtifactsCostPositive(Filter(Unselected(r), arts));
    ExplicitPassLists(r, arts);
    DurablePassUses(r, ExplicitPass(r, BLANK, arts), ranked);
    OrdinaryPassLists(r, AfterDurable(r, arts, ranked), arts);
    EpisodePassLists(r, OrdinaryPass(r, AfterDurable(r, arts, ranked), arts), ranked);
  }

  lemma ListedExactly(r: Request, arts: seq<Artifact>, x: Artifact)
    requires x in arts
    ensures x in Filter(IsExplicit(r), arts) + Filter(Chosen(r), arts) <==> Explicit(r, x) || Relevant(r, x)
  {
    FilterMembers(IsExplicit(r), arts);
    FilterMembers(Chosen(r), arts);
  }

  /**
   With room in every budget a context holds, besides, the selected artifacts, then the relevant ones, and all
   episodes, each in the order given.
   */
  lemma RoomyArtifactsAndEpisodesExactly(r: Request, arts: seq<Artifact>, ranked: seq<Memory>, x: Artifact)
    requires Roomy(r, arts, ranked) && ArtifactsCost(arts) <= Budget(r) / 2
    requires MemoriesCost(Filter(EpisodeMemory(), ranked)) <= Budget(r) / 5
    ensures var a := Answer(Assemble(r, arts, ranked));
      && a.artifacts == Filter(IsExplicit(r), arts) + Filter(Chosen(r), arts)
      && a.episodes == Filter(EpisodeMemory(), ranked)
      && (x in arts ==>
            (x in a.artifacts <==>
             || (exists s :: s in r.selectors
                             && ((s.id != "" && s.id == x.id) || (s.version > 0 && s.version == x.version)))
             || x.id in r.related || Fields(Lower(r.query)) == []
             || exists w :: w in Fields(Lower(r.query)) && Contains(Lower(x.title + " " + x.content), w)))
  {
    RoomyLists(r, arts, ranked);
    if x in arts { ListedExactly(r, arts, x); }
    ExplicitByMembers(r, x);
    RelevantExactly(r, x);
  }
}
