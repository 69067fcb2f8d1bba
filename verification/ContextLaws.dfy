/** What context assembly guarantees about budgets, omissions, overrides and interference. */
module ContextLaws {
  import opened Sequences
  import opened ContextAssembly
  import EventStore
  import Retrieval

  function ArtifactsCost(s: seq<Artifact>): int {
    if s == [] then 0 else ArtifactsCost(s[..|s| - 1]) + ArtifactCost(s[|s| - 1])
  }

  function MemoriesCost(s: seq<Memory>): (n: int)
    ensures n >= |s|
  {
    if s == [] then 0 else MemoriesCost(s[..|s| - 1]) + MemoryCost(s[|s| - 1])
  }

  lemma CostSnoc(s: seq<Artifact>, a: Artifact, t: seq<Memory>, m: Memory)
    ensures ArtifactsCost(s + [a]) == ArtifactsCost(s) + ArtifactCost(a)
    ensures MemoriesCost(t + [m]) == MemoriesCost(t) + MemoryCost(m)
  {
    assert (s + [a])[..|s|] == s && (t + [m])[..|t|] == t;
  }

  // --- Budgets and what was left out -----------------------------------------------------------

  /** Why an item that was left out still has to be left out now. */
  ghost predicate StillOut(r: Request, d: Draft, o: Omission) {
    match o
    case OmittedArtifact(TokenBudget, a) => d.used + ArtifactCost(a) > Budget(r)
    case OmittedArtifact(TypeBudget, a) => !Explicit(r, a) && d.artifactUsed + ArtifactCost(a) > Budget(r) / 2
    case OmittedArtifact(Irrelevant, a) => !Explicit(r, a) && !Relevant(r, a)
    case OmittedArtifact(Override, a) => false
    case OmittedMemory(TokenBudget, m) => d.used + MemoryCost(m) > Budget(r)
    case OmittedMemory(TypeBudget, m) => m.kind.Episode? && d.episodeUsed + MemoryCost(m) > Budget(r) / 5
    case OmittedMemory(Irrelevant, m) => false
    case OmittedMemory(Override, m) => m.kind.Instruction? && m.semanticKey != "" && m.semanticKey in d.keys
  }

  ghost predicate Budgeted(r: Request, d: Draft) {
    && d.used <= Budget(r)
    && d.artifactUsed == ArtifactsCost(d.artifacts)
    && d.episodeUsed == MemoriesCost(d.episodes) <= Budget(r) / 5
    && ((exists i :: 0 <= i < |d.artifacts| && !Explicit(r, d.artifacts[i])) ==> d.artifactUsed <= Budget(r) / 2)
    && (forall i :: 0 <= i < |d.omissions| ==> StillOut(r, d, d.omissions[i]))
  }

  ghost predicate AllExplicit(r: Request, d: Draft) {
    forall i :: 0 <= i < |d.artifacts| ==> Explicit(r, d.artifacts[i])
  }

  lemma OmitKeepsBudgets(r: Request, d: Draft, o: Omission)
    requires Budgeted(r, d) && StillOut(r, d, o)
    ensures Budgeted(r, Omit(d, o))
  {
    var d' := Omit(d, o);
    forall i | 0 <= i < |d'.omissions| ensures StillOut(r, d', d'.omissions[i]) {
      assert StillOut(r, d, d'.omissions[i]);
    }
  }

  /** Whatever was out stays out while the counters only grow. */
  lemma StillOutLater(r: Request, d: Draft, d': Draft)
    requires d'.omissions == d.omissions && d.used <= d'.used && d.artifactUsed <= d'.artifactUsed
    requires d.episodeUsed <= d'.episodeUsed && d.keys <= d'.keys
    requires forall i :: 0 <= i < |d.omissions| ==> StillOut(r, d, d.omissions[i])
    ensures forall i :: 0 <= i < |d'.omissions| ==> StillOut(r, d', d'.omissions[i])
  {
    forall i | 0 <= i < |d'.omissions| ensures StillOut(r, d', d'.omissions[i]) {
      assert StillOut(r, d, d.omissions[i]);
    }
  }

  lemma AdmitArtifactKeepsBudgets(r: Request, d: Draft, a: Artifact)
    requires Budgeted(r, d) && d.used + ArtifactCost(a) <= Budget(r)
    requires (Explicit(r, a) && AllExplicit(r, d)) || d.artifactUsed + ArtifactCost(a) <= Budget(r) / 2
    ensures Budgeted(r, AdmitArtifact(d, a))
  {
    var d' := AdmitArtifact(d, a);
    StillOutLater(r, d, d');
    CostSnoc(d.artifacts, a, [], SOME_MEMORY);
    if i :| 0 <= i < |d'.artifacts| && !Explicit(r, d'.artifacts[i]) {
      assert d'.artifacts[i] == if i < |d.artifacts| then d.artifacts[i] else a;
    }
  }

  const SOME_MEMORY := Retrieval.Memory("", Retrieval.Fact, "", 1, "", "", "", "", 0.0, 0.0, "", EventStore.None,
    EventStore.None, 0)
  const SOME_ARTIFACT := Artifact("", 0, "", "")

  lemma ExplicitStepKeepsBudgets(r: Request, d: Draft, a: Artifact)
    requires Budgeted(r, d) && AllExplicit(r, d)
    ensures Budgeted(r, StepExplicit(r, d, a)) && AllExplicit(r, StepExplicit(r, d, a))
  {
    if Explicit(r, a) {
      if d.used + ArtifactCost(a) > Budget(r) {
        OmitKeepsBudgets(r, d, OmittedArtifact(TokenBudget, a));
      } else {
        AdmitArtifactKeepsBudgets(r, d, a);
        AdmitExplicitKeepsAll(r, d, a);
      }
    }
  }

  lemma AdmitExplicitKeepsAll(r: Request, d: Draft, a: Artifact)
    requires AllExplicit(r, d) && Explicit(r, a)
    ensures AllExplicit(r, AdmitArtifact(d, a))
  {
  }

  lemma DurableStepKeepsBudgets(r: Request, d: Draft, m: Memory)
    requires Budgeted(r, d)
    ensures Budgeted(r, StepDurable(r, d, m))
    ensures StepDurable(r, d, m).artifacts == d.artifacts && StepDurable(r, d, m).episodes == d.episodes
  {
    if m.kind.Episode? {
    } else if d.used + MemoryCost(m) > Budget(r) {
      OmitKeepsBudgets(r, d, OmittedMemory(TokenBudget, m));
    } else if m.kind.Instruction? && m.semanticKey != "" && m.semanticKey in d.keys {
      OmitKeepsBudgets(r, d, OmittedMemory(Override, m));
    } else {
      StillOutLater(r, d, StepDurable(r, d, m));
    }
  }

  lemma OrdinaryStepKeepsBudgets(r: Request, d: Draft, a: Artifact)
    requires Budgeted(r, d)
    ensures Budgeted(r, StepOrdinary(r, d, a))
  {
    if Explicit(r, a) {
    } else if !Relevant(r, a) {
      OmitKeepsBudgets(r, d, OmittedArtifact(Irrelevant, a));
    } else if d.artifactUsed + ArtifactCost(a) > Budget(r) / 2 {
      OmitKeepsBudgets(r, d, OmittedArtifact(TypeBudget, a));
    } else if d.used + ArtifactCost(a) > Budget(r) {
      OmitKeepsBudgets(r, d, OmittedArtifact(TokenBudget, a));
    } else {
      AdmitArtifactKeepsBudgets(r, d, a);
    }
  }

  lemma EpisodeStepKeepsBudgets(r: Request, d: Draft, m: Memory)
    requires Budgeted(r, d)
    ensures Budgeted(r, StepEpisode(r, d, m))
  {
    if !m.kind.Episode? {
    } else if d.episodeUsed + MemoryCost(m) > Budget(r) / 5 {
      OmitKeepsBudgets(r, d, OmittedMemory(TypeBudget, m));
    } else if d.used + MemoryCost(m) > Budget(r) {
      OmitKeepsBudgets(r, d, OmittedMemory(TokenBudget, m));
    } else {
      StillOutLater(r, d, StepEpisode(r, d, m));
      CostSnoc([], SOME_ARTIFACT, d.episodes, m);
    }
  }

  lemma {:induction false} ExplicitKeepsBudgets(r: Request, arts: seq<Artifact>)
    ensures Budgeted(r, ExplicitPass(r, BLANK, arts)) && AllExplicit(r, ExplicitPass(r, BLANK, arts))
  {
    if arts != [] {
      var n := |arts| - 1;
      ExplicitKeepsBudgets(r, arts[..n]);
      ExplicitStepKeepsBudgets(r, ExplicitPass(r, BLANK, arts[..n]), arts[n]);
    }
  }

  lemma {:induction false} DurableKeepsBudgets(r: Request, d: Draft, ranked: seq<Memory>)
    requires Budgeted(r, d)
    ensures Budgeted(r, DurablePass(r, d, ranked))
  {
    if ranked != [] {
      var n := |ranked| - 1;
      DurableKeepsBudgets(r, d, ranked[..n]);
      DurableStepKeepsBudgets(r, DurablePass(r, d, ranked[..n]), ranked[n]);
    }
  }

  lemma {:induction false} OrdinaryKeepsBudgets(r: Request, d: Draft, arts: seq<Artifact>)
    requires Budgeted(r, d)
    ensures Budgeted(r, OrdinaryPass(r, d, arts))
  {
    if arts != [] {
      var n := |arts| - 1;
      OrdinaryKeepsBudgets(r, d, arts[..n]);
      OrdinaryStepKeepsBudgets(r, OrdinaryPass(r, d, arts[..n]), arts[n]);
    }
  }

  lemma {:induction false} EpisodeKeepsBudgets(r: Request, d: Draft, ranked: seq<Memory>)
    requires Budgeted(r, d)
    ensures Budgeted(r, EpisodePass(r, d, ranked))
  {
    if ranked != [] {
      var n := |ranked| - 1;
      EpisodeKeepsBudgets(r, d, ranked[..n]);
      EpisodeStepKeepsBudgets(r, EpisodePass(r, d, ranked[..n]), ranked[n]);
    }
  }

  /**
   The answer stays within every budget, and is maximal: whatever was omitted for a budget still does
   not fit next to everything admitted. Episodes stay within a fifth; once any unselected artifact is
   in, all artifacts stay within a half.
   */
  lemma BudgetsHoldAndNothingOmittedFits(r: Request, arts: seq<Artifact>, ranked: seq<Memory>)
    ensures var d := Assemble(r, arts, ranked);
      && d.used <= Budget(r)
      && MemoriesCost(d.episodes) <= Budget(r) / 5
      && ((exists i :: 0 <= i < |d.artifacts| && !Explicit(r, d.artifacts[i])) ==>
            ArtifactsCost(d.artifacts) <= Budget(r) / 2)
      && (forall i :: 0 <= i < |d.omissions| ==> StillOut(r, d, d.omissions[i]))
      && d.artifactUsed == ArtifactsCost(d.artifacts) && d.episodeUsed == MemoriesCost(d.episodes)
  {
    ExplicitKeepsBudgets(r, arts);
    DurableKeepsBudgets(r, ExplicitPass(r, BLANK, arts), ranked);
    OrdinaryKeepsBudgets(r, AfterDurable(r, arts, ranked), arts);
    EpisodeKeepsBudgets(r, OrdinaryPass(r, AfterDurable(r, arts, ranked), arts), ranked);
  }

  // --- The estimate ----------------------------------------------------------------------------

  /** The memories that the durable pass charges without listing them. */
  function Unlisted(r: Request, d: Draft, ranked: seq<Memory>): seq<Memory> {
    if ranked == [] then []
    else
      var n := |ranked| - 1;
      var before, m := DurablePass(r, d, ranked[..n]), ranked[n];
      Unlisted(r, d, ranked[..n]) + if Unlists(r, before, m) then [m] else []
  }

  function Listed(d: Draft): int {
    ArtifactsCost(d.artifacts) + MemoriesCost(d.instructions) + MemoriesCost(d.decisions) + MemoriesCost(d.facts)
    + MemoriesCost(d.episodes)
  }

  predicate Unlists(r: Request, d: Draft, m: Memory) {
    m.kind.Other? && d.used + MemoryCost(m) <= Budget(r)
  }

  lemma ArtifactStepsCharge(r: Request, d: Draft, a: Artifact)
    ensures StepExplicit(r, d, a).used - Listed(StepExplicit(r, d, a)) == d.used - Listed(d)
    ensures StepOrdinary(r, d, a).used - Listed(StepOrdinary(r, d, a)) == d.used - Listed(d)
  {
    ExplicitStepCases(r, d, a);
    OrdinaryStepCases(r, d, a);
    AdmittedArtifactCost(d, a);
  }

  lemma AdmittedArtifactCost(d: Draft, a: Artifact)
    ensures Listed(AdmitArtifact(d, a)) == Listed(d) + ArtifactCost(a)
  {
    CostSnoc(d.artifacts, a, [], SOME_MEMORY);
  }

  lemma EpisodeStepCharges(r: Request, d: Draft, m: Memory)
    ensures StepEpisode(r, d, m).used - Listed(StepEpisode(r, d, m)) == d.used - Listed(d)
  {
    EpisodeStepCases(r, d, m);
    CostSnoc([], SOME_ARTIFACT, d.episodes, m);
    assert Listed(AdmitEpisode(d, m)) == Listed(d) + MemoryCost(m);
  }

  lemma EpisodeStepCases(r: Request, d: Draft, m: Memory)
    ensures var d' := StepEpisode(r, d, m);
      if m.kind.Episode? then
        || d' == Omit(d, OmittedMemory(TokenBudget, m))
        || d' == Omit(d, OmittedMemory(TypeBudget, m))
        || d' == AdmitEpisode(d, m)
      else d' == d
  {
  }

  lemma OrdinaryStepCases(r: Request, d: Draft, a: Artifact)
    ensures var d' := StepOrdinary(r, d, a);
      if Explicit(r, a) then d' == d
      else d' == Omit(d, OmittedArtifact(TokenBudget, a)) || d' == Omit(d, OmittedArtifact(TypeBudget, a))
           || d' == Omit(d, OmittedArtifact(Irrelevant, a)) || d' == AdmitArtifact(d, a)
  {
  }

  lemma DurableStepCharges(r: Request, d: Draft, m: Memory)
    ensures StepDurable(r, d, m).used - Listed(StepDurable(r, d, m))
         == d.used - Listed(d) + if Unlists(r, d, m) then MemoryCost(m) else 0
  {
    DurableStepOutcome(r, d, m);
    DurableAdmissionsCost(d, m);
  }

  lemma DurableAdmissionsCost(d: Draft, m: Memory)
    ensures Listed(AdmitInstruction(d, m)) == Listed(d) + MemoryCost(m)
    ensures Listed(AdmitDecision(d, m)) == Listed(d) + MemoryCost(m)
    ensures Listed(AdmitFact(d, m)) == Listed(d) + MemoryCost(m)
  {
    CostSnoc([], SOME_ARTIFACT, d.instructions, m);
    CostSnoc([], SOME_ARTIFACT, d.decisions, m);
    CostSnoc([], SOME_ARTIFACT, d.facts, m);
  }

  /** The outcomes of a durable step; only a memory of unknown type that fits is charged without being listed. */
  lemma DurableStepOutcome(r: Request, d: Draft, m: Memory)
    ensures var d' := StepDurable(r, d, m);
      if m.kind.Episode? then d' == d
      else if Unlists(r, d, m) then d' == d.(used := d.used + MemoryCost(m))
      else d' == Omit(d, OmittedMemory(TokenBudget, m)) || d' == Omit(d, OmittedMemory(Override, m))
           || d' == AdmitInstruction(d, m) || d' == AdmitDecision(d, m) || d' == AdmitFact(d, m)
  {
  }

  lemma {:induction false} ExplicitCharges(r: Request, arts: seq<Artifact>)
    ensures ExplicitPass(r, BLANK, arts).used == Listed(ExplicitPass(r, BLANK, arts))
  {
    if arts != [] {
      var n := |arts| - 1;
      ExplicitCharges(r, arts[..n]);
      ArtifactStepsCharge(r, ExplicitPass(r, BLANK, arts[..n]), arts[n]);
    }
  }

  lemma {:induction false} DurableCharges(r: Request, d: Draft, ranked: seq<Memory>)
    requires d.used == Listed(d)
    ensures var d' := DurablePass(r, d, ranked); d'.used == Listed(d') + MemoriesCost(Unlisted(r, d, ranked))
  {
    if ranked != [] {
      var n := |ranked| - 1;
      DurableCharges(r, d, ranked[..n]);
      DurableStepCharges(r, DurablePass(r, d, ranked[..n]), ranked[n]);
      var before := Unlisted(r, d, ranked[..n]);
      if Unlists(r, DurablePass(r, d, ranked[..n]), ranked[n]) {
        CostSnoc([], SOME_ARTIFACT, before, ranked[n]);
        assert Unlisted(r, d, ranked) == before + [ranked[n]];
      } else {
        assert Unlisted(r, d, ranked) == before;
      }
    }
  }

  lemma {:induction false} OrdinaryCharges(r: Request, d: Draft, arts: seq<Artifact>)
    ensures var d' := OrdinaryPass(r, d, arts); d'.used - Listed(d') == d.used - Listed(d)
  {
    if arts != [] {
      var n := |arts| - 1;
      OrdinaryCharges(r, d, arts[..n]);
      ArtifactStepsCharge(r, OrdinaryPass(r, d, arts[..n]), arts[n]);
    }
  }

  lemma {:induction false} EpisodeCharges(r: Request, d: Draft, ranked: seq<Memory>)
    ensures var d' := EpisodePass(r, d, ranked); d'.used - Listed(d') == d.used - Listed(d)
  {
    if ranked != [] {
      var n := |ranked| - 1;
      EpisodeCharges(r, d, ranked[..n]);
      EpisodeStepCharges(r, EpisodePass(r, d, ranked[..n]), ranked[n]);
    }
  }

  /**
   The estimate is the summed cost of everything listed plus that of the memories charged but not
   listed; so it is exact if and only if no memory of a foreign type was charged.
   */
  lemma EstimateIsExactUpToForeignTypes(r: Request, arts: seq<Artifact>, ranked: seq<Memory>)
    ensures var d := Assemble(r, arts, ranked);
            var unlisted := Unlisted(r, ExplicitPass(r, BLANK, arts), ranked);
      && Answer(d).tokenEstimate == Listed(d) + MemoriesCost(unlisted)
      && (Answer(d).tokenEstimate == Listed(d) <==> unlisted == [])
  {
    ExplicitCharges(r, arts);
    DurableCharges(r, ExplicitPass(r, BLANK, arts), ranked);
    OrdinaryCharges(r, AfterDurable(r, arts, ranked), arts);
    EpisodeCharges(r, OrdinaryPass(r, AfterDurable(r, arts, ranked), arts), ranked);
  }

  lemma {:induction false} LegalTypesAreListed(r: Request, d: Draft, ranked: seq<Memory>)
    requires forall i :: 0 <= i < |ranked| ==> !ranked[i].kind.Other?
    ensures Unlisted(r, d, ranked) == []
  {
    if ranked != [] { LegalTypesAreListed(r, d, ranked[..|ranked| - 1]); }
  }

  lemma {:induction false} ExplicitUsesAtMost(r: Request, arts: seq<Artifact>)
    ensures ExplicitPass(r, BLANK, arts).used <= ArtifactsCost(arts)
  {
    if arts != [] { ExplicitUsesAtMost(r, arts[..|arts| - 1]); }
  }

  lemma {:induction false} DurableUsesAtMost(r: Request, d: Draft, ranked: seq<Memory>)
    ensures DurablePass(r, d, ranked).used <= d.used + MemoriesCost(ranked)
  {
    if ranked != [] { DurableUsesAtMost(r, d, ranked[..|ranked| - 1]); }
  }

  lemma {:induction false} CostOfPrefix(ranked: seq<Memory>, i: nat)
    requires i < |ranked|
    ensures MemoriesCost(ranked[..i]) + MemoryCost(ranked[i]) <= MemoriesCost(ranked)
  {
    var n := |ranked| - 1;
    if i < n {
      CostOfPrefix(ranked[..n], i);
      assert ranked[..n][..i] == ranked[..i];
    }
  }

  /** The budget holds everything that the first two passes can admit. */
  predicate Roomy(r: Request, arts: seq<Artifact>, ranked: seq<Memory>) {
    ArtifactsCost(arts) + MemoriesCost(ranked) <= Budget(r)
  }

  lemma RoomyFits(r: Request, arts: seq<Artifact>, ranked: seq<Memory>, i: nat)
    requires Roomy(r, arts, ranked) && i < |ranked|
    ensures DurablePass(r, ExplicitPass(r, BLANK, arts), ranked[..i]).used + MemoryCost(ranked[i]) <= Budget(r)
  {
    ExplicitUsesAtMost(r, arts);
    DurableUsesAtMost(r, ExplicitPass(r, BLANK, arts), ranked[..i]);
    CostOfPrefix(ranked, i);
  }

  lemma {:induction false} ChargedForeignIsUnlisted(r: Request, d: Draft, ranked: seq<Memory>, i: nat)
    requires i < |ranked| && Unlists(r, DurablePass(r, d, ranked[..i]), ranked[i])
    ensures Unlisted(r, d, ranked) != []
  {
    var n := |ranked| - 1;
    if i < n {
      assert ranked[..n][..i] == ranked[..i];
      ChargedForeignIsUnlisted(r, d, ranked[..n], i);
    }
  }

  ghost predicate ExactFor(r: Request, budget: int, arts: seq<Artifact>, ranked: seq<Memory>) {
    var d := Assemble(r.(tokenBudget := budget), arts, ranked);
    Answer(d).tokenEstimate == Listed(d)
  }

  /** The estimate is exact for every budget exactly when no ranked memory has a foreign type. */
  lemma EstimateExactForEveryBudget(r: Request, arts: seq<Artifact>, ranked: seq<Memory>)
    ensures (forall budget: int :: ExactFor(r, budget, arts, ranked))
      <==> forall i :: 0 <= i < |ranked| ==> !ranked[i].kind.Other?
  {
    if forall i :: 0 <= i < |ranked| ==> !ranked[i].kind.Other? {
      forall budget: int ensures ExactFor(r, budget, arts, ranked) {
        var r' := r.(tokenBudget := budget);
        LegalTypesAreListed(r', ExplicitPass(r', BLANK, arts), ranked);
        EstimateIsExactUpToForeignTypes(r', arts, ranked);
      }
    } else {
      var i :| 0 <= i < |ranked| && ranked[i].kind.Other?;
      var budget := SomeBudgetIsRoomy(r, arts, ranked);
      RoomyForeignIsCharged(r.(tokenBudget := budget), arts, ranked, i);
      assert !ExactFor(r, budget, arts, ranked);
    }
  }

  lemma {:induction false} ArtifactsCostPositive(arts: seq<Artifact>)
    ensures ArtifactsCost(arts) >= 0
  {
    if arts != [] { ArtifactsCostPositive(arts[..|arts| - 1]); }
  }

  lemma RoomyForeignIsCharged(r: Request, arts: seq<Artifact>, ranked: seq<Memory>, i: nat)
    requires Roomy(r, arts, ranked) && i < |ranked| && ranked[i].kind.Other?
    ensures var d := Assemble(r, arts, ranked); Answer(d).tokenEstimate != Listed(d)
  {
    RoomyFits(r, arts, ranked, i);
    ChargedForeignIsUnlisted(r, ExplicitPass(r, BLANK, arts), ranked, i);
    EstimateIsExactUpToForeignTypes(r, arts, ranked);
  }

  lemma SomeBudgetIsRoomy(r: Request, arts: seq<Artifact>, ranked: seq<Memory>) returns (budget: int)
    requires ranked != []
    ensures Roomy(r.(tokenBudget := budget), arts, ranked)
  {
    ArtifactsCostPositive(arts);
    budget := ArtifactsCost(arts) + MemoriesCost(ranked);
  }

  // --- Every item is admitted once or omitted once ---------------------------------------------

  function OutArtifacts(s: seq<Omission>): seq<Artifact> {
    if s == [] then []
    else
      var o := s[|s| - 1];
      OutArtifacts(s[..|s| - 1]) + if o.OmittedArtifact? then [o.artifact] else []
  }

  function OutMemories(s: seq<Omission>): seq<Memory> {
    if s == [] then []
    else
      var o := s[|s| - 1];
      OutMemories(s[..|s| - 1]) + if o.OmittedMemory? then [o.memory] else []
  }

  /** How often an element occurs. */
  function Times<T(==)>(s: seq<T>, x: T): nat {
    if s == [] then 0 else Times(s[..|s| - 1], x) + if s[|s| - 1] == x then 1 else 0
  }

  lemma {:induction false} TimesIsMultiplicity<T>(s: seq<T>, x: T)
    ensures Times(s, x) == multiset(s)[x]
  {
    if s != [] {
      TimesIsMultiplicity(s[..|s| - 1], x);
      assert s == s[..|s| - 1] + [s[|s| - 1]];
    }
  }

  lemma TimesSnoc<T>(s: seq<T>, y: T, x: T)
    ensures Times(s + [y], x) == Times(s, x) + if x == y then 1 else 0
  {
    assert (s + [y])[..|s|] == s;
  }

  function ArtifactTimes(d: Draft, x: Artifact): nat {
    Times(d.artifacts, x) + Times(OutArtifacts(d.omissions), x)
  }

  function MemoryTimes(d: Draft, x: Memory): nat {
    Times(d.instructions, x) + Times(d.decisions, x) + Times(d.facts, x) + Times(d.episodes, x)
      + Times(OutMemories(d.omissions), x)
  }

  function IsExplicit(r: Request): Artifact -> bool { (a: Artifact) => Explicit(r, a) }

  function IsDurable(): Memory -> bool { (m: Memory) => !m.kind.Episode? }

  function One(b: bool): nat { if b then 1 else 0 }

  lemma OmitCounts(d: Draft, o: Omission, x: Artifact, y: Memory)
    ensures ArtifactTimes(Omit(d, o), x) == ArtifactTimes(d, x) + One(o.OmittedArtifact? && o.artifact == x)
    ensures MemoryTimes(Omit(d, o), y) == MemoryTimes(d, y) + One(o.OmittedMemory? && o.memory == y)
  {
    var s := d.omissions;
    assert (s + [o])[..|s|] == s;
    if o.OmittedArtifact? {
      TimesSnoc(OutArtifacts(s), o.artifact, x);
      assert OutMemories(s + [o]) == OutMemories(s);
    } else {
      TimesSnoc(OutMemories(s), o.memory, y);
      assert OutArtifacts(s + [o]) == OutArtifacts(s);
    }
  }

  lemma ExplicitStepCounts(r: Request, d: Draft, a: Artifact, x: Artifact, y: Memory)
    ensures var d' := StepExplicit(r, d, a);
      MemoryTimes(d', y) == MemoryTimes(d, y)
        && ArtifactTimes(d', x) == ArtifactTimes(d, x) + One(Explicit(r, a) && a == x)
  {
    ExplicitStepCases(r, d, a);
    OmitCounts(d, OmittedArtifact(TokenBudget, a), x, y);
    AdmitCounts(d, a, SOME_MEMORY, x, y);
  }

  lemma ExplicitStepCases(r: Request, d: Draft, a: Artifact)
    ensures var d' := StepExplicit(r, d, a);
      if Explicit(r, a) then d' == Omit(d, OmittedArtifact(TokenBudget, a)) || d' == AdmitArtifact(d, a) else d' == d
  {
  }

  lemma AdmitCounts(d: Draft, a: Artifact, m: Memory, x: Artifact, y: Memory)
    ensures ArtifactTimes(AdmitArtifact(d, a), x) == ArtifactTimes(d, x) + One(a == x)
    ensures MemoryTimes(AdmitArtifact(d, a), y) == MemoryTimes(d, y)
    ensures MemoryTimes(AdmitEpisode(d, m), y) == MemoryTimes(d, y) + One(m == y)
    ensures ArtifactTimes(AdmitEpisode(d, m), x) == ArtifactTimes(d, x)
  {
    TimesSnoc(d.artifacts, a, x);
    TimesSnoc(d.episodes, m, y);
  }

  lemma OrdinaryStepCounts(r: Request, d: Draft, a: Artifact, x: Artifact, y: Memory)
    ensures var d' := StepOrdinary(r, d, a);
      MemoryTimes(d', y) == MemoryTimes(d, y)
        && ArtifactTimes(d', x) == ArtifactTimes(d, x) + One(!Explicit(r, a) && a == x)
  {
    OrdinaryStepCases(r, d, a);
    OmitCounts(d, OmittedArtifact(TokenBudget, a), x, y);
    OmitCounts(d, OmittedArtifact(TypeBudget, a), x, y);
    OmitCounts(d, OmittedArtifact(Irrelevant, a), x, y);
    AdmitCounts(d, a, SOME_MEMORY, x, y);
  }

  lemma DurableStepCounts(r: Request, d: Draft, m: Memory, x: Artifact, y: Memory)
    ensures var d' := StepDurable(r, d, m);
      && ArtifactTimes(d', x) == ArtifactTimes(d, x)
      && MemoryTimes(d', y) == MemoryTimes(d, y) + One(!m.kind.Episode? && !Unlists(r, d, m) && m == y)
  {
    OmitCounts(d, OmittedMemory(TokenBudget, m), x, y);
    OmitCounts(d, OmittedMemory(Override, m), x, y);
    DurableStepOutcome(r, d, m);
    DurableAdmissionCounts(d, m, x, y);
  }

  lemma DurableAdmissionCounts(d: Draft, m: Memory, x: Artifact, y: Memory)
    ensures MemoryTimes(AdmitInstruction(d, m), y) == MemoryTimes(d, y) + One(m == y)
    ensures ArtifactTimes(AdmitInstruction(d, m), x) == ArtifactTimes(d, x)
    ensures MemoryTimes(AdmitDecision(d, m), y) == MemoryTimes(d, y) + One(m == y)
    ensures ArtifactTimes(AdmitDecision(d, m), x) == ArtifactTimes(d, x)
    ensures MemoryTimes(AdmitFact(d, m), y) == MemoryTimes(d, y) + One(m == y)
    ensures ArtifactTimes(AdmitFact(d, m), x) == ArtifactTimes(d, x)
  {
    TimesSnoc(d.instructions, m, y);
    TimesSnoc(d.decisions, m, y);
    TimesSnoc(d.facts, m, y);
  }

  lemma EpisodeStepCounts(r: Request, d: Draft, m: Memory, x: Artifact, y: Memory)
    ensures var d' := StepEpisode(r, d, m);
      ArtifactTimes(d', x) == ArtifactTimes(d, x)
        && MemoryTimes(d', y) == MemoryTimes(d, y) + One(m.kind.Episode? && m == y)
  {
    EpisodeStepCases(r, d, m);
    OmitCounts(d, OmittedMemory(TokenBudget, m), x, y);
    OmitCounts(d, OmittedMemory(TypeBudget, m), x, y);
    AdmitCounts(d, SOME_ARTIFACT, m, x, y);
  }

  lemma {:induction false} ExplicitCounts(r: Request, d: Draft, arts: seq<Artifact>, x: Artifact, y: Memory)
    ensures var d' := ExplicitPass(r, d, arts);
      && MemoryTimes(d', y) == MemoryTimes(d, y)
      && ArtifactTimes(d', x) == ArtifactTimes(d, x) + if Explicit(r, x) then Times(arts, x) else 0
  {
    if arts != [] {
      var n := |arts| - 1;
      ExplicitCounts(r, d, arts[..n], x, y);
      ExplicitStepCounts(r, ExplicitPass(r, d, arts[..n]), arts[n], x, y);
    }
  }

  lemma {:induction false} OrdinaryCounts(r: Request, d: Draft, arts: seq<Artifact>, x: Artifact, y: Memory)
    ensures var d' := OrdinaryPass(r, d, arts);
      && MemoryTimes(d', y) == MemoryTimes(d, y)
      && ArtifactTimes(d', x) == ArtifactTimes(d, x) + if Explicit(r, x) then 0 else Times(arts, x)
  {
    if arts != [] {
      var n := |arts| - 1;
      OrdinaryCounts(r, d, arts[..n], x, y);
      OrdinaryStepCounts(r, OrdinaryPass(r, d, arts[..n]), arts[n], x, y);
    }
  }

  lemma {:induction false} DurableCounts(r: Request, d: Draft, ranked: seq<Memory>, x: Artifact, y: Memory)
    ensures var d' := DurablePass(r, d, ranked);
      && ArtifactTimes(d', x) == ArtifactTimes(d, x)
      && MemoryTimes(d', y) + Times(Unlisted(r, d, ranked), y)
         == MemoryTimes(d, y) + if y.kind.Episode? then 0 else Times(ranked, y)
  {
    if ranked != [] {
      var n := |ranked| - 1;
      DurableCounts(r, d, ranked[..n], x, y);
      var before := DurablePass(r, d, ranked[..n]);
      DurableStepCounts(r, before, ranked[n], x, y);
      if Unlists(r, before, ranked[n]) {
        TimesSnoc(Unlisted(r, d, ranked[..n]), ranked[n], y);
        assert Unlisted(r, d, ranked) == Unlisted(r, d, ranked[..n]) + [ranked[n]];
      } else {
        assert Unlisted(r, d, ranked) == Unlisted(r, d, ranked[..n]);
      }
    }
  }

  lemma {:induction false} EpisodeCounts(r: Request, d: Draft, ranked: seq<Memory>, x: Artifact, y: Memory)
    ensures var d' := EpisodePass(r, d, ranked);
      && ArtifactTimes(d', x) == ArtifactTimes(d, x)
      && MemoryTimes(d', y) == MemoryTimes(d, y) + if y.kind.Episode? then Times(ranked, y) else 0
  {
    if ranked != [] {
      var n := |ranked| - 1;
      EpisodeCounts(r, d, ranked[..n], x, y);
      EpisodeStepCounts(r, EpisodePass(r, d, ranked[..n]), ranked[n], x, y);
    }
  }

  /**
   Conservation: every artifact is admitted or omitted as often as it was given, and every ranked
   memory is listed, omitted or charged without being listed as often as it was given.
   */
  lemma EveryItemIsAdmittedOrOmittedOnce(r: Request, arts: seq<Artifact>, ranked: seq<Memory>, x: Artifact, y: Memory)
    ensures var d := Assemble(r, arts, ranked);
      && ArtifactTimes(d, x) == multiset(arts)[x]
      && MemoryTimes(d, y) + Times(Unlisted(r, ExplicitPass(r, BLANK, arts), ranked), y) == multiset(ranked)[y]
  {
    ExplicitCounts(r, BLANK, arts, x, y);
    DurableCounts(r, ExplicitPass(r, BLANK, arts), ranked, x, y);
    OrdinaryCounts(r, AfterDurable(r, arts, ranked), arts, x, y);
    EpisodeCounts(r, OrdinaryPass(r, AfterDurable(r, arts, ranked), arts), ranked, x, y);
    TimesIsMultiplicity(arts, x);
    TimesIsMultiplicity(ranked, y);
  }

  /** For the four legal types nothing is charged unlisted: the estimate and the partition are exact. */
  lemma LegalTypesAreExact(r: Request, arts: seq<Artifact>, ranked: seq<Memory>, x: Artifact,
                                              y: Memory)
    requires forall i :: 0 <= i < |ranked| ==> !ranked[i].kind.Other?
    ensures var d := Assemble(r, arts, ranked);
      Answer(d).tokenEstimate == Listed(d) && ArtifactTimes(d, x) == multiset(arts)[x]
        && MemoryTimes(d, y) == multiset(ranked)[y]
  {
    LegalTypesAreListed(r, ExplicitPass(r, BLANK, arts), ranked);
    EstimateIsExactUpToForeignTypes(r, arts, ranked);
    EveryItemIsAdmittedOrOmittedOnce(r, arts, ranked, x, y);
  }

  // --- Instruction overrides -------------------------------------------------------------------

  /**
   Kept instructions come in rank order with distinct keys, and each overridden one has a kept one of
   its key before it.
   */
  ghost predicate Overridden(d: Draft, ranked: seq<Memory>) {
    && (forall i, j :: 0 <= i < j < |d.instructions| && d.instructions[i].semanticKey != "" ==>
          d.instructions[i].semanticKey != d.instructions[j].semanticKey)
    && KeysAreKept(d)
    && (forall i :: 0 <= i < |d.instructions| ==> d.instructions[i] in ranked)
    && (forall n :: 0 <= n < |d.omissions| && d.omissions[n].reason.Override? && d.omissions[n].OmittedMemory? ==>
          WinnerBefore(d.instructions, ranked, d.omissions[n].memory))
  }

  /** The used keys are those of the kept instructions. */
  ghost predicate KeysAreKept(d: Draft) {
    forall k :: k in d.keys <==> k != "" && exists i :: 0 <= i < |d.instructions| && d.instructions[i].semanticKey == k
  }

  ghost predicate WinnerBefore(instructions: seq<Memory>, ranked: seq<Memory>, loser: Memory) {
    exists i, j :: 0 <= i < j < |ranked| && ranked[i] in instructions && ranked[j] == loser
                   && ranked[i].semanticKey == loser.semanticKey
  }

  lemma {:induction false} NoOverrideYet(r: Request, arts: seq<Artifact>)
    ensures var d := ExplicitPass(r, BLANK, arts);
      && d.instructions == [] && d.keys == {}
      && forall n :: 0 <= n < |d.omissions| ==> !d.omissions[n].reason.Override?
  {
    if arts != [] { NoOverrideYet(r, arts[..|arts| - 1]); }
  }

  lemma WinnerStays(instructions: seq<Memory>, instructions': seq<Memory>, ranked: seq<Memory>, m: Memory,
                    loser: Memory)
    requires WinnerBefore(instructions, ranked, loser) && instructions <= instructions'
    ensures WinnerBefore(instructions', ranked + [m], loser)
  {
    var i, j :| 0 <= i < j < |ranked| && ranked[i] in instructions && ranked[j] == loser
      && ranked[i].semanticKey == loser.semanticKey;
    var longer := ranked + [m];
    assert longer[i] == ranked[i] && longer[j] == ranked[j];
    assert longer[i] in instructions';
  }

  lemma NewLoser(d: Draft, ranked: seq<Memory>, m: Memory)
    requires Overridden(d, ranked) && m.semanticKey in d.keys
    ensures WinnerBefore(d.instructions, ranked + [m], m)
  {
    var i :| 0 <= i < |d.instructions| && d.instructions[i].semanticKey == m.semanticKey;
    var x :| 0 <= x < |ranked| && ranked[x] == d.instructions[i];
    var longer := ranked + [m];
    assert longer[x] == ranked[x] && longer[|ranked|] == m;
    assert longer[x] in d.instructions;
  }

  lemma KeysStep(r: Request, d: Draft, m: Memory)
    requires KeysAreKept(d)
    ensures KeysAreKept(StepDurable(r, d, m))
  {
    var d' := StepDurable(r, d, m);
    if d'.instructions != d.instructions {
      assert d'.instructions[|d.instructions|] == m;
      forall k ensures k in d'.keys <==>
        k != "" && exists i :: 0 <= i < |d'.instructions| && d'.instructions[i].semanticKey == k {
        if i :| 0 <= i < |d.instructions| && d.instructions[i].semanticKey == k {
          assert d'.instructions[i].semanticKey == k;
        }
      }
    }
  }

  lemma OverrideStep(r: Request, d: Draft, ranked: seq<Memory>, m: Memory)
    requires Overridden(d, ranked)
    ensures Overridden(StepDurable(r, d, m), ranked + [m])
  {
    var d' := StepDurable(r, d, m);
    assert d.instructions <= d'.instructions;
    forall n | 0 <= n < |d'.omissions| && d'.omissions[n].reason.Override? && d'.omissions[n].OmittedMemory?
      ensures WinnerBefore(d'.instructions, ranked + [m], d'.omissions[n].memory)
    {
      if n < |d.omissions| {
        WinnerStays(d.instructions, d'.instructions, ranked, m, d.omissions[n].memory);
      } else {
        NewLoser(d, ranked, m);
      }
    }
    KeysStep(r, d, m);
  }

  lemma {:induction false} DurableOverrides(r: Request, d: Draft, ranked: seq<Memory>)
    requires Overridden(d, [])
    ensures Overridden(DurablePass(r, d, ranked), ranked)
  {
    if ranked != [] {
      var n := |ranked| - 1;
      DurableOverrides(r, d, ranked[..n]);
      OverrideStep(r, DurablePass(r, d, ranked[..n]), ranked[..n], ranked[n]);
      assert ranked[..n] + [ranked[n]] == ranked;
    }
  }

  lemma {:induction false} OrdinaryKeepsInstructions(r: Request, d: Draft, arts: seq<Artifact>)
    ensures var d' := OrdinaryPass(r, d, arts);
      && d'.instructions == d.instructions && d'.decisions == d.decisions && d'.facts == d.facts && d'.keys == d.keys
      && d'.episodes == d.episodes && d.omissions <= d'.omissions
      && forall n :: |d.omissions| <= n < |d'.omissions| ==> !d'.omissions[n].reason.Override?
  {
    if arts != [] { OrdinaryKeepsInstructions(r, d, arts[..|arts| - 1]); }
  }

  lemma {:induction false} EpisodeKeepsInstructions(r: Request, d: Draft, ranked: seq<Memory>)
    ensures var d' := EpisodePass(r, d, ranked);
      && d'.instructions == d.instructions && d'.decisions == d.decisions && d'.facts == d.facts && d'.keys == d.keys
      && d'.artifacts == d.artifacts && d.omissions <= d'.omissions
      && forall n :: |d.omissions| <= n < |d'.omissions| ==> !d'.omissions[n].reason.Override?
  {
    if ranked != [] { EpisodeKeepsInstructions(r, d, ranked[..|ranked| - 1]); }
  }

  /** At most one instruction is kept for each semantic key, and it ranks ahead of every instruction it overrides. */
  lemma OverridesFollowRank(r: Request, arts: seq<Artifact>, ranked: seq<Memory>)
    ensures Overridden(Assemble(r, arts, ranked), ranked)
  {
    NoOverrideYet(r, arts);
    DurableOverrides(r, ExplicitPass(r, BLANK, arts), ranked);
    OrdinaryKeepsInstructions(r, AfterDurable(r, arts, ranked), arts);
    EpisodeKeepsInstructions(r, OrdinaryPass(r, AfterDurable(r, arts, ranked), arts), ranked);
  }

  // --- Order -----------------------------------------------------------------------------------

  /** s is t with some elements left out. */
  predicate Subsequence<T(==)>(s: seq<T>, t: seq<T>) {
    || s == []
    || (t != [] && s[|s| - 1] == t[|t| - 1] && Subsequence(s[..|s| - 1], t[..|t| - 1]))
    || (t != [] && Subsequence(s, t[..|t| - 1]))
  }

  lemma SubsequenceSnoc<T>(s: seq<T>, t: seq<T>, x: T)
    requires Subsequence(s, t)
    ensures Subsequence(s, t + [x]) && Subsequence(s + [x], t + [x])
  {
    assert (t + [x])[..|t|] == t && (s + [x])[..|s|] == s;
  }

  ghost predicate InRankOrder(d: Draft, ranked: seq<Memory>) {
    Subsequence(d.instructions, ranked) && Subsequence(d.decisions, ranked) && Subsequence(d.facts, ranked)
  }

  lemma DurableStepCases(r: Request, d: Draft, m: Memory)
    ensures var d' := StepDurable(r, d, m);
      && d'.episodes == d.episodes && d'.artifacts == d.artifacts
      && (d'.instructions == d.instructions || d'.instructions == d.instructions + [m])
      && (d'.decisions == d.decisions || d'.decisions == d.decisions + [m])
      && (d'.facts == d.facts || d'.facts == d.facts + [m])
  {
  }

  lemma DurableStepKeepsOrder(r: Request, d: Draft, ranked: seq<Memory>, m: Memory)
    requires InRankOrder(d, ranked)
    ensures InRankOrder(StepDurable(r, d, m), ranked + [m])
    ensures StepDurable(r, d, m).episodes == d.episodes && StepDurable(r, d, m).artifacts == d.artifacts
  {
    DurableStepCases(r, d, m);
    SubsequenceSnoc(d.instructions, ranked, m);
    SubsequenceSnoc(d.decisions, ranked, m);
    SubsequenceSnoc(d.facts, ranked, m);
  }

  lemma {:induction false} DurableKeepsOrder(r: Request, d: Draft, ranked: seq<Memory>)
    requires d.instructions == d.decisions == d.facts == []
    ensures var d' := DurablePass(r, d, ranked);
      InRankOrder(d', ranked) && d'.episodes == d.episodes && d'.artifacts == d.artifacts
  {
    if ranked != [] {
      var n := |ranked| - 1;
      DurableKeepsOrder(r, d, ranked[..n]);
      DurableStepKeepsOrder(r, DurablePass(r, d, ranked[..n]), ranked[..n], ranked[n]);
      assert ranked[..n] + [ranked[n]] == ranked;
    }
  }

  lemma {:induction false} EpisodesKeepOrder(r: Request, d: Draft, ranked: seq<Memory>)
    requires d.episodes == []
    ensures Subsequence(EpisodePass(r, d, ranked).episodes, ranked)
  {
    if ranked != [] {
      var n := |ranked| - 1;
      EpisodesKeepOrder(r, d, ranked[..n]);
      EpisodeStepCases(r, EpisodePass(r, d, ranked[..n]), ranked[n]);
      assert ranked[..n] + [ranked[n]] == ranked;
      SubsequenceSnoc(EpisodePass(r, d, ranked[..n]).episodes, ranked[..n], ranked[n]);
    }
  }

  lemma {:induction false} ExplicitKeepsOrder(r: Request, arts: seq<Artifact>)
    ensures var d := ExplicitPass(r, BLANK, arts);
      Subsequence(d.artifacts, arts) && d.instructions == d.decisions == d.facts == d.episodes == []
  {
    if arts != [] {
      var n := |arts| - 1;
      ExplicitKeepsOrder(r, arts[..n]);
      assert arts[..n] + [arts[n]] == arts;
      SubsequenceSnoc(ExplicitPass(r, BLANK, arts[..n]).artifacts, arts[..n], arts[n]);
    }
  }

  lemma {:induction false} OrdinaryKeepsOrder(r: Request, d: Draft, arts: seq<Artifact>) returns (added: seq<Artifact>)
    ensures OrdinaryPass(r, d, arts).artifacts == d.artifacts + added && Subsequence(added, arts)
    ensures forall i :: 0 <= i < |added| ==> !Explicit(r, added[i])
  {
    if arts == [] {
      added := [];
    } else {
      var n := |arts| - 1;
      added := OrdinaryKeepsOrder(r, d, arts[..n]);
      var before := OrdinaryPass(r, d, arts[..n]);
      OrdinaryStepCases(r, before, arts[n]);
      assert arts[..n] + [arts[n]] == arts;
      SubsequenceSnoc(added, arts[..n], arts[n]);
      if StepOrdinary(r, before, arts[n]).artifacts != before.artifacts {
        added := added + [arts[n]];
      }
    }
  }

  /** Every list keeps the order it was given in; the explicitly selected artifacts come before the others. */
  lemma ListsKeepTheirOrder(r: Request, arts: seq<Artifact>, ranked: seq<Memory>)
    returns (first: seq<Artifact>, added: seq<Artifact>)
    ensures var d := Assemble(r, arts, ranked);
      && InRankOrder(d, ranked) && Subsequence(d.episodes, ranked)
      && d.artifacts == first + added && Subsequence(first, arts) && Subsequence(added, arts)
      && (forall i :: 0 <= i < |first| ==> Explicit(r, first[i]))
      && (forall i :: 0 <= i < |added| ==> !Explicit(r, added[i]))
  {
    ExplicitKeepsOrder(r, arts);
    ExplicitKeepsBudgets(r, arts);
    DurableKeepsOrder(r, ExplicitPass(r, BLANK, arts), ranked);
    OrdinaryKeepsInstructions(r, AfterDurable(r, arts, ranked), arts);
    EpisodeKeepsInstructions(r, OrdinaryPass(r, AfterDurable(r, arts, ranked), arts), ranked);
    EpisodesKeepOrder(r, OrdinaryPass(r, AfterDurable(r, arts, ranked), arts), ranked);
    first := ExplicitPass(r, BLANK, arts).artifacts;
    added := OrdinaryKeepsOrder(r, AfterDurable(r, arts, ranked), arts);
  }

  // --- Non-interference ------------------------------------------------------------------------

  lemma {:induction false} DurableIgnoresEpisodes(r: Request, d: Draft, ranked: seq<Memory>)
    ensures DurablePass(r, d, ranked) == DurablePass(r, d, Filter(IsDurable(), ranked))
  {
    if ranked != [] {
      var n := |ranked| - 1;
      DurableIgnoresEpisodes(r, d, ranked[..n]);
      var kept := Filter(IsDurable(), ranked[..n]);
      if !ranked[n].kind.Episode? {
        assert Filter(IsDurable(), ranked) == kept + [ranked[n]];
        assert (kept + [ranked[n]])[..|kept|] == kept;
      } else {
        assert Filter(IsDurable(), ranked) == kept;
      }
    }
  }

  lemma {:induction false} ExplicitIgnoresOrdinary(r: Request, d: Draft, arts: seq<Artifact>)
    ensures ExplicitPass(r, d, arts) == ExplicitPass(r, d, Filter(IsExplicit(r), arts))
  {
    if arts != [] {
      var n := |arts| - 1;
      ExplicitIgnoresOrdinary(r, d, arts[..n]);
      var kept := Filter(IsExplicit(r), arts[..n]);
      if Explicit(r, arts[n]) {
        assert Filter(IsExplicit(r), arts) == kept + [arts[n]];
        assert (kept + [arts[n]])[..|kept|] == kept;
      } else {
        assert Filter(IsExplicit(r), arts) == kept;
      }
    }
  }

  /** Two runs that differ only in episodes admit the same artifacts, instructions, decisions and facts. */
  lemma EpisodesDoNotInterfere(r: Request, arts: seq<Artifact>, ranked: seq<Memory>, ranked': seq<Memory>)
    requires Filter(IsDurable(), ranked) == Filter(IsDurable(), ranked')
    ensures var a, b := Answer(Assemble(r, arts, ranked)), Answer(Assemble(r, arts, ranked'));
      a.artifacts == b.artifacts && a.instructions == b.instructions && a.decisions == b.decisions && a.facts == b.facts
  {
    var d := ExplicitPass(r, BLANK, arts);
    DurableIgnoresEpisodes(r, d, ranked);
    DurableIgnoresEpisodes(r, d, ranked');
    var o := OrdinaryPass(r, AfterDurable(r, arts, ranked), arts);
    EpisodeKeepsInstructions(r, o, ranked);
    EpisodeKeepsInstructions(r, o, ranked');
  }

  /** Two runs that differ only in artifacts that were not selected explicitly admit the same durable memories. */
  lemma OrdinaryArtifactsDoNotInterfere(r: Request, arts: seq<Artifact>, arts': seq<Artifact>, ranked: seq<Memory>)
    requires Filter(IsExplicit(r), arts) == Filter(IsExplicit(r), arts')
    ensures var a, b := Answer(Assemble(r, arts, ranked)), Answer(Assemble(r, arts', ranked));
      a.instructions == b.instructions && a.decisions == b.decisions && a.facts == b.facts
  {
    ExplicitIgnoresOrdinary(r, BLANK, arts);
    ExplicitIgnoresOrdinary(r, BLANK, arts');
    var d := AfterDurable(r, arts, ranked);
    OrdinaryKeepsInstructions(r, d, arts);
    OrdinaryKeepsInstructions(r, d, arts');
    EpisodeKeepsInstructions(r, OrdinaryPass(r, d, arts), ranked);
    EpisodeKeepsInstructions(r, OrdinaryPass(r, d, arts'), ranked);
  }
}
