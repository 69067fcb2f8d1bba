/**
 Context assembly: four greedy passes over the artifacts and the ranked memories under one token
 budget, two type budgets, an omission log and a set of instruction keys.
 */
module ContextAssembly {
  import opened Sequences
  import opened Text
  import Retrieval

  datatype Artifact = Artifact(id: string, version: int, title: string, content: string)

  /** The memories of the ranked list. */
  type Memory = Retrieval.Memory

  datatype Selector = Selector(id: string, version: int)

  /** `related` are the artifacts with a relationship to one of the entities. */
  datatype Request = Request(tokenBudget: int, query: string, selectors: seq<Selector>, related: set<string>)

  datatype Reason = TokenBudget | TypeBudget | Irrelevant | Override

  datatype Omission =
    | OmittedArtifact(reason: Reason, artifact: Artifact)
    | OmittedMemory(reason: Reason, memory: Memory)

  datatype Response = Response(
    artifacts: seq<Artifact>, instructions: seq<Memory>, decisions: seq<Memory>, facts: seq<Memory>,
    episodes: seq<Memory>, omissions: seq<Omission>, tokenEstimate: int)

  /** The variables of the assembly while it runs. */
  datatype Draft = Draft(
    artifacts: seq<Artifact>, instructions: seq<Memory>, decisions: seq<Memory>, facts: seq<Memory>,
    episodes: seq<Memory>, omissions: seq<Omission>, used: int, artifactUsed: int, episodeUsed: int, keys: set<string>)

  const BLANK := Draft([], [], [], [], [], [], 0, 0, 0, {})

  // --- Pure parts ------------------------------------------------------------------------------

  function Tokens(s: string): (n: int)
    ensures n >= 1
  {
    var n := |s| / 4;
    if n < 1 then 1 else n
  }

  function ArtifactCost(a: Artifact): (n: int)
    ensures n >= 1
  {
    Tokens(a.title + a.content)
  }

  function MemoryCost(m: Memory): (n: int)
    ensures n >= 1
  {
    Tokens(m.title + m.content)
  }

  function Budget(r: Request): (n: int)
    ensures n > 0
  {
    if r.tokenBudget <= 0 then 12000 else r.tokenBudget
  }

  predicate Explicit(r: Request, a: Artifact) {
    exists i :: 0 <= i < |r.selectors| && Selects(r.selectors[i], a)
  }

  predicate Selects(s: Selector, a: Artifact) {
    (s.id != "" && s.id == a.id) || (s.version > 0 && s.version == a.version)
  }

  function Hits(words: seq<string>, text: string): (n: nat)
    ensures n > 0 <==> exists i :: 0 <= i < |words| && Contains(text, words[i])
  {
    if words == [] then 0
    else
      assert forall i :: 1 <= i < |words| ==> words[i] == words[1..][i - 1];
      (if Contains(text, words[0]) then 1 else 0) + Hits(words[1..], text)
  }

  function LexicalScore(query: string, text: string): real {
    var words := Fields(Lower(query));
    if |words| == 0 then 0.1 else Hits(words, Lower(text)) as real / |words| as real
  }

  predicate Relevant(r: Request, a: Artifact) {
    a.id in r.related || LexicalScore(r.query, a.title + " " + a.content) > 0.0
  }

  // --- The passes, one element at a time -------------------------------------------------------

  function Omit(d: Draft, o: Omission): Draft {
    d.(omissions := d.omissions + [o])
  }

  function AdmitArtifact(d: Draft, a: Artifact): Draft {
    d.(artifacts := d.artifacts + [a], used := d.used + ArtifactCost(a),
       artifactUsed := d.artifactUsed + ArtifactCost(a))
  }

  function StepExplicit(r: Request, d: Draft, a: Artifact): Draft {
    if !Explicit(r, a) then d
    else if d.used + ArtifactCost(a) > Budget(r) then Omit(d, OmittedArtifact(TokenBudget, a))
    else AdmitArtifact(d, a)
  }

  function AdmitInstruction(d: Draft, m: Memory): Draft {
    d.(instructions := d.instructions + [m], used := d.used + MemoryCost(m),
       keys := if m.semanticKey != "" then d.keys + {m.semanticKey} else d.keys)
  }

  function AdmitDecision(d: Draft, m: Memory): Draft {
    d.(decisions := d.decisions + [m], used := d.used + MemoryCost(m))
  }

  function AdmitFact(d: Draft, m: Memory): Draft {
    d.(facts := d.facts + [m], used := d.used + MemoryCost(m))
  }

  function AdmitEpisode(d: Draft, m: Memory): Draft {
    d.(episodes := d.episodes + [m], used := d.used + MemoryCost(m), episodeUsed := d.episodeUsed + MemoryCost(m))
  }

  /** A memory of a type outside the four is charged but listed nowhere. */
  function StepDurable(r: Request, d: Draft, m: Memory): Draft {
    if m.kind.Episode? then d
    else if d.used + MemoryCost(m) > Budget(r) then Omit(d, OmittedMemory(TokenBudget, m))
    else match m.kind
      case Instruction =>
        if m.semanticKey != "" && m.semanticKey in d.keys then Omit(d, OmittedMemory(Override, m))
        else AdmitInstruction(d, m)
      case Decision => AdmitDecision(d, m)
      case Fact => AdmitFact(d, m)
      case Other(_) => d.(used := d.used + MemoryCost(m))
      case Episode => d
  }

  function StepOrdinary(r: Request, d: Draft, a: Artifact): Draft {
    if Explicit(r, a) then d
    else if !Relevant(r, a) then Omit(d, OmittedArtifact(Irrelevant, a))
    else if d.artifactUsed + ArtifactCost(a) > Budget(r) / 2 then Omit(d, OmittedArtifact(TypeBudget, a))
    else if d.used + ArtifactCost(a) > Budget(r) then Omit(d, OmittedArtifact(TokenBudget, a))
    else AdmitArtifact(d, a)
  }

  function StepEpisode(r: Request, d: Draft, m: Memory): Draft {
    if !m.kind.Episode? then d
    else if d.episodeUsed + MemoryCost(m) > Budget(r) / 5 then Omit(d, OmittedMemory(TypeBudget, m))
    else if d.used + MemoryCost(m) > Budget(r) then Omit(d, OmittedMemory(TokenBudget, m))
    else AdmitEpisode(d, m)
  }

  function ExplicitPass(r: Request, d: Draft, arts: seq<Artifact>): Draft {
    if arts == [] then d else StepExplicit(r, ExplicitPass(r, d, arts[..|arts| - 1]), arts[|arts| - 1])
  }

  function DurablePass(r: Request, d: Draft, ranked: seq<Memory>): Draft {
    if ranked == [] then d else StepDurable(r, DurablePass(r, d, ranked[..|ranked| - 1]), ranked[|ranked| - 1])
  }

  function OrdinaryPass(r: Request, d: Draft, arts: seq<Artifact>): Draft {
    if arts == [] then d else StepOrdinary(r, OrdinaryPass(r, d, arts[..|arts| - 1]), arts[|arts| - 1])
  }

  function EpisodePass(r: Request, d: Draft, ranked: seq<Memory>): Draft {
    if ranked == [] then d else StepEpisode(r, EpisodePass(r, d, ranked[..|ranked| - 1]), ranked[|ranked| - 1])
  }

  function AfterDurable(r: Request, arts: seq<Artifact>, ranked: seq<Memory>): Draft {
    DurablePass(r, ExplicitPass(r, BLANK, arts), ranked)
  }

  function Assemble(r: Request, arts: seq<Artifact>, ranked: seq<Memory>): Draft {
    EpisodePass(r, OrdinaryPass(r, AfterDurable(r, arts, ranked), arts), ranked)
  }

  function Answer(d: Draft): Response {
    Response(d.artifacts, d.instructions, d.decisions, d.facts, d.episodes, d.omissions, d.used)
  }

  /** What a pass over one more element does. */
  lemma PassNext(r: Request, d: Draft, arts: seq<Artifact>, ranked: seq<Memory>, i: nat)
    ensures i < |arts| ==> ExplicitPass(r, d, arts[..i + 1]) == StepExplicit(r, ExplicitPass(r, d, arts[..i]), arts[i])
    ensures i < |arts| ==> OrdinaryPass(r, d, arts[..i + 1]) == StepOrdinary(r, OrdinaryPass(r, d, arts[..i]), arts[i])
    ensures i < |ranked| ==>
      DurablePass(r, d, ranked[..i + 1]) == StepDurable(r, DurablePass(r, d, ranked[..i]), ranked[i])
    ensures i < |ranked| ==>
      EpisodePass(r, d, ranked[..i + 1]) == StepEpisode(r, EpisodePass(r, d, ranked[..i]), ranked[i])
  {
    if i < |arts| { assert arts[..i + 1][..i] == arts[..i]; }
    if i < |ranked| { assert ranked[..i + 1][..i] == ranked[..i]; }
  }

  /** Every list holds memories of its own kind only. */
  ghost predicate KindsInPlace(d: Draft) {
    && (forall m :: m in d.instructions ==> m.kind.Instruction?) && (forall m :: m in d.decisions ==> m.kind.Decision?)
    && (forall m :: m in d.facts ==> m.kind.Fact?) && (forall m :: m in d.episodes ==> m.kind.Episode?)
  }

  lemma ArtifactStepsKeepKinds(r: Request, d: Draft, a: Artifact)
    requires KindsInPlace(d)
    ensures KindsInPlace(StepExplicit(r, d, a)) && KindsInPlace(StepOrdinary(r, d, a))
  {
  }

  lemma MemoryStepsKeepKinds(r: Request, d: Draft, m: Memory)
    requires KindsInPlace(d)
    ensures KindsInPlace(StepDurable(r, d, m)) && KindsInPlace(StepEpisode(r, d, m))
  {
  }

  lemma {:induction false} ArtifactPassesKeepKinds(r: Request, d: Draft, arts: seq<Artifact>)
    requires KindsInPlace(d)
    ensures KindsInPlace(ExplicitPass(r, d, arts)) && KindsInPlace(OrdinaryPass(r, d, arts))
  {
    if arts != [] {
      var n := |arts| - 1;
      ArtifactPassesKeepKinds(r, d, arts[..n]);
      ArtifactStepsKeepKinds(r, ExplicitPass(r, d, arts[..n]), arts[n]);
      ArtifactStepsKeepKinds(r, OrdinaryPass(r, d, arts[..n]), arts[n]);
    }
  }

  lemma {:induction false} MemoryPassesKeepKinds(r: Request, d: Draft, ranked: seq<Memory>)
    requires KindsInPlace(d)
    ensures KindsInPlace(DurablePass(r, d, ranked)) && KindsInPlace(EpisodePass(r, d, ranked))
  {
    if ranked != [] {
      var n := |ranked| - 1;
      MemoryPassesKeepKinds(r, d, ranked[..n]);
      MemoryStepsKeepKinds(r, DurablePass(r, d, ranked[..n]), ranked[n]);
      MemoryStepsKeepKinds(r, EpisodePass(r, d, ranked[..n]), ranked[n]);
    }
  }

  /** Whatever the request, no memory is listed among those of another type. */
  lemma ListsHoldTheirKinds(r: Request, arts: seq<Artifact>, ranked: seq<Memory>)
    ensures var a := Answer(Assemble(r, arts, ranked));
      && (forall m :: m in a.instructions ==> m.kind.Instruction?)
      && (forall m :: m in a.decisions ==> m.kind.Decision?)
      && (forall m :: m in a.facts ==> m.kind.Fact?)
      && (forall m :: m in a.episodes ==> m.kind.Episode?)
  {
    ArtifactPassesKeepKinds(r, BLANK, arts);
    MemoryPassesKeepKinds(r, ExplicitPass(r, BLANK, arts), ranked);
    ArtifactPassesKeepKinds(r, AfterDurable(r, arts, ranked), arts);
    MemoryPassesKeepKinds(r, OrdinaryPass(r, AfterDurable(r, arts, ranked), arts), ranked);
  }

  /** The assembly as the service runs it: four loops over shared variables. */
  method Context(r: Request, arts: seq<Artifact>, ranked: seq<Memory>) returns (resp: Response)
    ensures resp == Answer(Assemble(r, arts, ranked))
    ensures (forall m :: m in resp.instructions ==> m.kind.Instruction?)
    ensures (forall m :: m in resp.decisions ==> m.kind.Decision?) && (forall m :: m in resp.facts ==> m.kind.Fact?)
    ensures (forall m :: m in resp.episodes ==> m.kind.Episode?)
  {
    var budget := Budget(r);
    var artifacts: seq<Artifact>, instructions: seq<Memory>, decisions: seq<Memory>, facts: seq<Memory> :=
      [], [], [], [];
    var episodes: seq<Memory>, omissions: seq<Omission> := [], [];
    var used, artifactUsed, episodeUsed := 0, 0, 0;
    var instructionKeys: set<string> := {};
    for i := 0 to |arts|
      invariant Draft(artifacts, instructions, decisions, facts, episodes, omissions, used, artifactUsed, episodeUsed,
        instructionKeys)
             == ExplicitPass(r, BLANK, arts[..i])
    {
      var a := arts[i];
      PassNext(r, BLANK, arts, [], i);
      if Explicit(r, a) {
        var cost := ArtifactCost(a);
        if used + cost > budget {
          omissions := omissions + [OmittedArtifact(TokenBudget, a)];
        } else {
          artifacts := artifacts + [a];
          used := used + cost;
          artifactUsed := artifactUsed + cost;
        }
      }
    }
    assert arts[..|arts|] == arts;
    ghost var d1 := ExplicitPass(r, BLANK, arts);
    for i := 0 to |ranked|
      invariant Draft(artifacts, instructions, decisions, facts, episodes, omissions, used, artifactUsed, episodeUsed,
        instructionKeys)
             == DurablePass(r, d1, ranked[..i])
    {
      var m := ranked[i];
      PassNext(r, d1, [], ranked, i);
      if m.kind.Episode? {
        continue;
      }
      var cost := MemoryCost(m);
      if used + cost > budget {
        omissions := omissions + [OmittedMemory(TokenBudget, m)];
        continue;
      }
      match m.kind {
        case Instruction =>
          if m.semanticKey != "" {
            if m.semanticKey in instructionKeys {
              omissions := omissions + [OmittedMemory(Override, m)];
              continue;
            }
            instructionKeys := instructionKeys + {m.semanticKey};
          }
          instructions := instructions + [m];
        case Decision => decisions := decisions + [m];
        case Fact => facts := facts + [m];
        case Other(_) =>
      }
      used := used + cost;
    }
    assert ranked[..|ranked|] == ranked;
    ghost var d2 := AfterDurable(r, arts, ranked);
    for i := 0 to |arts|
      invariant Draft(artifacts, instructions, decisions, facts, episodes, omissions, used, artifactUsed, episodeUsed,
        instructionKeys)
             == OrdinaryPass(r, d2, arts[..i])
    {
      var a := arts[i];
      PassNext(r, d2, arts, [], i);
      if Explicit(r, a) {
        continue;
      }
      if !Relevant(r, a) {
        omissions := omissions + [OmittedArtifact(Irrelevant, a)];
        continue;
      }
      var cost := ArtifactCost(a);
      if artifactUsed + cost > budget / 2 {
        omissions := omissions + [OmittedArtifact(TypeBudget, a)];
        continue;
      }
      if used + cost > budget {
        omissions := omissions + [OmittedArtifact(TokenBudget, a)];
        continue;
      }
      artifacts := artifacts + [a];
      used := used + cost;
      artifactUsed := artifactUsed + cost;
    }
    assert arts[..|arts|] == arts;
    ghost var d3 := OrdinaryPass(r, d2, arts);
    for i := 0 to |ranked|
      invariant Draft(artifacts, instructions, decisions, facts, episodes, omissions, used, artifactUsed, episodeUsed,
        instructionKeys)
             == EpisodePass(r, d3, ranked[..i])
    {
      var m := ranked[i];
      PassNext(r, d3, [], ranked, i);
      if !m.kind.Episode? {
        continue;
      }
      var cost := MemoryCost(m);
      if episodeUsed + cost > budget / 5 {
        omissions := omissions + [OmittedMemory(TypeBudget, m)];
        continue;
      }
      if used + cost > budget {
        omissions := omissions + [OmittedMemory(TokenBudget, m)];
        continue;
      }
      episodes := episodes + [m];
      used := used + cost;
      episodeUsed := episodeUsed + cost;
    }
    assert ranked[..|ranked|] == ranked;
    resp := Response(artifacts, instructions, decisions, facts, episodes, omissions, used);
    ListsHoldTheirKinds(r, arts, ranked);
  }
}
