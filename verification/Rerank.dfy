/**
 Reranking by an untrusted provider, and the whole retrieval response. Each result refers to one mutable
 explanation; copies of a result share it.
 */
module Rerank {
  import opened EventStore
  import opened Ordering
  import opened Retrieval
  import opened Sequences
  import opened Text

  class Explanation {
    var entries: map<string, real>

    constructor (p: Parts)
      ensures entries == Entries(p)
    {
      entries := Entries(p);
    }
  }

  function Entries(p: Parts): map<string, real> {
    map["lexical" := p.lexical, "semantic" := p.semantic, "entity" := p.entity, "scope" := p.scope,
        "importance" := p.importance, "confidence" := p.confidence, "recency" := p.recency]
  }

  datatype Item = Item(memory: Memory, score: real, explanation: Explanation) {
    function Value(): Ranked {
      Ranked(memory, score)
    }
  }

  function Values(items: seq<Item>): seq<Ranked> {
    Transform((i: Item) => i.Value(), items)
  }

  function Ids(ranked: seq<Ranked>): seq<string> {
    Transform((r: Ranked) => r.memory.id, ranked)
  }

  datatype Mode = Auto | Never | Always

  /** The provider's answer: an error, or any list of ids. */
  datatype Reply = Failed | Answered(ids: seq<string>)

  datatype Reason = Disabled | RequestDisabled | InsufficientCandidates | ConfidentHybridMatch
    | ProviderError | InvalidProviderResult | AmbiguousHybridCandidates | AmbiguousSubject

  const CANDIDATE_LIMIT: nat := 12

  function CandidateCount(results: seq<Ranked>): nat {
    if |results| < CANDIDATE_LIMIT then |results| else CANDIDATE_LIMIT
  }

  predicate CanonicalSubjectMatch(query: string, m: Memory) {
    var subject, title := TrimSpace(Lower(m.subject)), TrimSpace(Lower(m.title));
    (subject != "" && Contains(Lower(query), subject)) || (title != "" && Contains(Lower(query), title))
  }

  /** Why the provider is not asked; None when it is. */
  function Gate(mode: Mode, present: bool, query: string, results: seq<Ranked>): Option<Reason> {
    if mode == Never then Some(RequestDisabled)
    else if !present then Some(Disabled)
    else if CandidateCount(results) < 3 then Some(InsufficientCandidates)
    else if mode == Auto && results[0].score - results[1].score >= 0.08
      && CanonicalSubjectMatch(query, results[0].memory) then
      Some(ConfidentHybridMatch)
    else None
  }

  /** The ids are non-empty, without repetition, and all among the candidates sent. */
  ghost predicate Acceptable(results: seq<Ranked>, ids: seq<string>) {
    ids != [] && Distinct(ids) && forall i :: 0 <= i < |ids| ==> ids[i] in Ids(results)[..CandidateCount(results)]
  }

  ghost predicate Accepted(mode: Mode, present: bool, query: string, results: seq<Ranked>, reply: Reply) {
    Gate(mode, present, query, results).None? && reply.Answered? && Acceptable(results, reply.ids)
  }

  /** How many ids the loop accepts before it stops. */
  ghost function ValidLength(known: seq<string>, ids: seq<string>, n: nat): (r: nat)
    requires n <= |ids|
    ensures n <= r <= |ids|
    decreases |ids| - n
  {
    if n < |ids| && ids[n] in known && ids[n] !in ids[..n] then ValidLength(known, ids, n + 1) else n
  }

  /** It is the longest prefix of known ids without repetition. */
  lemma {:induction false} ValidLengthIsLongest(known: seq<string>, ids: seq<string>, n: nat)
    requires n <= |ids|
    ensures var r := ValidLength(known, ids, n);
      && (forall i :: n <= i < r ==> ids[i] in known && ids[i] !in ids[..i])
      && (r == |ids| || ids[r] !in known || ids[r] in ids[..r])
    decreases |ids| - n
  {
    if n < |ids| && ids[n] in known && ids[n] !in ids[..n] { ValidLengthIsLongest(known, ids, n + 1); }
  }

  lemma AcceptableExactlyWhenAllValid(results: seq<Ranked>, ids: seq<string>)
    ensures Acceptable(results, ids) <==>
      ids != [] && ValidLength(Ids(results)[..CandidateCount(results)], ids, 0) == |ids|
  {
    var r := ValidLength(Ids(results)[..CandidateCount(results)], ids, 0);
    ValidLengthIsLongest(Ids(results)[..CandidateCount(results)], ids, 0);
    if r == |ids| {
      forall i, j | 0 <= i < j < |ids| ensures ids[i] != ids[j] {
        assert ids[j] !in ids[..j];
      }
    }
    if Acceptable(results, ids) {
      forall i | 0 <= i < |ids| ensures ids[i] !in ids[..i] {
      }
    }
  }

  /** Where the result with this id stands. */
  function PlaceOf(results: seq<Ranked>, id: string): (i: nat)
    ensures i <= |results|
    ensures i < |results| ==> results[i].memory.id == id
    ensures forall j :: 0 <= j < i ==> results[j].memory.id != id
  {
    if results == [] || results[0].memory.id == id then 0 else 1 + PlaceOf(results[1..], id)
  }

  /** The n-th id of the reply names this result, now with the mixed score. */
  function Promoted(results: seq<Ranked>, ids: seq<string>, n: nat): Ranked
    requires n < |ids| && PlaceOf(results, ids[n]) < |results|
  {
    var r := results[PlaceOf(results, ids[n])];
    Ranked(r.memory, 0.7 * ReciprocalRank(n + 1) + 0.3 * r.score)
  }

  ghost predicate AllPresent(results: seq<Ranked>, ids: seq<string>) {
    forall i :: 0 <= i < |ids| ==> PlaceOf(results, ids[i]) < |results|
  }

  ghost function PromotedAll(results: seq<Ranked>, ids: seq<string>): (r: seq<Ranked>)
    requires AllPresent(results, ids)
    ensures |r| == |ids| && forall n :: 0 <= n < |ids| ==> r[n] == Promoted(results, ids, n)
  {
    seq(|ids|, n requires 0 <= n < |ids| => Promoted(results, ids, n))
  }

  /** The reply's results in reply order, then all others in their old order. */
  ghost function Reordered(results: seq<Ranked>, ids: seq<string>): seq<Ranked>
    requires AllPresent(results, ids)
  {
    PromotedAll(results, ids) + Filter((r: Ranked) => r.memory.id !in ids, results)
  }

  ghost predicate DistinctIds(results: seq<Ranked>) {
    forall i, j :: 0 <= i < j < |results| ==> results[i].memory.id != results[j].memory.id
  }

  lemma AcceptableIsPresent(results: seq<Ranked>, ids: seq<string>)
    requires Acceptable(results, ids)
    ensures AllPresent(results, ids)
  {
    forall i | 0 <= i < |ids| ensures PlaceOf(results, ids[i]) < |results| {
      KnownIsPlaced(results, ids[i]);
    }
  }

  lemma KnownIsPlaced(results: seq<Ranked>, id: string)
    requires id in Ids(results)[..CandidateCount(results)]
    ensures PlaceOf(results, id) < CandidateCount(results)
  {
    var j :| 0 <= j < CandidateCount(results) && Ids(results)[..CandidateCount(results)][j] == id;
    assert results[j].memory.id == id;
  }

  // --- What an accepted reply does ---------------------------------------------------------------

  function MemoriesOf(results: seq<Ranked>): seq<Memory> {
    Transform((r: Ranked) => r.memory, results)
  }

  /** The order after an accepted reply: the reply's ids first, then the remaining ids as they were. */
  lemma ReplyComesFirst(results: seq<Ranked>, ids: seq<string>)
    requires AllPresent(results, ids)
    ensures Ids(Reordered(results, ids)) == ids + Filter((id: string) => id !in ids, Ids(results))
  {
    FilterIds(results, ids);
    var out := Ids(Reordered(results, ids));
    var rest := Filter((r: Ranked) => r.memory.id !in ids, results);
    assert out[..|ids|] == ids;
    assert out[|ids|..] == Ids(rest);
  }

  lemma FilterIdsSnoc(results: seq<Ranked>, last: Ranked, ids: seq<string>)
    requires Ids(Filter((r: Ranked) => r.memory.id !in ids, results))
      == Filter((id: string) => id !in ids, Ids(results))
    ensures Ids(Filter((r: Ranked) => r.memory.id !in ids, results + [last]))
      == Filter((id: string) => id !in ids, Ids(results + [last]))
  {
    FilterSnoc((r: Ranked) => r.memory.id !in ids, results, last);
    FilterSnoc((id: string) => id !in ids, Ids(results), last.memory.id);
    TransformSnoc((r: Ranked) => r.memory.id, results, last);
    TransformSnoc((r: Ranked) => r.memory.id, Filter((r: Ranked) => r.memory.id !in ids, results), last);
  }

  lemma {:induction false} FilterIds(results: seq<Ranked>, ids: seq<string>)
    ensures Ids(Filter((r: Ranked) => r.memory.id !in ids, results)) == Filter((id: string) => id !in ids, Ids(results))
  {
    if results != [] {
      var n := |results| - 1;
      FilterIds(results[..n], ids);
      FilterIdsSnoc(results[..n], results[n], ids);
      assert results == results[..n] + [results[n]];
    }
  }

  /** No memory is lost, added, altered or repeated, whatever the provider says. */
  lemma AcceptedReplyPermutes(results: seq<Ranked>, ids: seq<string>)
    requires DistinctIds(results) && Acceptable(results, ids)
    ensures AllPresent(results, ids)
    ensures multiset(MemoriesOf(Reordered(results, ids))) == multiset(MemoriesOf(results))
  {
    AcceptableIsPresent(results, ids);
    var ordered := Reordered(results, ids);
    ReplyComesFirst(results, ids);
    var before, after := MemoriesOf(results), MemoriesOf(ordered);
    DistinctMemories(results);
    ReorderedIsDistinct(results, ids);
    DistinctMemories(ordered);
    forall i | 0 <= i < |after| ensures after[i] in before {
      ReorderedMember(results, ids, i);
    }
    DistinctInside(after, before);
    forall i | 0 <= i < |before| ensures before[i] in after {
      OldMember(results, ids, i);
    }
    DistinctInside(before, after);
  }

  lemma DistinctMemories(results: seq<Ranked>)
    requires DistinctIds(results)
    ensures Distinct(MemoriesOf(results))
  {
    var m := MemoriesOf(results);
    forall i, j | 0 <= i < j < |m| ensures m[i] != m[j] {
      assert results[i].memory.id != results[j].memory.id;
    }
  }

  lemma ReorderedIsDistinct(results: seq<Ranked>, ids: seq<string>)
    requires DistinctIds(results) && AllPresent(results, ids) && Distinct(ids)
    ensures DistinctIds(Reordered(results, ids))
  {
    ReplyComesFirst(results, ids);
    var p := (id: string) => id !in ids;
    DistinctIdsByIds(results);
    FilterDistinct(p, Ids(results));
    FilterMembers(p, Ids(results));
    DistinctConcat(ids, Filter(p, Ids(results)));
    DistinctIdsByIds(Reordered(results, ids));
  }

  lemma DistinctIdsByIds(results: seq<Ranked>)
    ensures DistinctIds(results) <==> Distinct(Ids(results))
  {
    forall i, j | 0 <= i < j < |results| ensures Ids(results)[i] != Ids(results)[j] <==>
      results[i].memory.id != results[j].memory.id {
    }
  }

  lemma DistinctConcat(s: seq<string>, t: seq<string>)
    requires Distinct(s) && Distinct(t) && forall x :: x in t ==> x !in s
    ensures Distinct(s + t)
  {
    assert forall j :: 0 <= j < |t| ==> t[j] in t;
  }

  lemma ReorderedMember(results: seq<Ranked>, ids: seq<string>, i: nat)
    requires AllPresent(results, ids) && i < |Reordered(results, ids)|
    ensures Reordered(results, ids)[i].memory in MemoriesOf(results)
  {
    var rest := Filter((r: Ranked) => r.memory.id !in ids, results);
    if i < |ids| {
      var p := PlaceOf(results, ids[i]);
      assert MemoriesOf(results)[p] == Reordered(results, ids)[i].memory;
    } else {
      FilterMembers((r: Ranked) => r.memory.id !in ids, results);
      assert Reordered(results, ids)[i] == rest[i - |ids|];
      assert rest[i - |ids|] in results;
      var p :| 0 <= p < |results| && results[p] == rest[i - |ids|];
      assert MemoriesOf(results)[p] == Reordered(results, ids)[i].memory;
    }
  }

  lemma OldMember(results: seq<Ranked>, ids: seq<string>, i: nat)
    requires DistinctIds(results) && AllPresent(results, ids) && i < |results|
    ensures results[i].memory in MemoriesOf(Reordered(results, ids))
  {
    var rest := Filter((r: Ranked) => r.memory.id !in ids, results);
    var ordered := Reordered(results, ids);
    if results[i].memory.id in ids {
      var n :| 0 <= n < |ids| && ids[n] == results[i].memory.id;
      assert PlaceOf(results, ids[n]) == i;
      assert MemoriesOf(ordered)[n] == results[i].memory;
    } else {
      FilterMembers((r: Ranked) => r.memory.id !in ids, results);
      assert results[i] in rest;
      var k :| 0 <= k < |rest| && rest[k] == results[i];
      assert ordered[|ids| + k] == rest[k];
      assert MemoriesOf(ordered)[|ids| + k] == results[i].memory;
    }
  }

  lemma TailUnnamed(results: seq<Ranked>, ids: seq<string>)
    requires DistinctIds(results) && Acceptable(results, ids)
    ensures Filter((r: Ranked) => r.memory.id !in ids, results[CandidateCount(results)..])
      == results[CandidateCount(results)..]
  {
    var count := CandidateCount(results);
    var tail := results[count..];
    forall x | x in tail ensures x.memory.id !in ids {
      var i :| 0 <= i < |tail| && tail[i] == x;
      forall k | 0 <= k < |ids| ensures ids[k] != x.memory.id {
        KnownIsPlaced(results, ids[k]);
        assert results[PlaceOf(results, ids[k])].memory.id != results[count + i].memory.id;
      }
    }
    FilterAll((r: Ranked) => r.memory.id !in ids, tail);
  }

  /**
   A reply can move results among the first twelve only: these are permuted, and everything behind them
   stays in place.
   */
  lemma OnlyTheFrontMoves(results: seq<Ranked>, ids: seq<string>)
    requires DistinctIds(results) && Acceptable(results, ids) && AllPresent(results, ids)
    ensures var ordered, count := Reordered(results, ids), CandidateCount(results);
      && |ordered| == |results| && ordered[count..] == results[count..]
      && multiset(MemoriesOf(ordered[..count])) == multiset(MemoriesOf(results[..count]))
  {
    var ordered, count := Reordered(results, ids), CandidateCount(results);
    var p := (r: Ranked) => r.memory.id !in ids;
    var front, tail := results[..count], results[count..];
    assert results == front + tail;
    FilterAppend(p, front, tail);
    TailUnnamed(results, ids);
    assert ordered == PromotedAll(results, ids) + Filter(p, front) + tail;
    AcceptedReplyPermutes(results, ids);
    SameLength(MemoriesOf(ordered), MemoriesOf(results));
    FrontsPermute(ordered, results, count);
  }

  lemma SameLength(s: seq<Memory>, t: seq<Memory>)
    requires multiset(s) == multiset(t)
    ensures |s| == |t|
  {
    assert |s| == |multiset(s)| == |multiset(t)| == |t|;
  }

  lemma FrontsPermute(s: seq<Ranked>, t: seq<Ranked>, count: nat)
    requires |s| == |t| && count <= |s| && s[count..] == t[count..]
    requires multiset(MemoriesOf(s)) == multiset(MemoriesOf(t))
    ensures multiset(MemoriesOf(s[..count])) == multiset(MemoriesOf(t[..count]))
  {
    assert MemoriesOf(s) == MemoriesOf(s[..count]) + MemoriesOf(s[count..]);
    assert MemoriesOf(t) == MemoriesOf(t[..count]) + MemoriesOf(t[count..]);
    forall x ensures multiset(MemoriesOf(s[..count]))[x] == multiset(MemoriesOf(t[..count]))[x] {
      assert multiset(MemoriesOf(s))[x] == multiset(MemoriesOf(s[..count]))[x] + multiset(MemoriesOf(s[count..]))[x];
      assert multiset(MemoriesOf(t))[x] == multiset(MemoriesOf(t[..count]))[x] + multiset(MemoriesOf(t[count..]))[x];
    }
  }

  // --- The call ----------------------------------------------------------------------------------

  /** The list after the call. */
  ghost function FinalOrder(mode: Mode, present: bool, query: string, results: seq<Ranked>, reply: Reply): seq<Ranked> {
    if Accepted(mode, present, query, results, reply) then
      AcceptableIsPresent(results, reply.ids);
      Reordered(results, reply.ids)
    else results
  }

  ghost function FinalReason(mode: Mode, present: bool, query: string, results: seq<Ranked>, reply: Reply): Reason {
    var gate := Gate(mode, present, query, results);
    if gate.Some? then gate.value
    else if reply.Failed? then ProviderError
    else if Acceptable(results, reply.ids) then AmbiguousHybridCandidates
    else InvalidProviderResult
  }

  /** How many ids of the reply leave a trace in the explanations, even when the reply is rejected. */
  ghost function Traced(mode: Mode, present: bool, query: string, results: seq<Ranked>, reply: Reply): nat {
    if Gate(mode, present, query, results).None? && reply.Answered? then
      ValidLength(Ids(results)[..CandidateCount(results)], reply.ids, 0)
    else 0
  }

  /** Results and explanation objects are pairwise distinct. */
  ghost predicate Separate(items: seq<Item>) {
    forall i, j :: 0 <= i < j < |items| ==>
      items[i].memory.id != items[j].memory.id && items[i].explanation != items[j].explanation
  }

  type Note = map<string, real>

  /** The explanations as they stand. */
  ghost function Notes(items: seq<Item>): (r: seq<Note>)
    reads set i | 0 <= i < |items| :: items[i].explanation
    ensures |r| == |items| && forall i :: 0 <= i < |items| ==> r[i] == items[i].explanation.entries
  {
    seq(|items|, i requires 0 <= i < |items| reads set k | 0 <= k < |items| :: items[k].explanation
        => items[i].explanation.entries)
  }

  /** The explanations after the first n ids of a reply were written down. */
  function NotesAfter(owners: seq<string>, notes: seq<Note>, ids: seq<string>, n: nat): (r: seq<Note>)
    requires |owners| == |notes| && n <= |ids|
    ensures |r| == |notes|
  {
    if n == 0 then notes
    else
      var before := NotesAfter(owners, notes, ids, n - 1);
      seq(|notes|, i requires 0 <= i < |notes| =>
        if owners[i] == ids[n - 1] then before[i]["reranker" := ReciprocalRank(n)] else before[i])
  }

  /**
   Only the key "reranker" of results named in the valid part of the reply changes, to the rank of
   their position there.
   */
  lemma {:induction false} NotesAfterExact(owners: seq<string>, notes: seq<Note>, ids: seq<string>, n: nat, i: nat)
    requires |owners| == |notes| && n <= |ids| && i < |notes| && Distinct(ids[..n])
    ensures owners[i] !in ids[..n] ==> NotesAfter(owners, notes, ids, n)[i] == notes[i]
    ensures forall k :: 0 <= k < n && ids[k] == owners[i] ==>
      NotesAfter(owners, notes, ids, n)[i] == notes[i]["reranker" := ReciprocalRank(k + 1)]
  {
    if n > 0 {
      assert ids[..n] == ids[..n - 1] + [ids[n - 1]];
      DistinctPrefix(ids[..n - 1], ids[..n]);
      NotesAfterExact(owners, notes, ids, n - 1, i);
      assert forall k :: 0 <= k < n - 1 ==> ids[..n][k] != ids[..n][n - 1];
      assert forall k :: 0 <= k < n - 1 ==> ids[k] == ids[..n][k];
    }
  }

  function Owners(items: seq<Item>): seq<string> {
    Transform((i: Item) => i.memory.id, items)
  }

  method CandidatesById(results: seq<Item>, count: nat) returns (byId: map<string, Item>)
    requires Separate(results) && count <= |results|
    ensures forall id :: id in byId <==> id in Owners(results)[..count]
    ensures forall id :: id in byId ==> byId[id] in results && byId[id].memory.id == id
  {
    byId := map[];
    for i := 0 to count
      invariant forall id :: id in byId <==> id in Owners(results)[..i]
      invariant forall id :: id in byId ==> byId[id] in results && byId[id].memory.id == id
    {
      assert Owners(results)[..i + 1] == Owners(results)[..i] + [results[i].memory.id];
      byId := byId[results[i].memory.id := results[i]];
    }
  }

  /**
   Result j is the one that the n-th id names; r is that result with the mixed score and the same
   explanation object.
   */
  ghost predicate IsPromoted(results: seq<Item>, ids: seq<string>, n: nat, j: nat, r: Item)
    requires n < |ids| && j < |results|
  {
    results[j].memory.id == ids[n] && r == Mixed(results[j], ReciprocalRank(n + 1))
  }

  ghost predicate FrontIs(results: seq<Item>, ids: seq<string>, front: seq<Item>, places: seq<nat>) {
    |front| == |places| <= |ids| && forall k :: 0 <= k < |front| ==>
      places[k] < |results| && IsPromoted(results, ids, k, places[k], front[k])
  }

  /** Writing one explanation is one step of the specification, since explanations are not shared. */
  lemma WrittenOnce(results: seq<Item>, before: seq<Note>, after: seq<Note>, start: seq<Note>, ids: seq<string>,
                    n: nat, j: nat)
    requires Separate(results) && |before| == |after| == |start| == |results| && n < |ids| && j < |results|
    requires results[j].memory.id == ids[n] && before == NotesAfter(Owners(results), start, ids, n)
    requires after == before[j := before[j]["reranker" := ReciprocalRank(n + 1)]]
    ensures after == NotesAfter(Owners(results), start, ids, n + 1)
  {
    forall i | 0 <= i < |results| && i != j ensures results[i].memory.id != ids[n] {
      assert i < j || j < i;
    }
  }

  method RecordRank(results: seq<Item>, ghost j: nat, item: Item, rank: nat) returns (value: real)
    requires Separate(results) && j < |results| && results[j] == item
    modifies item.explanation
    ensures Notes(results) == old(Notes(results))[j := old(Notes(results))[j]["reranker" := ReciprocalRank(rank)]]
    ensures value == ReciprocalRank(rank)
  {
    assert forall i :: 0 <= i < |results| && i != j ==> results[i].explanation != item.explanation;
    item.explanation.entries := item.explanation.entries["reranker" := ReciprocalRank(rank)];
    value := item.explanation.entries["reranker"];
  }

  /** The first i ids of the reply were valid; `now` are the explanations after writing them. */
  ghost predicate Progress(results: seq<Item>, known: seq<string>, ids: seq<string>, i: nat, front: seq<Item>,
                           places: seq<nat>, start: seq<Note>, now: seq<Note>) {
    && i <= |ids| && |front| == i && |start| == |now| == |results|
    && ValidLength(known, ids, 0) == ValidLength(known, ids, i)
    && FrontIs(results, ids, front, places)
    && now == NotesAfter(Owners(results), start, ids, i)
  }

  function Mixed(item: Item, rank: real): Item {
    item.(score := 0.7 * rank + 0.3 * item.score)
  }

  lemma ProgressStep(results: seq<Item>, known: seq<string>, ids: seq<string>, i: nat, front: seq<Item>,
                     places: seq<nat>, start: seq<Note>, now: seq<Note>, j: nat, item: Item, rank: real,
                     after: seq<Note>)
    requires Separate(results) && Progress(results, known, ids, i, front, places, start, now)
    requires i < |ids| && ids[i] in known && ids[i] !in ids[..i] && j < |results| && results[j] == item
    requires item.memory.id == ids[i]
    requires rank == ReciprocalRank(i + 1) && after == now[j := now[j]["reranker" := rank]]
    ensures Progress(results, known, ids, i + 1, front + [Mixed(item, rank)], places + [j], start, after)
  {
    WrittenOnce(results, now, after, start, ids, i, j);
  }

  lemma ResultPlace(results: seq<Item>, item: Item) returns (j: nat)
    requires item in results
    ensures j < |results| && results[j] == item
  {
    j :| 0 <= j < |results| && results[j] == item;
  }

  /** The loop over the reply: it writes each explanation before it knows whether the rest is valid. */
  method Promote(results: seq<Item>, count: nat, ids: seq<string>)
    returns (front: seq<Item>, valid: bool, ghost places: seq<nat>)
    requires Separate(results) && count <= |results|
    modifies set i | 0 <= i < |results| :: results[i].explanation
    ensures |front| == ValidLength(Owners(results)[..count], ids, 0) <= |ids| && (valid <==> |front| == |ids|)
    ensures Progress(results, Owners(results)[..count], ids, |front|, front, places, old(Notes(results)),
      Notes(results))
  {
    ghost var known, start := Owners(results)[..count], Notes(results);
    var byId := CandidatesById(results, count);
    var seen: set<string> := {};
    front, places := [], [];
    for i := 0 to |ids|
      invariant forall id :: id in seen <==> id in ids[..i]
      invariant Progress(results, known, ids, i, front, places, start, Notes(results))
    {
      var id := ids[i];
      TakeNext(ids, i);
      if id !in byId || id in seen {
        return front, false, places;
      }
      var item := byId[id];
      ghost var j := ResultPlace(results, item);
      ghost var now := Notes(results);
      var rank := RecordRank(results, j, item, i + 1);
      ProgressStep(results, known, ids, i, front, places, start, now, j, item, rank, Notes(results));
      front, places := front + [Mixed(item, rank)], places + [j];
      seen := seen + {id};
    }
    valid := true;
  }

  /** The front is what the specification calls promoted. */
  lemma FrontValues(results: seq<Item>, ids: seq<string>, front: seq<Item>, places: seq<nat>)
    requires Separate(results) && FrontIs(results, ids, front, places) && |front| == |ids|
    ensures AllPresent(Values(results), ids)
    ensures Values(front) == PromotedAll(Values(results), ids)
    ensures forall r :: r in front ==> Comes(results, r)
  {
    forall k | 0 <= k < |ids|
      ensures PlaceOf(Values(results), ids[k]) < |results| && front[k].Value() == Promoted(Values(results), ids, k)
      ensures Comes(results, front[k])
    {
      PlaceOfItem(results, places[k]);
    }
  }

  lemma PlaceOfItem(results: seq<Item>, j: nat)
    requires Separate(results) && j < |results|
    ensures PlaceOf(Values(results), results[j].memory.id) == j
  {
    var v := Values(results);
    var p := PlaceOf(v, results[j].memory.id);
    assert v[j].memory.id == results[j].memory.id;
    assert p < |v| ==> v[p].memory.id == results[p].memory.id;
  }

  /** The item refers to the memory and the explanation object of one of the results. */
  ghost predicate Comes(results: seq<Item>, r: Item) {
    exists i :: 0 <= i < |results| && results[i].memory == r.memory && results[i].explanation == r.explanation
  }

  method Remaining(results: seq<Item>, ids: seq<string>) returns (rest: seq<Item>)
    ensures Values(rest) == Filter((r: Ranked) => r.memory.id !in ids, Values(results))
    ensures forall r :: r in rest ==> r in results
  {
    rest := [];
    for i := 0 to |results|
      invariant Values(rest) == Filter((r: Ranked) => r.memory.id !in ids, Values(results[..i]))
      invariant forall r :: r in rest ==> r in results
    {
      assert Values(results[..i + 1]) == Values(results[..i]) + [results[i].Value()];
      FilterSnoc((r: Ranked) => r.memory.id !in ids, Values(results[..i]), results[i].Value());
      if results[i].memory.id !in ids {
        assert Values(rest + [results[i]]) == Values(rest) + [results[i].Value()];
        rest := rest + [results[i]];
      }
    }
    assert results[..|results|] == results;
  }

  lemma OwnersAreIds(results: seq<Item>)
    ensures Owners(results) == Ids(Values(results))
  {
  }

  lemma ValuesConcat(s: seq<Item>, t: seq<Item>)
    ensures Values(s + t) == Values(s) + Values(t)
  {
  }

  method ApplyReply(results: seq<Item>, count: nat, ids: seq<string>) returns (ordered: seq<Item>, applied: bool)
    requires Separate(results) && count == CandidateCount(Values(results))
    modifies set i | 0 <= i < |results| :: results[i].explanation
    ensures applied <==> Acceptable(Values(results), ids)
    ensures applied ==> AllPresent(Values(results), ids) && Values(ordered) == Reordered(Values(results), ids)
    ensures !applied ==> ordered == results
    ensures forall r :: r in ordered ==> Comes(results, r)
    ensures Notes(results) == NotesAfter(Owners(results), old(Notes(results)), ids,
      ValidLength(Ids(Values(results))[..count], ids, 0))
  {
    OwnersAreIds(results);
    var front, valid, places := Promote(results, count, ids);
    AcceptableExactlyWhenAllValid(Values(results), ids);
    if !valid || ids == [] {
      return results, false;
    }
    var rest := Remaining(results, ids);
    FrontValues(results, ids, front, places);
    ValuesConcat(front, rest);
    return front + rest, true;
  }

  method MaybeRerank(mode: Mode, present: bool, query: string, results: seq<Item>, reply: Reply)
      returns (ordered: seq<Item>, applied: bool, reason: Reason)
    requires Separate(results)
    modifies set i | 0 <= i < |results| :: results[i].explanation
    ensures applied <==> Accepted(mode, present, query, Values(results), reply)
    ensures Values(ordered) == FinalOrder(mode, present, query, Values(results), reply)
    ensures !applied ==> ordered == results
    ensures forall r :: r in ordered ==> Comes(results, r)
    ensures reason == FinalReason(mode, present, query, Values(results), reply)
    ensures Notes(results) == NotesAfter(Owners(results), old(Notes(results)),
                                         if reply.Answered? then reply.ids else [],
                                         Traced(mode, present, query, Values(results), reply))
  {
    ordered, applied := results, false;
    if mode == Never || !present {
      reason := if mode == Never then RequestDisabled else Disabled;
      return;
    }
    var count := if |results| < CANDIDATE_LIMIT then |results| else CANDIDATE_LIMIT;
    if count < 3 {
      reason := InsufficientCandidates;
      return;
    }
    var margin := results[0].score - results[1].score;
    if mode == Auto && margin >= 0.08 && CanonicalSubjectMatch(query, results[0].memory) {
      reason := ConfidentHybridMatch;
      return;
    }
    if reply.Failed? {
      reason := ProviderError;
      return;
    }
    ordered, applied := ApplyReply(results, count, reply.ids);
    reason := if applied then AmbiguousHybridCandidates else InvalidProviderResult;
  }

  const HIT := Memory.Memory("a", Fact, "", 1, "", "", "", "", 0.5, 0.5, "active", None, None, 0)

  /** Three results, and a reply that names the first of them twice. */
  const THREE := [Ranked(HIT, 0.7), Ranked(HIT.(id := "b"), 0.6), Ranked(HIT.(id := "c"), 0.5)]
  const TWICE := Answered(["a", "a"])

  /** The reply is rejected and the order stays, but the first explanation has been written. */
  lemma RepeatedIdLeavesATrace()
    ensures var n := Traced(Always, true, "", THREE, TWICE);
      var after := NotesAfter(Ids(THREE), [map[], map[], map[]], TWICE.ids, n);
      && !Accepted(Always, true, "", THREE, TWICE) && FinalOrder(Always, true, "", THREE, TWICE) == THREE
      && after == [map["reranker" := 1.0], map[], map[]]
  {
    assert "a"[0] != "b"[0] && "a"[0] != "c"[0];
    assert Ids(THREE) == ["a", "b", "c"] && Ids(THREE)[..3] == ["a", "b", "c"];
    assert TWICE.ids[..0] == [] && TWICE.ids[..1] == ["a"];
    assert ValidLength(["a", "b", "c"], TWICE.ids, 1) == 1;
    assert Traced(Always, true, "", THREE, TWICE) == 1;
    assert ReciprocalRank(1) == 1.0;
    var notes: seq<Note> := [map[], map[], map[]];
    assert NotesAfter(Ids(THREE), notes, TWICE.ids, 0) == notes;
  }

  /** A rejected reply leaves a trace in the explanations exactly when its first id is one of the candidates. */
  lemma RejectedReplyLeavesATraceExactly(mode: Mode, present: bool, query: string, results: seq<Ranked>, reply: Reply,
                                         notes: seq<Note>)
    requires !Accepted(mode, present, query, results, reply) && |notes| == |results|
    requires DistinctIds(results) && forall i :: 0 <= i < |notes| ==> "reranker" !in notes[i]
    ensures var ids := if reply.Answered? then reply.ids else [];
      NotesAfter(Ids(results), notes, ids, Traced(mode, present, query, results, reply)) != notes
      <==> Gate(mode, present, query, results).None? && ids != [] && ids[0] in Ids(results)[..CandidateCount(results)]
  {
    var n := Traced(mode, present, query, results, reply);
    if n > 0 {
      var known := Ids(results)[..CandidateCount(results)];
      ValidLengthIsLongest(known, reply.ids, 0);
      assert Distinct(reply.ids[..n]) by {
        forall i, j | 0 <= i < j < n ensures reply.ids[i] != reply.ids[j] {
          assert reply.ids[j] !in reply.ids[..j];
        }
      }
      KnownIsPlaced(results, reply.ids[0]);
      NotesAfterExact(Ids(results), notes, reply.ids, n, PlaceOf(results, reply.ids[0]));
    }
  }

  // --- The whole response ------------------------------------------------------------------------

  function NonEpisodeSubjects(results: seq<Ranked>): set<string> {
    set r | r in results && !r.memory.kind.Episode? && SubjectOf(r.memory) != "" :: SubjectOf(r.memory)
  }

  /** Several subjects among the durable results, none of them named by the query. */
  predicate AmbiguousSubjects(query: string, results: seq<Ranked>) {
    |NonEpisodeSubjects(results)| > 1 && forall s :: s in NonEpisodeSubjects(results) ==> !Contains(Lower(query), s)
  }

  method AmbiguousCandidateSubjects(query: string, results: seq<Ranked>) returns (ambiguous: bool)
    ensures ambiguous <==> AmbiguousSubjects(query, results)
  {
    var subjects: set<string> := {};
    for i := 0 to |results|
      invariant subjects == NonEpisodeSubjects(results[..i])
      invariant forall s :: s in subjects ==> !Contains(Lower(query), s)
    {
      TakeNext(results, i);
      var m := results[i].memory;
      LowerTrim(m.subject);
      var subject := TrimSpace(Lower(m.subject));
      if !m.kind.Episode? && subject != "" {
        if Contains(Lower(query), subject) {
          assert results[i] in results && subject in NonEpisodeSubjects(results);
          return false;
        }
        subjects := subjects + {subject};
      }
      assert NonEpisodeSubjects(results[..i + 1]) == subjects by {
        SubjectsSnoc(results, i);
      }
    }
    assert results[..|results|] == results;
    return |subjects| > 1;
  }

  lemma SubjectsSnoc(results: seq<Ranked>, i: nat)
    requires i < |results|
    ensures NonEpisodeSubjects(results[..i + 1]) == NonEpisodeSubjects(results[..i])
      + if results[i].memory.kind.Episode? || SubjectOf(results[i].memory) == "" then {}
        else {SubjectOf(results[i].memory)}
  {
    TakeNext(results, i);
    var before, after := results[..i], results[..i + 1];
    assert forall r :: r in after <==> r in before || r == results[i];
  }

  /** When the query names exactly one subject, the filter has already removed every ambiguity of subjects. */
  lemma NamedSubjectSettlesAmbiguity(src: Sources, results: seq<Ranked>)
    requires IsRanking(src, results) && |NamedSubjects(src.query, Candidates(src))| == 1
    ensures !AmbiguousSubjects(src.query, results)
  {
    var subjects := NonEpisodeSubjects(results);
    if subjects != {} {
      var s :| s in subjects;
      var r :| r in results && !r.memory.kind.Episode? && SubjectOf(r.memory) != "" && SubjectOf(r.memory) == s;
      assert Admitted(src, r.memory) && s in NamedSubjects(src.query, Candidates(src));
      assert Contains(Lower(src.query), s);
    }
  }

  predicate Ambiguous(src: Sources, results: seq<Ranked>) {
    src.requested == [] && (|Entities(src, src.requested)| > 1 || AmbiguousSubjects(src.query, results))
  }

  function Take(results: seq<Ranked>, limit: nat): seq<Ranked> {
    if |results| > limit then results[..limit] else results
  }

  /** What the caller receives for a ranking. */
  ghost function ResponseOf(src: Sources, mode: Mode, present: bool, reply: Reply, limit: nat,
                            ranking: seq<Ranked>): seq<Ranked> {
    Take(if Ambiguous(src, ranking) then ranking else FinalOrder(mode, present, src.query, ranking, reply), limit)
  }

  /** With clock and provider reply fixed, the response is the same for every iteration order. */
  lemma ResponseIsDetermined(src: Sources, mode: Mode, present: bool, reply: Reply, limit: nat,
                                                first: seq<Ranked>, second: seq<Ranked>)
    requires IsRanking(src, first) && IsRanking(src, second)
    ensures ResponseOf(src, mode, present, reply, limit, first) == ResponseOf(src, mode, present, reply, limit, second)
  {
    RankingIsDetermined(src, first, second);
  }

  lemma {:induction false} OtherKeysKept(owners: seq<string>, notes: seq<Note>, ids: seq<string>, n: nat, i: nat)
    requires |owners| == |notes| && n <= |ids| && i < |notes|
    ensures NotesAfter(owners, notes, ids, n)[i] - {"reranker"} == notes[i] - {"reranker"}
  {
    if n > 0 { OtherKeysKept(owners, notes, ids, n - 1, i); }
  }

  ghost predicate Explained(src: Sources, r: Item)
    reads r.explanation
  {
    r.explanation.entries - {"reranker"} == Entries(Components(src, r.memory))
  }

  method Explain(src: Sources, ranking: seq<Ranked>) returns (items: seq<Item>)
    requires IsRanking(src, ranking)
    ensures Values(items) == ranking && Separate(items)
    ensures fresh(set i | 0 <= i < |items| :: items[i].explanation)
    ensures forall i :: 0 <= i < |items| ==> items[i].explanation.entries == Entries(Components(src, items[i].memory))
  {
    items := Attach(src, ranking);
    RankingIsSeparate(src, ranking, items);
  }

  /** Every result gets an explanation object of its own. */
  method Attach(src: Sources, ranking: seq<Ranked>) returns (items: seq<Item>)
    ensures |items| == |ranking| && forall i :: 0 <= i < |items| ==> items[i].Value() == ranking[i]
    ensures forall i, j :: 0 <= i < j < |items| ==> items[i].explanation != items[j].explanation
    ensures fresh(set i | 0 <= i < |items| :: items[i].explanation)
    ensures forall i :: 0 <= i < |items| ==> items[i].explanation.entries == Entries(Components(src, items[i].memory))
  {
    items := [];
    for n := 0 to |ranking|
      invariant |items| == n && forall i :: 0 <= i < n ==> items[i].Value() == ranking[i]
      invariant forall i, j :: 0 <= i < j < n ==> items[i].explanation != items[j].explanation
      invariant forall i :: 0 <= i < n ==> fresh(items[i].explanation)
      invariant forall i :: 0 <= i < n ==> items[i].explanation.entries == Entries(Components(src, items[i].memory))
    {
      var explanation := new Explanation(Components(src, ranking[n].memory));
      items := items + [Item(ranking[n].memory, ranking[n].score, explanation)];
    }
  }

  lemma AllExplained(src: Sources, items: seq<Item>)
    requires forall i :: 0 <= i < |items| ==> items[i].explanation.entries == Entries(Components(src, items[i].memory))
    ensures forall r :: r in items ==> Explained(src, r)
  {
    forall r | r in items ensures Explained(src, r) {
      var i :| 0 <= i < |items| && items[i] == r;
      assert Entries(Components(src, r.memory)) - {"reranker"} == Entries(Components(src, r.memory));
    }
  }

  lemma RankingIsSeparate(src: Sources, ranking: seq<Ranked>, items: seq<Item>)
    requires IsRanking(src, ranking)
    requires |items| == |ranking| && forall i :: 0 <= i < |items| ==> items[i].Value() == ranking[i]
    requires forall i, j :: 0 <= i < j < |items| ==> items[i].explanation != items[j].explanation
    ensures Separate(items) && Values(items) == ranking
  {
    RankingHasDistinctIds(src, ranking);
    forall i, j | 0 <= i < j < |items| ensures items[i].memory.id != items[j].memory.id {
      assert items[i].Value() == ranking[i] && items[j].Value() == ranking[j];
    }
  }

  lemma StillExplained(src: Sources, items: seq<Item>, start: seq<Note>, ids: seq<string>, n: nat)
    requires |start| == |items| && n <= |ids|
    requires forall i :: 0 <= i < |items| ==> start[i] == Entries(Components(src, items[i].memory))
    ensures forall i :: 0 <= i < |items| ==>
      NotesAfter(Owners(items), start, ids, n)[i] - {"reranker"} == Entries(Components(src, items[i].memory))
  {
    forall i | 0 <= i < |items|
      ensures NotesAfter(Owners(items), start, ids, n)[i] - {"reranker"} == Entries(Components(src, items[i].memory))
    {
      OtherKeysKept(Owners(items), start, ids, n, i);
    }
  }

  /** The provider can change order and scores, never what an explanation says about the retrieval. */
  method RerankExplained(src: Sources, mode: Mode, present: bool, reply: Reply, items: seq<Item>)
    returns (response: seq<Item>, reason: Reason)
    requires Separate(items)
    requires forall i :: 0 <= i < |items| ==> items[i].explanation.entries == Entries(Components(src, items[i].memory))
    modifies set i | 0 <= i < |items| :: items[i].explanation
    ensures Values(response) == FinalOrder(mode, present, src.query, Values(items), reply)
    ensures reason == FinalReason(mode, present, src.query, Values(items), reply)
    ensures forall r :: r in response ==> Explained(src, r)
  {
    ghost var start := Notes(items);
    var applied;
    response, applied, reason := MaybeRerank(mode, present, src.query, items, reply);
    StillExplained(src, items, start, if reply.Answered? then reply.ids else [],
                   Traced(mode, present, src.query, Values(items), reply));
    forall r | r in response ensures Explained(src, r) {
      assert Comes(items, r);
      var i :| 0 <= i < |items| && items[i].memory == r.memory && items[i].explanation == r.explanation;
      assert Notes(items)[i] == r.explanation.entries;
    }
  }

  method Truncate(items: seq<Item>, limit: nat) returns (response: seq<Item>)
    ensures Values(response) == Take(Values(items), limit)
    ensures forall r :: r in response ==> r in items
  {
    response := if |items| > limit then items[..limit] else items;
  }

  method RetrieveAndRerank(src: Sources, mode: Mode, present: bool, reply: Reply, limit: nat)
      returns (response: seq<Item>, reason: Reason, ghost ranking: seq<Ranked>)
    requires src.Valid()
    ensures IsRanking(src, ranking) && Values(response) == ResponseOf(src, mode, present, reply, limit, ranking)
    ensures reason == if Ambiguous(src, ranking) then AmbiguousSubject
      else FinalReason(mode, present, src.query, ranking, reply)
    ensures forall r :: r in response ==> Explained(src, r)
  {
    var ranked := RetrieveMemories(src);
    ranking := ranked;
    var items := Explain(src, ranked);
    var manySubjects := AmbiguousCandidateSubjects(src.query, ranked);
    if src.requested == [] && (|Entities(src, src.requested)| > 1 || manySubjects) {
      AllExplained(src, items);
      response, reason := items, AmbiguousSubject;
    } else {
      response, reason := RerankExplained(src, mode, present, reply, items);
    }
    response := Truncate(response, limit);
  }
}
