/** The whole context request: the memories that retrieval ranks, and a provider may reorder, go into the assembly. */
module ContextService {
  import opened Sequences
  import opened ContextAssembly
  import opened ContextLaws
  import Retrieval
  import Rerank

  const CONTEXT_LIMIT: nat := 100

  /** The ranked memories that the assembly receives for a ranking and a provider's reply. */
  ghost function Received(src: Retrieval.Sources, present: bool, reply: Rerank.Reply,
                          ranking: seq<Retrieval.Ranked>): seq<Memory> {
    Rerank.MemoriesOf(Rerank.ResponseOf(src, Rerank.Auto, present, reply, CONTEXT_LIMIT, ranking))
  }

  /** The assembled context. */
  ghost function ContextOf(
    src: Retrieval.Sources, present: bool, reply: Rerank.Reply, ranking: seq<Retrieval.Ranked>,
    r: Request, arts: seq<Artifact>
  ): Draft {
    Assemble(r, arts, Received(src, present, reply, ranking))
  }

  method Serve(src: Retrieval.Sources, present: bool, reply: Rerank.Reply, r: Request, arts: seq<Artifact>)
    returns (resp: Response)
    requires src.Valid()
    ensures exists ranking | Retrieval.IsRanking(src, ranking) ::
      resp == Answer(ContextOf(src, present, reply, ranking, r, arts))
  {
    var items, reason, ranking := Rerank.RetrieveAndRerank(src, Rerank.Auto, present, reply, CONTEXT_LIMIT);
    var ranked := Transform((i: Rerank.Item) => i.memory, items);
    assert ranked == Rerank.MemoriesOf(Rerank.Values(items));
    resp := Context(r, arts, ranked);
  }

  /** With clock and provider reply fixed, a context is the same for every iteration order of the maps behind it. */
  lemma ContextIsDetermined(
    src: Retrieval.Sources, present: bool, reply: Rerank.Reply,
    first: seq<Retrieval.Ranked>, second: seq<Retrieval.Ranked>, r: Request, arts: seq<Artifact>
  )
    requires Retrieval.IsRanking(src, first) && Retrieval.IsRanking(src, second)
    ensures ContextOf(src, present, reply, first, r, arts) == ContextOf(src, present, reply, second, r, arts)
  {
    Rerank.ResponseIsDetermined(src, Rerank.Auto, present, reply, CONTEXT_LIMIT, first, second);
  }

  lemma TakeMemories(results: seq<Retrieval.Ranked>, limit: nat, count: nat)
    requires count <= limit && count <= |results|
    ensures Rerank.MemoriesOf(Rerank.Take(results, limit))
         == Rerank.MemoriesOf(results[..count]) + Rerank.MemoriesOf(Rerank.Take(results, limit)[count..])
  {
  }

  /**
   Whatever the provider replies, a response whose limit spares the first twelve holds the same memories, each
   as often, as without a reply.
   */
  lemma ReplyKeepsMembers(src: Retrieval.Sources, mode: Rerank.Mode, present: bool, reply: Rerank.Reply, limit: nat,
                          ranking: seq<Retrieval.Ranked>)
    requires Retrieval.IsRanking(src, ranking) && (!present || Rerank.CANDIDATE_LIMIT <= limit)
    ensures multiset(Rerank.MemoriesOf(Rerank.ResponseOf(src, mode, present, reply, limit, ranking)))
         == multiset(Rerank.MemoriesOf(Rerank.Take(ranking, limit)))
  {
    if !Rerank.Ambiguous(src, ranking) && Rerank.Accepted(mode, present, src.query, ranking, reply) {
      Retrieval.RankingHasDistinctIds(src, ranking);
      Rerank.AcceptableIsPresent(ranking, reply.ids);
      TakenPermutes(ranking, reply.ids, limit);
    }
  }

  /** So the assembly receives the same memories, each as often, as without a reply. */
  lemma ReplyOnlyReorders(src: Retrieval.Sources, present: bool, reply: Rerank.Reply, ranking: seq<Retrieval.Ranked>)
    requires Retrieval.IsRanking(src, ranking)
    ensures multiset(Received(src, present, reply, ranking))
         == multiset(Rerank.MemoriesOf(if |ranking| < 100 then ranking else ranking[..100]))
  {
    ReplyKeepsMembers(src, Rerank.Auto, present, reply, CONTEXT_LIMIT, ranking);
    assert |ranking| == 100 ==> ranking[..100] == ranking;
  }

  lemma TakenPermutes(ranking: seq<Retrieval.Ranked>, ids: seq<string>, limit: nat)
    requires Rerank.DistinctIds(ranking) && Rerank.Acceptable(ranking, ids) && Rerank.AllPresent(ranking, ids)
    requires Rerank.CANDIDATE_LIMIT <= limit
    ensures multiset(Rerank.MemoriesOf(Rerank.Take(Rerank.Reordered(ranking, ids), limit)))
         == multiset(Rerank.MemoriesOf(Rerank.Take(ranking, limit)))
  {
    var count, ordered := Rerank.CandidateCount(ranking), Rerank.Reordered(ranking, ids);
    Rerank.OnlyTheFrontMoves(ranking, ids);
    TakeMemories(ranking, limit, count);
    TakeMemories(ordered, limit, count);
    assert Rerank.Take(ordered, limit)[count..] == Rerank.Take(ranking, limit)[count..] by {
      SameTail(ordered, ranking, limit, count);
    }
  }

  lemma SameTail(s: seq<Retrieval.Ranked>, t: seq<Retrieval.Ranked>, limit: nat, count: nat)
    requires |s| == |t| && count <= |s| && count <= limit && s[count..] == t[count..]
    ensures Rerank.Take(s, limit)[count..] == Rerank.Take(t, limit)[count..]
  {
    forall i | count <= i < |s| ensures s[i] == t[i] {
      assert s[count..][i - count] == t[count..][i - count];
    }
  }

  /**
   For the four legal types the provider can change where a memory ends up in the context, never that it
   is accounted for: with any two replies each memory is admitted or omitted equally often.
   */
  lemma ReplyKeepsTheAccount(
    src: Retrieval.Sources, present: bool, reply: Rerank.Reply, reply': Rerank.Reply, ranking: seq<Retrieval.Ranked>,
    r: Request, arts: seq<Artifact>, x: Artifact, y: Memory
  )
    requires Retrieval.IsRanking(src, ranking) && forall i :: 0 <= i < |ranking| ==> !ranking[i].memory.kind.Other?
    ensures var d, d' := ContextOf(src, present, reply, ranking, r, arts),
      ContextOf(src, present, reply', ranking, r, arts);
      MemoryTimes(d, y) == MemoryTimes(d', y) && ArtifactTimes(d, x) == ArtifactTimes(d', x)
  {
    LegalReceived(src, present, reply, ranking);
    LegalReceived(src, present, reply', ranking);
    LegalTypesAreExact(r, arts, Received(src, present, reply, ranking), x, y);
    LegalTypesAreExact(r, arts, Received(src, present, reply', ranking), x, y);
  }

  lemma LegalReceived(src: Retrieval.Sources, present: bool, reply: Rerank.Reply, ranking: seq<Retrieval.Ranked>)
    requires Retrieval.IsRanking(src, ranking) && forall i :: 0 <= i < |ranking| ==> !ranking[i].memory.kind.Other?
    ensures var received := Received(src, present, reply, ranking);
      && (forall i :: 0 <= i < |received| ==> !received[i].kind.Other?)
      && multiset(received) == multiset(Rerank.MemoriesOf(Rerank.Take(ranking, CONTEXT_LIMIT)))
  {
    ReplyKeepsMembers(src, Rerank.Auto, present, reply, CONTEXT_LIMIT, ranking);
    var received, plain := Received(src, present, reply, ranking),
      Rerank.MemoriesOf(Rerank.Take(ranking, CONTEXT_LIMIT));
    forall i | 0 <= i < |received| ensures !received[i].kind.Other? {
      assert received[i] in multiset(plain);
      var j :| 0 <= j < |plain| && plain[j] == received[i];
      assert plain[j] == ranking[j].memory;
    }
  }
}
