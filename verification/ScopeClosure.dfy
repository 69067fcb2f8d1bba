/**
 Scopes of one workspace and the walk that expands a request to all ancestors. A scope can be
 referred to by its id or by its canonical key; parents are stored as the reference that was given.
 */
module ScopeClosure {
  import opened EventStore
  import opened Sequences

  datatype ScopeRow = ScopeRow(id: string, key: string, parent: string)

  /** The scopes of a workspace in creation order. */
  type Scopes = seq<ScopeRow>

  predicate Matches(v: ScopeRow, reference: string) {
    v.id == reference || v.key == reference
  }

  /** The scope that a reference selects: a row whose id or key equals it. */
  function Resolve(table: Scopes, reference: string): (r: Option<nat>)
    ensures r.Some? ==> r.value < |table| && Matches(table[r.value], reference)
    ensures r.None? ==> forall i :: 0 <= i < |table| ==> !Matches(table[i], reference)
  {
    if table == [] then None
    else
      var n := |table| - 1;
      var before := Resolve(table[..n], reference);
      if before.Some? then before else if Matches(table[n], reference) then Some(n) else None
  }

  /** Creation: the parent must exist, id and canonical key must be new. */
  function CreateScope(table: Scopes, v: ScopeRow): Option<Scopes> {
    if v.id == "" || v.key == "" then None
    else if v.parent != "" && Resolve(table, v.parent).None? then None
    else if exists i :: 0 <= i < |table| && (table[i].id == v.id || table[i].key == v.key) then None
    else Some(table + [v])
  }

  ghost predicate Created(table: Scopes) {
    table == []
    || (Created(table[..|table| - 1]) && CreateScope(table[..|table| - 1], table[|table| - 1]) == Some(table))
  }

  /** No scope's id is another scope's canonical key. */
  ghost predicate Disjoint(table: Scopes) {
    forall i, j :: 0 <= i < |table| && 0 <= j < |table| && i != j ==> table[i].id != table[j].key
  }

  /** Row i is what its id and its key select, and its parent exists. */
  ghost predicate Settled(table: Scopes, i: nat)
    requires i < |table|
  {
    var v := table[i];
    && v.id != "" && v.key != ""
    && Resolve(table, v.id) == Some(i) && Resolve(table, v.key) == Some(i)
    && (v.parent != "" ==> Resolve(table, v.parent).Some?)
  }

  /** How many parents lie above row i; a chain of parents is followed for `fuel` steps at most. */
  function Height(table: Scopes, i: nat, fuel: nat): nat
    requires i < |table|
    decreases fuel
  {
    if fuel == 0 || table[i].parent == "" || Resolve(table, table[i].parent).None? then 0
    else 1 + Height(table, Resolve(table, table[i].parent).value, fuel - 1)
  }

  function Level(table: Scopes, i: nat): nat
    requires i < |table|
  {
    Height(table, i, |table|)
  }

  ghost predicate Sound(table: Scopes, i: nat)
    requires i < |table|
  {
    && Settled(table, i)
    && (table[i].parent != "" ==> Level(table, Resolve(table, table[i].parent).value) < Level(table, i))
  }

  /** References are unambiguous, parents exist, and no chain of parents is closed. */
  ghost predicate WellFounded(table: Scopes) {
    forall i :: 0 <= i < |table| ==> Sound(table, i)
  }

  // --- Any rank will do --------------------------------------------------------------------------

  /** References are unambiguous, and every parent has a smaller rank than its child. */
  ghost predicate Ranked(table: Scopes, rank: nat -> nat) {
    forall i :: 0 <= i < |table| ==> RankedRow(table, rank, i)
  }

  ghost predicate RankedRow(table: Scopes, rank: nat -> nat, i: nat)
    requires i < |table|
  {
    && Settled(table, i)
    && (table[i].parent != "" ==> rank(Resolve(table, table[i].parent).value) < rank(i))
  }

  function Below(table: Scopes, rank: nat -> nat, i: nat): set<nat> {
    set j: nat | j < |table| && rank(j) < rank(i)
  }

  lemma SubsetIsSmaller<T>(s: set<T>, t: set<T>, x: T)
    requires s <= t && x in t && x !in s
    ensures |s| < |t|
  {
    assert |t| == |s| + |t - s| && x in t - s;
  }

  lemma ParentIsBelow(table: Scopes, rank: nat -> nat, i: nat)
    requires Ranked(table, rank) && i < |table|
    ensures |Below(table, rank, i)| < |table|
    ensures table[i].parent != "" ==>
      Resolve(table, table[i].parent).Some?
      && |Below(table, rank, Resolve(table, table[i].parent).value)| < |Below(table, rank, i)|
  {
    assert RankedRow(table, rank, i);
    BoundedSet(Below(table, rank, i) + {i}, |table|);
    SubsetIsSmaller(Below(table, rank, i), Below(table, rank, i) + {i}, i);
    if table[i].parent != "" {
      var p := Resolve(table, table[i].parent).value;
      SubsetIsSmaller(Below(table, rank, p), Below(table, rank, i), p);
    }
  }

  /** Enough fuel follows the chain to its end. */
  lemma {:induction false} HeightIsStable(table: Scopes, rank: nat -> nat, i: nat, fuel: nat)
    requires Ranked(table, rank) && i < |table| && |Below(table, rank, i)| < fuel
    ensures Height(table, i, fuel) == Height(table, i, fuel + 1)
    decreases fuel
  {
    ParentIsBelow(table, rank, i);
    if table[i].parent != "" {
      HeightIsStable(table, rank, Resolve(table, table[i].parent).value, fuel - 1);
    }
  }

  /** A table is well-founded exactly when some rank puts parents before children, in whatever order they came. */
  lemma WellFoundedExactlyWhenRanked(table: Scopes)
    ensures WellFounded(table) <==> exists rank: nat -> nat :: Ranked(table, rank)
  {
    if WellFounded(table) {
      var level := (i: nat) => if i < |table| then Level(table, i) else 0;
      forall i | 0 <= i < |table| ensures RankedRow(table, level, i) {
        assert Sound(table, i);
      }
      assert Ranked(table, level);
    }
    if rank: nat -> nat :| Ranked(table, rank) {
      RankedIsWellFounded(table, rank);
    }
  }

  lemma RankedIsWellFounded(table: Scopes, rank: nat -> nat)
    requires Ranked(table, rank)
    ensures WellFounded(table)
  {
    forall i | 0 <= i < |table| ensures Sound(table, i) {
      RankedIsSound(table, rank, i);
    }
  }

  lemma RankedIsSound(table: Scopes, rank: nat -> nat, i: nat)
    requires Ranked(table, rank) && i < |table|
    ensures Sound(table, i)
  {
    assert RankedRow(table, rank, i);
    ParentIsBelow(table, rank, i);
    if table[i].parent != "" {
      HeightIsStable(table, rank, Resolve(table, table[i].parent).value, |table| - 1);
    }
  }

  // --- Created scopes ----------------------------------------------------------------------------

  lemma {:induction false} CreatedRows(table: Scopes)
    requires Created(table)
    ensures forall i :: 0 <= i < |table| ==> table[i].id != "" && table[i].key != ""
    ensures forall i, j :: 0 <= i < j < |table| ==> table[i].id != table[j].id && table[i].key != table[j].key
  {
    if table != [] {
      var n := |table| - 1;
      CreatedRows(table[..n]);
      assert forall i :: 0 <= i < n ==> table[..n][i] == table[i];
    }
  }

  lemma {:induction false} ParentIsOlder(table: Scopes, i: nat) returns (j: nat)
    requires Created(table) && i < |table| && table[i].parent != ""
    ensures j < i && Matches(table[j], table[i].parent)
  {
    var n := |table| - 1;
    if i < n {
      j := ParentIsOlder(table[..n], i);
    } else {
      j := Resolve(table[..n], table[n].parent).value;
    }
  }

  lemma CreatedSelects(table: Scopes, i: nat)
    requires Created(table) && Disjoint(table) && i < |table|
    ensures table[i].id != "" && table[i].key != ""
    ensures Resolve(table, table[i].id) == Some(i) && Resolve(table, table[i].key) == Some(i)
  {
    CreatedRows(table);
    ResolveUnique(table, i, table[i].id);
    ResolveUnique(table, i, table[i].key);
  }

  function CreationRank(i: nat): nat {
    i
  }

  lemma CreatedRow(table: Scopes, i: nat)
    requires Created(table) && Disjoint(table) && i < |table|
    ensures RankedRow(table, CreationRank, i)
  {
    CreatedSelects(table, i);
    if table[i].parent != "" {
      var j := ParentIsOlder(table, i);
      FirstMatch(table, j, table[i].parent);
    }
  }

  lemma CreatedIsRanked(table: Scopes)
    requires Created(table) && Disjoint(table)
    ensures Ranked(table, CreationRank)
  {
    forall i | 0 <= i < |table| ensures RankedRow(table, CreationRank, i) {
      CreatedRow(table, i);
    }
  }

  /** Every scope graph built by creations with disjoint ids and keys is well-founded: creation rank is the measure. */
  lemma CreatedIsWellFounded(table: Scopes)
    requires Created(table) && Disjoint(table)
    ensures WellFounded(table)
  {
    CreatedIsRanked(table);
    RankedIsWellFounded(table, CreationRank);
  }

  lemma {:induction false} FirstMatch(table: Scopes, j: nat, reference: string)
    requires j < |table| && Matches(table[j], reference)
    ensures Resolve(table, reference).Some? && Resolve(table, reference).value <= j
  {
    var n := |table| - 1;
    if j < n { FirstMatch(table[..n], j, reference); }
  }

  lemma ResolveUnique(table: Scopes, i: nat, reference: string)
    requires i < |table| && Matches(table[i], reference)
    requires forall j :: 0 <= j < |table| && j != i ==> !Matches(table[j], reference)
    ensures Resolve(table, reference) == Some(i)
  {
    FirstMatch(table, i, reference);
  }

  /** Among created scopes, references are unambiguous exactly when no id is another scope's key. */
  lemma WellFoundedExactlyWhenDisjoint(table: Scopes)
    requires Created(table)
    ensures WellFounded(table) <==> Disjoint(table)
  {
    if Disjoint(table) {
      CreatedIsWellFounded(table);
    } else {
      var i, j :| 0 <= i < |table| && 0 <= j < |table| && i != j && table[i].id == table[j].key;
      assert !(Sound(table, i) && Sound(table, j));
    }
  }

  // --- The walk --------------------------------------------------------------------------------

  /** `seen` holds ids; `out` is the list so far. */
  datatype Walk = Walk(seen: set<string>, out: seq<string>)

  function Rank(table: Scopes, reference: string): nat {
    var r := Resolve(table, reference);
    if r.None? then 0 else Level(table, r.value) + 1
  }

  /** The recursive visit: `seen` is asked about the reference, but told the id. None is the not-found error. */
  function Visit(table: Scopes, w: Walk, reference: string): Option<Walk>
    requires WellFounded(table)
    decreases Rank(table, reference)
  {
    if reference == "" || reference in w.seen then Some(w)
    else
      var r := Resolve(table, reference);
      if r.None? then None
      else
        var v := table[r.value];
        assert Sound(table, r.value);
        var before := if v.parent == "" then Some(w) else Visit(table, w, v.parent);
        if before.None? then None
        else Some(Walk(before.value.seen + {v.id}, before.value.out + [v.id]))
  }

  function VisitAll(table: Scopes, ids: seq<string>): Option<Walk>
    requires WellFounded(table)
  {
    if ids == [] then Some(Walk({}, []))
    else
      var before := VisitAll(table, ids[..|ids| - 1]);
      if before.None? then None else Visit(table, before.value, ids[|ids| - 1])
  }

  function ScopeAncestors(table: Scopes, ids: seq<string>): Option<seq<string>>
    requires WellFounded(table)
  {
    var w := VisitAll(table, ids);
    if w.None? then None else Some(w.value.out)
  }

  /** The closure's captured variables. */
  class AncestorWalk {
    var seen: set<string>
    var out: seq<string>

    ghost function State(): Walk
      reads this
    {
      Walk(seen, out)
    }

    constructor ()
      ensures State() == Walk({}, [])
    {
      seen, out := {}, [];
    }

    method Expand(table: Scopes, reference: string) returns (ok: bool)
      requires WellFounded(table)
      modifies this
      ensures ok <==> Visit(table, old(State()), reference).Some?
      ensures ok ==> State() == Visit(table, old(State()), reference).value
      decreases Rank(table, reference)
    {
      if reference == "" || reference in seen {
        return true;
      }
      var r := Resolve(table, reference);
      if r.None? {
        return false;
      }
      var v := table[r.value];
      assert Sound(table, r.value);
      if v.parent != "" {
        ok := this.Expand(table, v.parent);
        if !ok {
          return false;
        }
      }
      seen := seen + {v.id};
      out := out + [v.id];
      return true;
    }
  }

  method Ancestors(table: Scopes, ids: seq<string>) returns (expanded: Option<seq<string>>)
    requires WellFounded(table)
    ensures expanded == ScopeAncestors(table, ids)
  {
    var walk := new AncestorWalk();
    for i := 0 to |ids|
      invariant VisitAll(table, ids[..i]) == Some(walk.State())
    {
      assert ids[..i + 1][..i] == ids[..i];
      var ok := walk.Expand(table, ids[i]);
      if !ok {
        OneFailureFails(table, ids, i + 1);
        return None;
      }
    }
    assert ids[..|ids|] == ids;
    return Some(walk.out);
  }

  lemma {:induction false} OneFailureFails(table: Scopes, ids: seq<string>, n: nat)
    requires WellFounded(table) && n <= |ids| && VisitAll(table, ids[..n]).None?
    ensures VisitAll(table, ids).None?
  {
    if n == |ids| {
      assert ids[..n] == ids;
    } else {
      assert ids[..|ids| - 1][..n] == ids[..n];
      OneFailureFails(table, ids[..|ids| - 1], n);
    }
  }

  // --- The ancestor closure --------------------------------------------------------------------

  /** The row that scope b's parent reference selects. */
  function ParentOf(table: Scopes, b: nat): (p: nat)
    requires WellFounded(table) && b < |table| && table[b].parent != ""
    ensures p < |table| && Level(table, p) < Level(table, b) && Resolve(table, table[b].parent) == Some(p)
  {
    assert Sound(table, b);
    Resolve(table, table[b].parent).value
  }

  /** Scope a is scope b or one of its ancestors. */
  predicate AncestorOrSelf(table: Scopes, a: nat, b: nat)
    requires WellFounded(table) && b < |table|
    decreases Level(table, b)
  {
    a == b || (table[b].parent != "" && AncestorOrSelf(table, a, ParentOf(table, b)))
  }

  /** id belongs to an ancestor of scope b, or to b. */
  ghost predicate InClosure(table: Scopes, id: string, b: nat)
    requires WellFounded(table) && b < |table|
  {
    exists a :: 0 <= a < |table| && AncestorOrSelf(table, a, b) && table[a].id == id
  }

  lemma ClosureOfParent(table: Scopes, id: string, b: nat)
    requires WellFounded(table) && b < |table|
    ensures InClosure(table, id, b) <==>
      id == table[b].id || (table[b].parent != "" && InClosure(table, id, ParentOf(table, b)))
  {
    if id == table[b].id { assert AncestorOrSelf(table, b, b); }
    if table[b].parent != "" {
      var p := ParentOf(table, b);
      if InClosure(table, id, p) {
        var a :| 0 <= a < |table| && AncestorOrSelf(table, a, p) && table[a].id == id;
        assert AncestorOrSelf(table, a, b);
      }
      if InClosure(table, id, b) && id != table[b].id {
        var a :| 0 <= a < |table| && AncestorOrSelf(table, a, b) && table[a].id == id;
        assert AncestorOrSelf(table, a, p);
      }
    }
  }

  /** seen is what was listed, only known scopes are listed, and each is listed after its parent. */
  ghost predicate ParentsFirst(table: Scopes, w: Walk)
    requires WellFounded(table)
  {
    && (forall id :: id in w.seen <==> id in w.out)
    && (forall n :: 0 <= n < |w.out| ==> Listed(table, w.out, n))
  }

  ghost predicate Listed(table: Scopes, out: seq<string>, n: nat)
    requires WellFounded(table) && n < |out|
  {
    var r := Resolve(table, out[n]);
    && r.Some? && table[r.value].id == out[n]
    && (table[r.value].parent != "" ==> table[ParentOf(table, r.value)].id in out[..n])
  }

  lemma ResolveId(table: Scopes, i: nat)
    requires WellFounded(table) && i < |table|
    ensures Resolve(table, table[i].id) == Some(i) && Resolve(table, table[i].key) == Some(i)
    ensures table[i].id != ""
  {
    assert Sound(table, i);
  }

  lemma {:induction false} ClosedUnderAncestors(table: Scopes, w: Walk, n: nat, id: string)
    requires WellFounded(table) && ParentsFirst(table, w) && n < |w.out|
    requires Resolve(table, w.out[n]).Some? && InClosure(table, id, Resolve(table, w.out[n]).value)
    ensures id in w.out[..n + 1]
    decreases n
  {
    var b := Resolve(table, w.out[n]).value;
    ClosureOfParent(table, id, b);
    assert Listed(table, w.out, n);
    if id != table[b].id {
      var p := ParentOf(table, b);
      var m :| 0 <= m < n && w.out[m] == table[p].id;
      ResolveId(table, p);
      ClosedUnderAncestors(table, w, m, id);
    }
  }

  /** One visit adds exactly the target's closure, after its own ancestors, and keeps what was listed. */
  lemma {:induction false} VisitAddsClosure(table: Scopes, w: Walk, reference: string)
    requires WellFounded(table) && ParentsFirst(table, w) && Resolve(table, reference).Some?
    ensures var t := Resolve(table, reference).value; var r := Visit(table, w, reference);
      && r.Some? && ParentsFirst(table, r.value) && w.out <= r.value.out
      && (forall id :: id in r.value.seen <==> id in w.seen || InClosure(table, id, t))
    decreases Rank(table, reference)
  {
    var t := Resolve(table, reference).value;
    var v := table[t];
    assert Sound(table, t) && reference != "";
    if reference in w.seen {
      var n :| 0 <= n < |w.out| && w.out[n] == reference;
      forall id | InClosure(table, id, t) ensures id in w.seen {
        ClosedUnderAncestors(table, w, n, id);
      }
    } else {
      var before := w;
      if v.parent != "" {
        VisitAddsClosure(table, w, v.parent);
        before := Visit(table, w, v.parent).value;
        var p := ParentOf(table, t);
        assert AncestorOrSelf(table, p, p) && InClosure(table, table[p].id, p);
      }
      var after := Walk(before.seen + {v.id}, before.out + [v.id]);
      forall id ensures id in after.seen <==> id in w.seen || InClosure(table, id, t) {
        ClosureOfParent(table, id, t);
      }
      ResolveId(table, t);
      forall n | 0 <= n < |after.out| ensures Listed(table, after.out, n) {
        if n < |before.out| {
          assert Listed(table, before.out, n);
          assert after.out[..n] == before.out[..n];
        } else {
          assert after.out[..n] == before.out;
        }
      }
    }
  }

  ghost predicate Known(table: Scopes, ids: seq<string>) {
    forall i :: 0 <= i < |ids| ==> Resolve(table, ids[i]).Some?
  }

  ghost predicate Requested(table: Scopes, ids: seq<string>, id: string)
    requires WellFounded(table) && Known(table, ids)
  {
    exists j :: 0 <= j < |ids| && InClosure(table, id, Resolve(table, ids[j]).value)
  }

  lemma RequestedSnoc(table: Scopes, ids: seq<string>, id: string)
    requires WellFounded(table) && Known(table, ids) && ids != []
    ensures Requested(table, ids, id) <==>
      Requested(table, ids[..|ids| - 1], id) || InClosure(table, id, Resolve(table, ids[|ids| - 1]).value)
  {
    var n := |ids| - 1;
    if Requested(table, ids[..n], id) {
      RequestedBefore(table, ids, id);
    }
    if j :| 0 <= j < |ids| && InClosure(table, id, Resolve(table, ids[j]).value) {
      assert j < n ==> ids[..n][j] == ids[j];
    }
  }

  lemma RequestedBefore(table: Scopes, ids: seq<string>, id: string)
    requires WellFounded(table) && Known(table, ids) && ids != [] && Requested(table, ids[..|ids| - 1], id)
    ensures Requested(table, ids, id)
  {
    var n := |ids| - 1;
    var j :| 0 <= j < n && InClosure(table, id, Resolve(table, ids[..n][j]).value);
    assert ids[j] == ids[..n][j];
  }

  /** For references of either style the walk lists exactly the ancestors of the request, each after its parent. */
  lemma {:induction false} WalkListsTheClosure(table: Scopes, ids: seq<string>)
    requires WellFounded(table) && Known(table, ids)
    ensures var w := VisitAll(table, ids);
      && w.Some? && ParentsFirst(table, w.value)
      && (forall id :: id in w.value.out <==> Requested(table, ids, id))
  {
    if ids != [] {
      var n := |ids| - 1;
      WalkListsTheClosure(table, ids[..n]);
      var w := VisitAll(table, ids[..n]).value;
      VisitAddsClosure(table, w, ids[n]);
      forall id ensures id in VisitAll(table, ids).value.out <==> Requested(table, ids, id) {
        RequestedSnoc(table, ids, id);
      }
    }
  }

  /** A reference that selects nothing makes the whole expansion fail. */
  lemma UnknownReferenceFails(table: Scopes, ids: seq<string>, n: nat)
    requires WellFounded(table) && n < |ids| && Known(table, ids[..n]) && ids[n] != "" && Resolve(table, ids[n]).None?
    ensures ScopeAncestors(table, ids).None?
  {
    WalkListsTheClosure(table, ids[..n]);
    var w := VisitAll(table, ids[..n]).value;
    SeenIsById(table, w, ids[n]);
    assert ids[..n + 1][..n] == ids[..n];
    OneFailureFails(table, ids, n + 1);
  }

  function NotEmpty(): string -> bool { (reference: string) => reference != "" }

  lemma {:induction false} EmptyReferencesAreSkipped(table: Scopes, ids: seq<string>)
    requires WellFounded(table)
    ensures VisitAll(table, ids) == VisitAll(table, Filter(NotEmpty(), ids))
  {
    if ids != [] {
      var before, last := ids[..|ids| - 1], ids[|ids| - 1];
      EmptyReferencesAreSkipped(table, before);
      var kept := Filter(NotEmpty(), before);
      if last == "" {
        assert Filter(NotEmpty(), ids) == kept;
      } else {
        assert Filter(NotEmpty(), ids) == kept + [last];
        assert (kept + [last])[..|kept|] == kept;
      }
    }
  }

  /** All references up to n select something. */
  lemma {:induction false} FirstUnknown(table: Scopes, ids: seq<string>) returns (n: nat)
    requires !Known(table, ids)
    ensures n < |ids| && Known(table, ids[..n]) && Resolve(table, ids[n]).None?
  {
    var m := |ids| - 1;
    if Known(table, ids[..m]) {
      n := m;
      forall i | 0 <= i < m ensures Resolve(table, ids[i]).Some? { assert ids[..m][i] == ids[i]; }
    } else {
      n := FirstUnknown(table, ids[..m]);
      assert ids[..m][..n] == ids[..n];
    }
  }

  /** A request expands exactly when each of its references is empty or is the id or the key of a scope. */
  lemma ExpandsExactly(table: Scopes, ids: seq<string>)
    requires WellFounded(table)
    ensures ScopeAncestors(table, ids).Some? <==>
      forall r :: r in ids && r != "" ==> exists v :: v in table && (v.id == r || v.key == r)
    ensures ScopeAncestors(table, ids) == ScopeAncestors(table, Filter(NotEmpty(), ids))
  {
    var kept := Filter(NotEmpty(), ids);
    EmptyReferencesAreSkipped(table, ids);
    FilterMembers(NotEmpty(), ids);
    if Known(table, kept) {
      WalkListsTheClosure(table, kept);
      forall r | r in ids && r != "" ensures exists v :: v in table && (v.id == r || v.key == r) {
        var i :| 0 <= i < |kept| && kept[i] == r;
        assert table[Resolve(table, r).value] in table;
      }
    } else {
      var n := FirstUnknown(table, kept);
      assert kept[n] in kept;
      UnknownReferenceFails(table, kept, n);
    }
  }

  // --- Duplicates ------------------------------------------------------------------------------

  /** The reference is the id of the scope it selects. */
  ghost predicate ById(table: Scopes, reference: string) {
    Resolve(table, reference).Some? && table[Resolve(table, reference).value].id == reference
  }

  ghost predicate ParentsById(table: Scopes) {
    forall i :: 0 <= i < |table| && table[i].parent != "" ==> ById(table, table[i].parent)
  }

  lemma SeenIsById(table: Scopes, w: Walk, reference: string)
    requires WellFounded(table) && ParentsFirst(table, w)
    ensures reference in w.seen ==> ById(table, reference)
  {
    if reference in w.seen {
      var n :| 0 <= n < |w.out| && w.out[n] == reference;
      assert Listed(table, w.out, n);
    }
  }

  /** With parents stored by id, a visit repeats an id exactly when a key reference selects a scope already listed. */
  lemma {:induction false} VisitRepeats(table: Scopes, w: Walk, reference: string)
    requires WellFounded(table) && ParentsById(table) && ParentsFirst(table, w) && Resolve(table, reference).Some?
    requires Distinct(w.out)
    ensures var t := Resolve(table, reference).value;
      var r := Visit(table, w, reference);
      r.Some? && (Distinct(r.value.out) <==> ById(table, reference) || table[t].id !in w.seen)
    decreases Rank(table, reference)
  {
    VisitAddsClosure(table, w, reference);
    var t := Resolve(table, reference).value;
    var v := table[t];
    assert Sound(table, t) && reference != "";
    if reference in w.seen {
      SeenIsById(table, w, reference);
    } else {
      var before := w;
      if v.parent != "" {
        VisitAddsClosure(table, w, v.parent);
        VisitRepeats(table, w, v.parent);
        before := Visit(table, w, v.parent).value;
      }
      NotOwnAncestor(table, t);
      assert v.id in before.seen <==> v.id in w.seen;
      var after := before.out + [v.id];
      if v.id in before.out {
        var m :| 0 <= m < |before.out| && before.out[m] == v.id;
        assert after[m] == after[|before.out|];
      }
    }
  }

  /** No scope's id lies in the closure of its parent. */
  lemma NotOwnAncestor(table: Scopes, t: nat)
    requires WellFounded(table) && t < |table|
    ensures table[t].parent != "" ==> !InClosure(table, table[t].id, ParentOf(table, t))
  {
    if table[t].parent != "" {
      var p := ParentOf(table, t);
      forall a | 0 <= a < |table| && AncestorOrSelf(table, a, p) ensures table[a].id != table[t].id {
        AncestorsAreHigher(table, a, p);
        ResolveId(table, a);
        ResolveId(table, t);
      }
    }
  }

  lemma {:induction false} AncestorsAreHigher(table: Scopes, a: nat, b: nat)
    requires WellFounded(table) && b < |table| && AncestorOrSelf(table, a, b)
    ensures a < |table| && Level(table, a) <= Level(table, b)
    decreases Level(table, b)
  {
    if a != b { AncestorsAreHigher(table, a, ParentOf(table, b)); }
  }

  /** A request repeats a scope when it names by key what earlier references already brought in. */
  ghost predicate NamesAgain(table: Scopes, ids: seq<string>, n: nat)
    requires WellFounded(table) && Known(table, ids) && n < |ids|
  {
    !ById(table, ids[n]) && Requested(table, ids[..n], table[Resolve(table, ids[n]).value].id)
  }

  lemma ListsOnlyGrow(table: Scopes, ids: seq<string>)
    requires WellFounded(table) && Known(table, ids) && ids != []
    ensures VisitAll(table, ids).Some? && VisitAll(table, ids[..|ids| - 1]).Some?
    ensures VisitAll(table, ids[..|ids| - 1]).value.out <= VisitAll(table, ids).value.out
  {
    var n := |ids| - 1;
    WalkListsTheClosure(table, ids[..n]);
    VisitAddsClosure(table, VisitAll(table, ids[..n]).value, ids[n]);
  }

  /** The last reference alone decides whether a list without repetitions stays one. */
  lemma LastReferenceRepeats(table: Scopes, ids: seq<string>)
    requires WellFounded(table) && ParentsById(table) && Known(table, ids) && ids != []
    ensures var before := ScopeAncestors(table, ids[..|ids| - 1]); var after := ScopeAncestors(table, ids);
      && before.Some? && after.Some?
      && (Distinct(after.value) <==> Distinct(before.value) && !NamesAgain(table, ids, |ids| - 1))
  {
    var n := |ids| - 1;
    WalkListsTheClosure(table, ids[..n]);
    ListsOnlyGrow(table, ids);
    var w := VisitAll(table, ids[..n]).value;
    if Distinct(w.out) {
      VisitRepeats(table, w, ids[n]);
    } else if Distinct(VisitAll(table, ids).value.out) {
      DistinctPrefix(w.out, VisitAll(table, ids).value.out);
    }
  }

  /**
   With parents stored by id, the expansion is free of duplicates exactly when no key reference names
   something again.
   */
  lemma {:induction false} NoDuplicatesExactly(table: Scopes, ids: seq<string>)
    requires WellFounded(table) && ParentsById(table) && Known(table, ids)
    ensures ScopeAncestors(table, ids).Some?
    ensures Distinct(ScopeAncestors(table, ids).value) <==> forall n :: 0 <= n < |ids| ==> !NamesAgain(table, ids, n)
  {
    if ids != [] {
      var n := |ids| - 1;
      var before := ids[..n];
      NoDuplicatesExactly(table, before);
      LastReferenceRepeats(table, ids);
      forall m | 0 <= m < n ensures NamesAgain(table, ids, m) <==> NamesAgain(table, before, m) {
        assert ids[..m] == before[..m] && ids[m] == before[m];
      }
    }
  }

  /** Every reference of the request is an id. */
  ghost predicate IdRequest(table: Scopes, ids: seq<string>) {
    forall n :: 0 <= n < |ids| ==> ById(table, ids[n])
  }

  ghost predicate ExpandsDistinctly(table: Scopes, ids: seq<string>)
    requires WellFounded(table)
  {
    ScopeAncestors(table, ids).Some? && Distinct(ScopeAncestors(table, ids).value)
  }

  /** Requests by id never bring duplicates exactly when all parents are stored by id. */
  lemma IdRequestsAreDistinctExactlyWhenParentsAreById(table: Scopes)
    requires WellFounded(table)
    ensures ParentsById(table) <==>
      forall ids :: IdRequest(table, ids) ==> ExpandsDistinctly(table, ids)
  {
    if ParentsById(table) {
      forall ids | IdRequest(table, ids) ensures ExpandsDistinctly(table, ids) {
        IdRequestIsDistinct(table, ids);
      }
    } else {
      var i :| 0 <= i < |table| && table[i].parent != "" && !ById(table, table[i].parent);
      KeyParentRepeatsById(table, i);
      var ids := [table[ParentOf(table, i)].id, table[i].id];
      assert IdRequest(table, ids) && !ExpandsDistinctly(table, ids);
    }
  }

  /** A parent stored by its key is listed again when its child is asked for later. */
  lemma KeyParentRepeats(table: Scopes, before: seq<string>, i: nat)
    requires WellFounded(table) && Known(table, before) && i < |table| && table[i].parent != ""
    requires !ById(table, table[i].parent)
    requires Requested(table, before, table[ParentOf(table, i)].id) && !Requested(table, before, table[i].id)
    ensures var out := ScopeAncestors(table, before + [table[i].id]); out.Some? && !Distinct(out.value)
  {
    var p := ParentOf(table, i);
    var ids := before + [table[i].id];
    ResolveId(table, p);
    ResolveId(table, i);
    assert ids[..|before|] == before;
    assert Known(table, ids);
    WalkListsTheClosure(table, before);
    var w := VisitAll(table, before).value;
    SeenIsById(table, w, table[i].parent);
    assert table[p].id in w.out && table[i].id !in w.seen;
    KeyParentAgain(table, w, i);
  }

  lemma KeyParentAgain(table: Scopes, w: Walk, i: nat)
    requires WellFounded(table) && ParentsFirst(table, w) && i < |table| && table[i].parent != ""
    requires table[i].parent !in w.seen && table[i].id !in w.seen && table[ParentOf(table, i)].id in w.out
    ensures var out := Visit(table, w, table[i].id); out.Some? && !Distinct(out.value.out)
  {
    var p := ParentOf(table, i);
    ResolveId(table, i);
    var m :| 0 <= m < |w.out| && w.out[m] == table[p].id;
    VisitAddsClosure(table, w, table[i].parent);
    var grand := w;
    if table[p].parent != "" {
      VisitAddsClosure(table, w, table[p].parent);
      grand := Visit(table, w, table[p].parent).value;
    }
    assert Sound(table, i);
    var out := Visit(table, w, table[i].id).value.out;
    assert out == grand.out + [table[p].id] + [table[i].id] && w.out <= grand.out;
    assert out[m] == table[p].id && out[|grand.out|] == table[p].id && m < |grand.out|;
  }

  /** In particular for the request of such a parent and its child by id. */
  lemma KeyParentRepeatsById(table: Scopes, i: nat)
    requires WellFounded(table) && i < |table| && table[i].parent != "" && !ById(table, table[i].parent)
    ensures var ids := [table[ParentOf(table, i)].id, table[i].id]; var out := ScopeAncestors(table, ids);
      ById(table, ids[0]) && ById(table, ids[1]) && out.Some? && !Distinct(out.value)
  {
    var p := ParentOf(table, i);
    var first := [table[p].id];
    ResolveId(table, p);
    ResolveId(table, i);
    NotOwnAncestor(table, i);
    assert AncestorOrSelf(table, p, p) && InClosure(table, table[p].id, Resolve(table, first[0]).value);
    KeyParentRepeats(table, first, i);
    assert first + [table[i].id] == [table[p].id, table[i].id];
  }

  /** The closure of one scope, asked for alone, has no duplicates however its parents are stored. */
  lemma {:induction false} ChainIsDistinct(table: Scopes, reference: string)
    requires WellFounded(table) && Resolve(table, reference).Some?
    ensures var r := Visit(table, Walk({}, []), reference); r.Some? && Distinct(r.value.out)
    decreases Rank(table, reference)
  {
    var t := Resolve(table, reference).value;
    assert Sound(table, t) && reference != "";
    VisitAddsClosure(table, Walk({}, []), reference);
    NotOwnAncestor(table, t);
    if table[t].parent != "" {
      ChainIsDistinct(table, table[t].parent);
      VisitAddsClosure(table, Walk({}, []), table[t].parent);
    }
  }

  // --- Expanding twice -------------------------------------------------------------------------

  /**
   With parents stored by id, expanding an expansion changes nothing exactly when no key reference
   names something again.
   */
  lemma ExpansionIsIdempotentExactly(table: Scopes, ids: seq<string>)
    requires WellFounded(table) && ParentsById(table) && Known(table, ids)
    ensures ScopeAncestors(table, ids).Some?
    ensures var out := ScopeAncestors(table, ids).value;
      ScopeAncestors(table, out) == Some(out) <==> forall n :: 0 <= n < |ids| ==> !NamesAgain(table, ids, n)
  {
    WalkListsTheClosure(table, ids);
    NoDuplicatesExactly(table, ids);
    var w := VisitAll(table, ids).value;
    if Distinct(w.out) {
      PrefixExpands(table, w, |w.out|);
      assert w.out[..|w.out|] == w.out;
    } else {
      forall n | 0 <= n < |w.out| ensures ById(table, w.out[n]) {
        assert Listed(table, w.out, n);
      }
      IdRequestIsDistinct(table, w.out);
    }
  }

  lemma IdRequestIsDistinct(table: Scopes, ids: seq<string>)
    requires WellFounded(table) && ParentsById(table) && IdRequest(table, ids)
    ensures ExpandsDistinctly(table, ids)
  {
    NoDuplicatesExactly(table, ids);
  }

  ghost predicate ExpandsToFixpoint(table: Scopes, ids: seq<string>)
    requires WellFounded(table)
  {
    var out := ScopeAncestors(table, ids);
    out.Some? && ScopeAncestors(table, out.value) == out
  }

  /**
   Requests by id expand the same a second time, as a context request expands them, exactly when all
   parents are stored by id.
   */
  lemma IdRequestsExpandOnceExactlyWhenParentsAreById(table: Scopes)
    requires WellFounded(table)
    ensures ParentsById(table) <==>
      forall ids :: IdRequest(table, ids) ==> ExpandsToFixpoint(table, ids)
  {
    if ParentsById(table) {
      forall ids | IdRequest(table, ids) ensures ExpandsToFixpoint(table, ids) {
        ExpansionIsIdempotentExactly(table, ids);
      }
    } else {
      var i :| 0 <= i < |table| && table[i].parent != "" && !ById(table, table[i].parent);
      ResolveId(table, i);
      KeyParentExpandsTwice(table, i);
      assert IdRequest(table, [table[i].id]);
    }
  }

  /** A scope whose parent is stored by key expands to its closure, and that closure to something else. */
  lemma KeyParentExpandsTwice(table: Scopes, i: nat)
    requires WellFounded(table) && i < |table| && table[i].parent != "" && !ById(table, table[i].parent)
    ensures ScopeAncestors(table, [table[i].id]).Some? && !ExpandsToFixpoint(table, [table[i].id])
  {
    var ids := [table[i].id];
    ResolveId(table, i);
    SingleRequest(table, table[i].id);
    ChainIsDistinct(table, table[i].id);
    var out := ScopeAncestors(table, ids).value;
    var before := ClosureWithoutSelf(table, i);
    assert out == before + [table[i].id];
    KeyParentRepeats(table, before, i);
  }

  lemma SingleRequest(table: Scopes, reference: string)
    requires WellFounded(table)
    ensures VisitAll(table, [reference]) == Visit(table, Walk({}, []), reference)
  {
    assert [reference][..0] == [];
    assert VisitAll(table, []) == Some(Walk({}, []));
  }

  /** The list of a scope asked for alone ends with the scope; the rest requests the parent, and not the scope. */
  lemma ClosureWithoutSelf(table: Scopes, i: nat) returns (before: seq<string>)
    requires WellFounded(table) && i < |table| && table[i].parent != ""
    ensures ScopeAncestors(table, [table[i].id]) == Some(before + [table[i].id])
    ensures Known(table, before) && Requested(table, before, table[ParentOf(table, i)].id)
    ensures !Requested(table, before, table[i].id)
  {
    var p, start := ParentOf(table, i), Walk({}, []);
    ResolveId(table, i);
    ResolveId(table, p);
    SingleRequest(table, table[i].id);
    assert Sound(table, i);
    VisitAddsClosure(table, start, table[i].parent);
    NotOwnAncestor(table, i);
    var w := Visit(table, start, table[i].parent).value;
    before := w.out;
    assert AncestorOrSelf(table, p, p) && InClosure(table, table[p].id, p);
    forall n | 0 <= n < |before| ensures Resolve(table, before[n]).Some? {
      assert Listed(table, before, n);
    }
    var m :| 0 <= m < |before| && before[m] == table[p].id;
    assert InClosure(table, table[p].id, Resolve(table, before[m]).value);
    if j :| 0 <= j < |before| && InClosure(table, table[i].id, Resolve(table, before[j]).value) {
      ClosedUnderAncestors(table, w, j, table[i].id);
    }
  }

  lemma {:induction false} PrefixExpands(table: Scopes, w: Walk, n: nat)
    requires WellFounded(table) && ParentsById(table) && ParentsFirst(table, w) && Distinct(w.out) && n <= |w.out|
    ensures var v := VisitAll(table, w.out[..n]);
      v.Some? && v.value.out == w.out[..n] && forall id :: id in v.value.seen <==> id in w.out[..n]
  {
    if n > 0 {
      var m := n - 1;
      PrefixExpands(table, w, m);
      assert w.out[..n][..m] == w.out[..m] && w.out[..n] == w.out[..m] + [w.out[m]];
      assert Listed(table, w.out, m);
      assert w.out[m] !in w.out[..m];
      var before := VisitAll(table, w.out[..m]).value;
      var v := table[Resolve(table, w.out[m]).value];
      assert Sound(table, Resolve(table, w.out[m]).value) && w.out[m] != "";
      if v.parent != "" {
        assert ById(table, v.parent);
        assert v.parent in w.out[..m];
        assert Visit(table, before, v.parent) == Some(before);
      }
      assert Visit(table, before, w.out[m]) == Some(Walk(before.seen + {w.out[m]}, before.out + [w.out[m]]));
    }
  }

  // --- Specificity -----------------------------------------------------------------------------

  function FirstIndex(scopes: seq<string>, s: string): (n: nat)
    ensures n <= |scopes|
    ensures n < |scopes| ==> scopes[n] == s
    ensures forall i :: 0 <= i < n ==> scopes[i] != s
  {
    if scopes == [] || scopes[0] == s then 0 else 1 + FirstIndex(scopes[1..], s)
  }

  /** Position in the expanded list as a score in (0, 1]; a half without scopes, zero when absent. */
  function ScopeScore(scopes: seq<string>, s: string): real {
    if |scopes| == 0 then 0.5
    else
      var n := FirstIndex(scopes, s);
      if n < |scopes| then (n + 1) as real / |scopes| as real else 0.0
  }

  lemma {:induction false} AncestorComesFirst(table: Scopes, w: Walk, a: nat, b: nat)
    requires WellFounded(table) && ParentsFirst(table, w) && b < |table| && AncestorOrSelf(table, a, b) && a != b
    requires table[b].id in w.out
    ensures a < |table| && FirstIndex(w.out, table[a].id) < FirstIndex(w.out, table[b].id) < |w.out|
    decreases Level(table, b)
  {
    var n := FirstIndex(w.out, table[b].id);
    var k :| 0 <= k < |w.out| && w.out[k] == table[b].id;
    ResolveId(table, b);
    assert Listed(table, w.out, n);
    var p := ParentOf(table, b);
    var m :| 0 <= m < n && w.out[m] == table[p].id;
    assert FirstIndex(w.out, table[p].id) <= m;
    if a != p { AncestorComesFirst(table, w, a, p); }
  }

  /** In every expansion a scope scores strictly higher than each of its ancestors. */
  lemma SpecificScopesScoreHigher(table: Scopes, ids: seq<string>, a: nat, b: nat)
    requires WellFounded(table) && Known(table, ids) && b < |table| && AncestorOrSelf(table, a, b) && a != b
    requires ScopeAncestors(table, ids).Some? && table[b].id in ScopeAncestors(table, ids).value
    ensures a < |table|
    ensures var out := ScopeAncestors(table, ids).value;
      0.0 < ScopeScore(out, table[a].id) < ScopeScore(out, table[b].id) <= 1.0
  {
    WalkListsTheClosure(table, ids);
    var w := VisitAll(table, ids).value;
    AncestorComesFirst(table, w, a, b);
    var i, j, n := FirstIndex(w.out, table[a].id), FirstIndex(w.out, table[b].id), |w.out|;
    Fractions(i + 1, j + 1, n);
  }

  lemma Fractions(i: nat, j: nat, n: nat)
    requires 0 < i < j <= n
    ensures 0.0 < i as real / n as real < j as real / n as real <= 1.0
  {
    var x, y, z := i as real, j as real, n as real;
    assert x / z * z == x && y / z * z == y;
  }
}
