/**
 The walk over scope tables that need not be well-founded. A reference can match several rows, and the
 lookup then returns any of them; when every such walk ends, and what the order of rows has to do with it.
 */
module ScopeLookups {
  import opened EventStore
  import opened Sequences
  import opened ScopeClosure

  // --- The walk with any lookup --------------------------------------------------------------------

  /** A lookup that returns some matching row, as a query whose condition matches several rows may. */
  ghost predicate IsLookup(table: Scopes, pick: string -> nat) {
    forall reference :: Resolve(table, reference).Some? ==>
      pick(reference) < |table| && Matches(table[pick(reference)], reference)
  }

  /** Without ambiguity every lookup is the one of the model. */
  lemma LookupIsDetermined(table: Scopes, pick: string -> nat, reference: string)
    requires WellFounded(table) && IsLookup(table, pick) && Resolve(table, reference).Some?
    ensures pick(reference) == Resolve(table, reference).value
  {
    assert Sound(table, pick(reference)) && Sound(table, Resolve(table, reference).value);
  }

  datatype Visited = Finished(w: Walk) | NotFound | StillRunning

  /** The visit with any lookup, cut off after a number of nested calls. */
  ghost function VisitWith(table: Scopes, pick: string -> nat, w: Walk, reference: string, depth: nat): Visited
    decreases depth
  {
    if reference == "" || reference in w.seen then Finished(w)
    else if Resolve(table, reference).None? || pick(reference) >= |table| then NotFound
    else if depth == 0 then StillRunning
    else
      var v := table[pick(reference)];
      match VisitWith(table, pick, w, v.parent, depth - 1)
      case Finished(before) => Finished(Walk(before.seen + {v.id}, before.out + [v.id]))
      case NotFound => NotFound
      case StillRunning => StillRunning
  }

  /** Without ambiguity the visit finishes for every lookup, no deeper than the rank of its target. */
  lemma {:induction false} EveryVisitFinishes(table: Scopes,
                                              pick: string -> nat, w: Walk, reference: string, depth: nat)
    requires WellFounded(table) && IsLookup(table, pick) && Resolve(table, reference).Some?
    requires Rank(table, reference) <= depth
    ensures Visit(table, w, reference).Some?
    ensures VisitWith(table, pick, w, reference, depth) == Finished(Visit(table, w, reference).value)
    decreases depth
  {
    LookupIsDetermined(table, pick, reference);
    var t := Resolve(table, reference).value;
    assert Sound(table, t) && reference != "";
    if reference !in w.seen && table[t].parent != "" {
      EveryVisitFinishes(table, pick, w, table[t].parent, depth - 1);
    }
  }

  // --- When every walk ends -------------------------------------------------------------------------

  /** The walk comes to an end, whether it finds everything or not. */
  ghost predicate Ends(table: Scopes, pick: string -> nat, w: Walk, reference: string) {
    exists depth: nat :: !VisitWith(table, pick, w, reference, depth).StillRunning?
  }

  ghost predicate EveryWalkEnds(table: Scopes) {
    forall pick: string -> nat, w: Walk, reference: string :: IsLookup(table, pick) ==> Ends(table, pick, w, reference)
  }

  /** The parent reference of row i matches some row of c. */
  ghost predicate LeadsBack(table: Scopes, c: set<nat>, i: nat)
    requires i < |table|
  {
    table[i].parent != "" && exists j :: j in c && j < |table| && Matches(table[j], table[i].parent)
  }

  /** Rows whose parent references can all be followed within them. */
  ghost predicate Trap(table: Scopes, c: set<nat>) {
    && c != {} && (forall i :: i in c ==> i < |table|)
    && forall i {:trigger LeadsBack(table, c, i)} :: i in c ==> LeadsBack(table, c, i)
  }

  /** A lookup that stays within the trap where it can. */
  ghost function Trapped(table: Scopes, c: set<nat>, reference: string): (k: nat)
    ensures (exists j :: j in c && j < |table| && Matches(table[j], reference)) ==>
      k in c && k < |table| && Matches(table[k], reference)
    ensures Resolve(table, reference).Some? ==> k < |table| && Matches(table[k], reference)
  {
    if exists j :: j in c && j < |table| && Matches(table[j], reference) then
      var j :| j in c && j < |table| && Matches(table[j], reference); j
    else if Resolve(table, reference).Some? then Resolve(table, reference).value
    else 0
  }

  lemma {:induction false} TrapNeverEnds(table: Scopes, c: set<nat>, i: nat, depth: nat)
    requires Trap(table, c) && i in c
    ensures VisitWith(table, (r: string) => Trapped(table, c, r), Walk({}, []), table[i].parent, depth).StillRunning?
    decreases depth
  {
    assert LeadsBack(table, c, i);
    var j := Trapped(table, c, table[i].parent);
    FirstMatch(table, j, table[i].parent);
    if depth > 0 { TrapNeverEnds(table, c, j, depth - 1); }
  }

  /** The rows from whose parent a walk does not end. */
  ghost function Endless(table: Scopes, pick: string -> nat, w: Walk): set<nat> {
    set i: nat | 0 <= i < |table| && !Ends(table, pick, w, table[i].parent)
  }

  /** A walk that does not end goes through a row from whose parent it does not end either. */
  lemma EndlessStep(table: Scopes, pick: string -> nat, w: Walk, reference: string)
    requires IsLookup(table, pick) && !Ends(table, pick, w, reference)
    ensures reference != "" && pick(reference) in Endless(table, pick, w) && Matches(table[pick(reference)], reference)
  {
    assert VisitWith(table, pick, w, reference, 0).StillRunning?;
    var parent := table[pick(reference)].parent;
    forall depth: nat ensures VisitWith(table, pick, w, parent, depth).StillRunning? {
      assert VisitWith(table, pick, w, reference, depth + 1).StillRunning?;
    }
  }

  /**
   Every walk ends, from every reference, after everything seen so far and with every lookup, exactly when no
   set of rows has all its parent references matched within the set.
   */
  lemma EveryWalkEndsExactly(table: Scopes)
    ensures EveryWalkEnds(table) <==> !exists c: set<nat> :: Trap(table, c)
  {
    if c: set<nat> :| Trap(table, c) {
      var i :| i in c;
      var pick := (r: string) => Trapped(table, c, r);
      assert IsLookup(table, pick);
      forall depth: nat ensures VisitWith(table, pick, Walk({}, []), table[i].parent, depth).StillRunning? {
        TrapNeverEnds(table, c, i, depth);
      }
      assert !Ends(table, pick, Walk({}, []), table[i].parent);
    }
    if !EveryWalkEnds(table) {
      var pick: string -> nat, w: Walk, reference: string :|
        IsLookup(table, pick) && !Ends(table, pick, w, reference);
      EndlessIsATrap(table, pick, w, reference);
    }
  }

  lemma EndlessIsATrap(table: Scopes, pick: string -> nat, w: Walk, reference: string)
    requires IsLookup(table, pick) && !Ends(table, pick, w, reference)
    ensures Trap(table, Endless(table, pick, w))
  {
    var c := Endless(table, pick, w);
    EndlessStep(table, pick, w, reference);
    forall i | i in c ensures LeadsBack(table, c, i) {
      EndlessStep(table, pick, w, table[i].parent);
    }
  }

  lemma {:induction false} NoTrapInside(table: Scopes, c: set<nat>, i: nat)
    requires WellFounded(table) && i in c
    ensures !Trap(table, c)
    decreases if i < |table| then Level(table, i) else 0
  {
    if Trap(table, c) {
      assert LeadsBack(table, c, i);
      var j :| j in c && j < |table| && Matches(table[j], table[i].parent);
      assert Sound(table, i) && Sound(table, j);
      NoTrapInside(table, c, j);
    }
  }

  /** At this depth the walk from the reference, with the lookup of the model, has ended. */
  ghost predicate EndedBy(table: Scopes, reference: string, depth: nat) {
    !VisitWith(table, (r: string) => FirstRow(table, r), Walk({}, []), reference, depth).StillRunning?
  }

  function FirstRow(table: Scopes, reference: string): nat {
    var r := Resolve(table, reference);
    if r.Some? then r.value else 0
  }

  ghost predicate EndsFirstAt(table: Scopes, reference: string, depth: nat) {
    EndedBy(table, reference, depth) && forall e: nat :: e < depth ==> !EndedBy(table, reference, e)
  }

  lemma {:induction false} EndedFirst(table: Scopes, reference: string, depth: nat)
    requires EndedBy(table, reference, depth)
    ensures exists first: nat :: EndsFirstAt(table, reference, first)
  {
    if e: nat :| e < depth && EndedBy(table, reference, e) {
      EndedFirst(table, reference, e);
    } else {
      assert EndsFirstAt(table, reference, depth);
    }
  }

  lemma WalkEndsSomewhere(table: Scopes, reference: string)
    requires EveryWalkEnds(table)
    ensures exists first: nat :: EndsFirstAt(table, reference, first)
  {
    var pick := (r: string) => FirstRow(table, r);
    assert IsLookup(table, pick) && Ends(table, pick, Walk({}, []), reference);
    var depth: nat :| !VisitWith(table, pick, Walk({}, []), reference, depth).StillRunning?;
    assert EndedBy(table, reference, depth);
    EndedFirst(table, reference, depth);
  }

  /** The depth at which the walk from a row ends. */
  ghost function EndDepth(table: Scopes, i: nat): (depth: nat)
    requires EveryWalkEnds(table) && i < |table|
    ensures EndsFirstAt(table, table[i].id, depth)
  {
    WalkEndsSomewhere(table, table[i].id);
    var depth: nat :| EndsFirstAt(table, table[i].id, depth);
    depth
  }

  lemma EndsOneEarlier(table: Scopes, i: nat, depth: nat)
    requires i < |table| && Settled(table, i) && EndedBy(table, table[i].id, depth)
    ensures depth > 0 && EndedBy(table, table[i].parent, depth - 1)
  {
  }

  lemma SameRowEndsAlike(table: Scopes, a: string, b: string, depth: nat)
    requires a != "" && b != "" && Resolve(table, a).Some? && Resolve(table, a) == Resolve(table, b)
    ensures EndedBy(table, a, depth) ==> EndedBy(table, b, depth)
  {
  }

  lemma ParentEndsEarlier(table: Scopes, i: nat)
    requires EveryWalkEnds(table) && i < |table| && table[i].parent != ""
    requires Settled(table, i) && Settled(table, Resolve(table, table[i].parent).value)
    ensures EndDepth(table, Resolve(table, table[i].parent).value) < EndDepth(table, i)
  {
    var p, d := Resolve(table, table[i].parent).value, EndDepth(table, i);
    EndsOneEarlier(table, i, d);
    SameRowEndsAlike(table, table[i].parent, table[p].id, d - 1);
  }

  /** Where references are unambiguous and parents exist, that is exactly well-foundedness. */
  lemma WellFoundedExactlyWhenWalksEnd(table: Scopes)
    requires forall i :: 0 <= i < |table| ==> Settled(table, i)
    ensures WellFounded(table) <==> EveryWalkEnds(table)
  {
    EveryWalkEndsExactly(table);
    if WellFounded(table) {
      forall c: set<nat> ensures !Trap(table, c) {
        if i :| i in c { NoTrapInside(table, c, i); }
      }
    }
    if EveryWalkEnds(table) {
      var rank := (i: nat) => if i < |table| then EndDepth(table, i) else 0;
      forall i | 0 <= i < |table| ensures RankedRow(table, rank, i) {
        assert Settled(table, i);
        if table[i].parent != "" {
          assert Settled(table, Resolve(table, table[i].parent).value);
          ParentEndsEarlier(table, i);
        }
      }
      assert Ranked(table, rank);
      WellFoundedExactlyWhenRanked(table);
    }
  }

  // --- The order of rows --------------------------------------------------------------------------------

  lemma MatchIsUnique(table: Scopes, i: nat, reference: string)
    requires WellFounded(table) && i < |table| && Matches(table[i], reference)
    ensures Resolve(table, reference) == Some(i)
  {
    assert Sound(table, i);
  }

  /** The row that a reference selects. */
  function Selected(table: Scopes, reference: string): Option<ScopeRow> {
    var r := Resolve(table, reference);
    if r.None? then None else Some(table[r.value])
  }

  lemma SameSelection(table: Scopes, other: Scopes, reference: string)
    requires WellFounded(table) && multiset(table) == multiset(other)
    ensures Selected(other, reference) == Selected(table, reference)
  {
    var r, r' := Resolve(table, reference), Resolve(other, reference);
    if r.Some? {
      assert table[r.value] in multiset(other);
      var j :| 0 <= j < |other| && other[j] == table[r.value];
      FirstMatch(other, j, reference);
    }
    if r'.Some? {
      assert other[r'.value] in multiset(table);
      var i :| 0 <= i < |table| && table[i] == other[r'.value];
      MatchIsUnique(table, i, reference);
    }
  }

  lemma RowsAreDistinct(table: Scopes, other: Scopes)
    requires WellFounded(table) && multiset(table) == multiset(other)
    ensures Distinct(other)
  {
    forall i, j | 0 <= i < j < |table| ensures table[i] != table[j] {
      assert Sound(table, i) && Sound(table, j);
    }
    PermutationDistinct(table, other);
  }

  /** Whatever order an import inserts scopes in, children before parents included, the table stays well-founded. */
  lemma PermutedIsWellFounded(table: Scopes, other: Scopes)
    requires WellFounded(table) && multiset(table) == multiset(other)
    ensures WellFounded(other)
  {
    RowsAreDistinct(table, other);
    var rank := (i: nat) => if i < |other| then LevelIn(table, other[i].id) else 0;
    forall i | 0 <= i < |other| ensures RankedRow(other, rank, i) {
      PermutedRow(table, other, i);
    }
    assert Ranked(other, rank);
    WellFoundedExactlyWhenRanked(other);
  }

  function LevelIn(table: Scopes, id: string): nat {
    var r := Resolve(table, id);
    if r.None? then 0 else Level(table, r.value)
  }

  lemma PermutedRow(table: Scopes, other: Scopes, i: nat)
    requires WellFounded(table) && multiset(table) == multiset(other) && Distinct(other) && i < |other|
    ensures Settled(other, i)
    ensures other[i].parent != "" ==>
      LevelIn(table, other[Resolve(other, other[i].parent).value].id) < LevelIn(table, other[i].id)
  {
    var k := SourceRow(table, other, i);
    SameSelection(table, other, other[i].id);
    SameSelection(table, other, other[i].key);
    if other[i].parent != "" {
      SameSelection(table, other, other[i].parent);
      ParentLevel(table, k);
    }
  }

  lemma SourceRow(table: Scopes, other: Scopes, i: nat) returns (k: nat)
    requires WellFounded(table) && multiset(table) == multiset(other) && i < |other|
    ensures k < |table| && table[k] == other[i] && Settled(table, k)
  {
    assert other[i] in multiset(table);
    k :| 0 <= k < |table| && table[k] == other[i];
    assert Sound(table, k);
  }

  lemma ParentLevel(table: Scopes, k: nat)
    requires WellFounded(table) && k < |table| && table[k].parent != ""
    ensures Resolve(table, table[k].parent).Some?
    ensures LevelIn(table, table[Resolve(table, table[k].parent).value].id) < LevelIn(table, table[k].id)
  {
    assert Sound(table, k);
    assert Sound(table, Resolve(table, table[k].parent).value);
  }

  lemma {:induction false} PermutedVisit(table: Scopes, other: Scopes, w: Walk, reference: string)
    requires WellFounded(table) && WellFounded(other) && multiset(table) == multiset(other)
    ensures Visit(other, w, reference) == Visit(table, w, reference)
    decreases Rank(table, reference)
  {
    SameSelection(table, other, reference);
    var r := Resolve(table, reference);
    if r.Some? {
      assert Sound(table, r.value) && Sound(other, Resolve(other, reference).value);
      if table[r.value].parent != "" { PermutedVisit(table, other, w, table[r.value].parent); }
    }
  }

  lemma {:induction false} PermutedVisitAll(table: Scopes, other: Scopes, ids: seq<string>)
    requires WellFounded(table) && WellFounded(other) && multiset(table) == multiset(other)
    ensures VisitAll(other, ids) == VisitAll(table, ids)
  {
    if ids != [] {
      var n := |ids| - 1;
      PermutedVisitAll(table, other, ids[..n]);
      var before := VisitAll(table, ids[..n]);
      if before.Some? { PermutedVisit(table, other, before.value, ids[n]); }
    }
  }

  /** And every request expands to the same list. */
  lemma PermutedExpandsAlike(table: Scopes, other: Scopes, ids: seq<string>)
    requires WellFounded(table) && multiset(table) == multiset(other)
    ensures WellFounded(other) && ScopeAncestors(other, ids) == ScopeAncestors(table, ids)
  {
    PermutedIsWellFounded(table, other);
    PermutedVisitAll(table, other, ids);
  }

  // --- Ambiguous references --------------------------------------------------------------------------

  lemma CreationAppends(table: Scopes, v: ScopeRow, j: nat)
    requires Created(table) && v.id != "" && v.key != ""
    requires v.parent == "" || (j < |table| && Matches(table[j], v.parent))
    requires forall i :: 0 <= i < |table| ==> table[i].id != v.id && table[i].key != v.key
    ensures Created(table + [v])
  {
    if v.parent != "" { FirstMatch(table, j, v.parent); }
    assert (table + [v])[..|table|] == table;
  }

  /** Three creations that the checks accept, the last one with an id that is the first one's key. */
  function Ambiguous(a: string, b: string, k: string, x: string, y: string): Scopes {
    [ScopeRow(a, k, ""), ScopeRow(b, x, k), ScopeRow(k, y, b)]
  }

  ghost predicate Apart(a: string, b: string, k: string, x: string, y: string) {
    && a != "" && b != "" && k != "" && x != "" && y != ""
    && a != b && a != k && b != k && x != y && k != x && k != y && b != x && b != y
  }

  lemma AmbiguousIsCreated(a: string, b: string, k: string, x: string, y: string)
    requires Apart(a, b, k, x, y)
    ensures Created(Ambiguous(a, b, k, x, y)) && !Disjoint(Ambiguous(a, b, k, x, y))
  {
    var table := Ambiguous(a, b, k, x, y);
    var first, second := [table[0]], [table[0], table[1]];
    CreationAppends([], table[0], 0);
    assert [] + first == first && first + [table[1]] == second && second + [table[2]] == table;
    CreationAppends(first, table[1], 0);
    CreationAppends(second, table[2], 1);
    assert table[2].id == table[0].key;
  }

  /** A lookup that prefers the newest matching row, as one query plan may. */
  function Newest(table: Scopes, reference: string): nat {
    if table == [] then 0
    else if Matches(table[|table| - 1], reference) then |table| - 1
    else Newest(table[..|table| - 1], reference)
  }

  lemma {:induction false} NewestMatches(table: Scopes, reference: string)
    ensures Resolve(table, reference).Some? ==>
      Newest(table, reference) < |table| && Matches(table[Newest(table, reference)], reference)
  {
    if table != [] { NewestMatches(table[..|table| - 1], reference); }
  }

  /**
   Such scopes can make the walk endless: with a lookup that prefers the newest row, the visit of the
   second scope is still running at every depth, because each of two parents leads back to the other.
   */
  lemma {:induction false} AmbiguousReferencesNeverEnd(a: string, b: string, k: string, x: string, y: string, w: Walk,
                                                       depth: nat)
    requires Apart(a, b, k, x, y) && b !in w.seen && k !in w.seen
    ensures var table := Ambiguous(a, b, k, x, y); var pick := (r: string) => Newest(table, r);
      && Created(table) && IsLookup(table, pick)
      && VisitWith(table, pick, w, b, depth) == StillRunning && VisitWith(table, pick, w, k, depth) == StillRunning
    decreases depth
  {
    var table := Ambiguous(a, b, k, x, y);
    var pick := (r: string) => Newest(table, r);
    AmbiguousIsCreated(a, b, k, x, y);
    forall r | Resolve(table, r).Some? ensures pick(r) < |table| && Matches(table[pick(r)], r) {
      NewestMatches(table, r);
    }
    FirstMatch(table, 1, b);
    FirstMatch(table, 2, k);
    assert table[..2] == [table[0], table[1]];
    assert pick(k) == 2 && pick(b) == 1;
    if depth > 0 { AmbiguousReferencesNeverEnd(a, b, k, x, y, w, depth - 1); }
  }

  // --- A parent stored by id or by key ---------------------------------------------------------------------

  /** Two creations, the second one naming its parent by the given reference. */
  function ByRef(p: string, pk: string, c: string, ck: string, reference: string): Scopes {
    [ScopeRow(p, pk, ""), ScopeRow(c, ck, reference)]
  }

  ghost predicate Different(p: string, pk: string, c: string, ck: string) {
    && p != "" && pk != "" && c != "" && ck != ""
    && p != pk && p != c && p != ck && pk != c && pk != ck && c != ck
  }

  lemma ByRefIsCreated(p: string, pk: string, c: string, ck: string, reference: string)
    requires Different(p, pk, c, ck) && (reference == p || reference == pk)
    ensures var table := ByRef(p, pk, c, ck, reference);
      && Created(table) && WellFounded(table)
      && Resolve(table, p) == Some(0) && Resolve(table, pk) == Some(0) && Resolve(table, c) == Some(1)
  {
    var table := ByRef(p, pk, c, ck, reference);
    CreationAppends([], table[0], 0);
    assert [] + [table[0]] == [table[0]] && [table[0]] + [table[1]] == table;
    CreationAppends([table[0]], table[1], 0);
    CreatedIsWellFounded(table);
    MatchIsUnique(table, 0, p);
    MatchIsUnique(table, 0, pk);
    MatchIsUnique(table, 1, c);
  }

  lemma VisitOfParent(p: string, pk: string, c: string, ck: string, reference: string, w: Walk, asked: string)
    requires Different(p, pk, c, ck) && (reference == p || reference == pk)
    requires (asked == p || asked == pk) && asked !in w.seen
    ensures var table := ByRef(p, pk, c, ck, reference);
      WellFounded(table) && Visit(table, w, asked) == Some(Walk(w.seen + {p}, w.out + [p]))
  {
    ByRefIsCreated(p, pk, c, ck, reference);
    RootVisit(ByRef(p, pk, c, ck, reference), w, 0, asked);
  }

  lemma RootVisit(table: Scopes, w: Walk, i: nat, asked: string)
    requires WellFounded(table) && i < |table| && table[i].parent == ""
    requires asked != "" && asked !in w.seen && Resolve(table, asked) == Some(i)
    ensures Visit(table, w, asked) == Some(Walk(w.seen + {table[i].id}, w.out + [table[i].id]))
  {
  }

  lemma VisitOfChild(p: string, pk: string, c: string, ck: string, reference: string, w: Walk)
    requires Different(p, pk, c, ck) && (reference == p || reference == pk) && reference !in w.seen && c !in w.seen
    ensures var table := ByRef(p, pk, c, ck, reference);
      WellFounded(table) && Visit(table, w, c) == Some(Walk(w.seen + {p} + {c}, w.out + [p] + [c]))
  {
    ByRefIsCreated(p, pk, c, ck, reference);
    VisitOfParent(p, pk, c, ck, reference, w, reference);
  }

  /** The child, asked for alone, expands to parent and child. */
  lemma ChildExpands(p: string, pk: string, c: string, ck: string, reference: string)
    requires Different(p, pk, c, ck) && (reference == p || reference == pk)
    ensures var table := ByRef(p, pk, c, ck, reference);
      WellFounded(table) && ScopeAncestors(table, [c]) == Some([p, c])
  {
    VisitOfChild(p, pk, c, ck, reference, Walk({}, []));
    SingleRequest(ByRef(p, pk, c, ck, reference), c);
    assert [] + [p] + [c] == [p, c];
  }

  /** Where the parent is stored by key, the expansion, expanded again, lists the parent twice. */
  lemma KeyParentComesTwice(p: string, pk: string, c: string, ck: string)
    requires Different(p, pk, c, ck)
    ensures var table := ByRef(p, pk, c, ck, pk);
      && Created(table) && WellFounded(table)
      && ScopeAncestors(table, [c]) == Some([p, c]) && ScopeAncestors(table, [p, c]) == Some([p, p, c])
  {
    var table := ByRef(p, pk, c, ck, pk);
    ByRefIsCreated(p, pk, c, ck, pk);
    ChildExpands(p, pk, c, ck, pk);
    var start, listed := Walk({}, []), Walk({} + {p}, [] + [p]);
    VisitOfParent(p, pk, c, ck, pk, start, p);
    VisitOfChild(p, pk, c, ck, pk, listed);
    SingleRequest(table, p);
    assert [p, c][..|[p, c]| - 1] == [p];
    assert VisitAll(table, [p]) == Some(listed);
    assert VisitAll(table, [p, c]) == Visit(table, listed, c);
    assert listed.out + [p] + [c] == [p, p, c];
  }
}
