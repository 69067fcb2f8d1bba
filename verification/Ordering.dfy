/** Strict orders: the order of strings, and lists sorted by a comparator. */
module Ordering {
  import opened Sequences

  /** a < b on strings, character by character. */
  predicate TextLess(a: string, b: string) {
    b != "" && (a == "" || a[0] < b[0] || (a[0] == b[0] && TextLess(a[1..], b[1..])))
  }

  /** The strings agree up to place n; there a ends or has the smaller character. */
  ghost predicate LessAt(a: string, b: string, n: nat) {
    n <= |a| && n < |b| && a[..n] == b[..n] && (n == |a| || a[n] as int < b[n] as int)
  }

  lemma SameStart(a: string, b: string, n: nat)
    requires 0 < n <= |a| && n <= |b| && a[..n] == b[..n]
    ensures a[0] == b[0]
  {
    assert a[..n][0] == b[..n][0];
  }

  lemma LessAtLater(a: string, b: string, n: nat)
    requires a != "" && b != "" && a[0] == b[0]
    ensures LessAt(a[1..], b[1..], n) <==> LessAt(a, b, n + 1)
  {
    if LessAt(a[1..], b[1..], n) {
      assert a[..n + 1] == [a[0]] + a[1..][..n] && b[..n + 1] == [b[0]] + b[1..][..n];
    }
    if LessAt(a, b, n + 1) {
      assert a[1..][..n] == a[..n + 1][1..] && b[1..][..n] == b[..n + 1][1..];
    }
  }

  /** The first place where they differ decides, and a proper start comes first. */
  lemma {:induction false} TextLessExactly(a: string, b: string)
    ensures TextLess(a, b) <==> exists n: nat :: LessAt(a, b, n)
  {
    forall n: nat | LessAt(a, b, n) && n > 0 ensures a != "" && b != "" && a[0] == b[0] {
      SameStart(a, b, n);
    }
    if a != "" && b != "" && a[0] == b[0] {
      TextLessExactly(a[1..], b[1..]);
      if n: nat :| LessAt(a[1..], b[1..], n) { LessAtLater(a, b, n); }
      if n: nat :| LessAt(a, b, n) { LessAtLater(a, b, n - 1); }
    } else {
      assert LessAt(a, b, 0) <==> TextLess(a, b);
    }
  }

  lemma {:induction false} TextLessAsymmetric(a: string, b: string)
    requires TextLess(a, b)
    ensures !TextLess(b, a) && a != b
  {
    if a != "" && a[0] == b[0] { TextLessAsymmetric(a[1..], b[1..]); }
  }

  lemma {:induction false} TextLessTotal(a: string, b: string)
    requires a != b
    ensures TextLess(a, b) || TextLess(b, a)
  {
    if a != "" && b != "" && a[0] == b[0] {
      assert a == [a[0]] + a[1..] && b == [b[0]] + b[1..];
      TextLessTotal(a[1..], b[1..]);
    }
  }

  lemma {:induction false} TextLessTransitive(a: string, b: string, c: string)
    requires TextLess(a, b) && TextLess(b, c)
    ensures TextLess(a, c)
  {
    if a != "" && a[0] == b[0] == c[0] { TextLessTransitive(a[1..], b[1..], c[1..]); }
  }

  /** A common prefix does not matter. */
  lemma {:induction false} TextLessPrefix(p: string, a: string, b: string)
    ensures TextLess(p + a, p + b) <==> TextLess(a, b)
  {
    if p == "" {
      assert p + a == a && p + b == b;
    } else {
      assert (p + a)[1..] == p[1..] + a && (p + b)[1..] == p[1..] + b;
      TextLessPrefix(p[1..], a, b);
    }
  }

  // --- Sorted lists ----------------------------------------------------------------------------

  /** Every element precedes all later ones. */
  ghost predicate Sorted<T(!new)>(less: (T, T) -> bool, s: seq<T>) {
    forall i, j :: 0 <= i < j < |s| ==> less(s[i], s[j])
  }

  ghost predicate Asymmetric<T(!new)>(less: (T, T) -> bool) {
    forall x, y :: less(x, y) ==> !less(y, x)
  }

  ghost predicate Transitive<T(!new)>(less: (T, T) -> bool) {
    forall x, y, z :: less(x, y) && less(y, z) ==> less(x, z)
  }

  lemma SortedIsDistinct<T(!new)>(less: (T, T) -> bool, s: seq<T>)
    requires Asymmetric(less) && Sorted(less, s)
    ensures Distinct(s)
  {
    forall i, j | 0 <= i < j < |s| ensures s[i] != s[j] {
      assert less(s[i], s[j]);
    }
  }

  lemma SortedPlaces<T(!new)>(less: (T, T) -> bool, s: seq<T>, i: nat, j: nat)
    requires Asymmetric(less) && Sorted(less, s) && i < |s| && j < |s| && less(s[i], s[j])
    ensures i < j
  {
  }

  lemma HeadIsLeast<T(!new)>(less: (T, T) -> bool, s: seq<T>, x: T)
    requires Sorted(less, s) && x in s
    ensures x == s[0] || less(s[0], x)
  {
  }

  /** Two sorted lists of the same elements are the same list. */
  lemma {:induction false} SortedIsUnique<T(!new)>(less: (T, T) -> bool, s: seq<T>, t: seq<T>)
    requires Asymmetric(less) && Sorted(less, s) && Sorted(less, t)
    requires forall x :: x in s <==> x in t
    ensures s == t
  {
    SortedIsDistinct(less, s);
    SortedIsDistinct(less, t);
    DistinctInside(s, t);
    DistinctInside(t, s);
    if s != [] {
      HeadIsLeast(less, t, s[0]);
      HeadIsLeast(less, s, t[0]);
      forall x ensures x in s[1..] <==> x in t[1..] {
        assert x in s[1..] <==> x in s && x != s[0];
        assert x in t[1..] <==> x in t && x != t[0];
      }
      SortedIsUnique(less, s[1..], t[1..]);
      assert s == [s[0]] + s[1..] && t == [t[0]] + t[1..];
    }
  }

  lemma PermutationComparable<T(!new)>(less: (T, T) -> bool, s: seq<T>, t: seq<T>, x: T)
    requires multiset(s) == multiset(t) && forall i :: 0 <= i < |s| ==> less(s[i], x) || less(x, s[i])
    ensures forall y :: y in t ==> less(x, y) || less(y, x)
  {
    forall y | y in t ensures less(x, y) || less(y, x) {
      assert y in multiset(s);
    }
  }

  lemma Inserted<T(!new)>(less: (T, T) -> bool, s: seq<T>, x: T, k: nat)
    requires Sorted(less, s) && k <= |s|
    requires forall i :: 0 <= i < k ==> less(s[i], x)
    requires forall i :: k <= i < |s| ==> less(x, s[i])
    ensures Sorted(less, s[..k] + [x] + s[k..])
    ensures multiset(s[..k] + [x] + s[k..]) == multiset(s) + multiset{x}
  {
    assert s == s[..k] + s[k..];
  }

  /** Library sort: any two elements of the list are comparable. */
  method Sort<T(!new)>(less: (T, T) -> bool, items: seq<T>) returns (sorted: seq<T>)
    requires Asymmetric(less) && Transitive(less)
    requires forall i, j :: 0 <= i < j < |items| ==> less(items[i], items[j]) || less(items[j], items[i])
    ensures Sorted(less, sorted) && multiset(sorted) == multiset(items)
  {
    sorted := [];
    for n := 0 to |items|
      invariant Sorted(less, sorted) && multiset(sorted) == multiset(items[..n])
    {
      var x := items[n];
      assert items[..n + 1] == items[..n] + [x];
      PermutationComparable(less, items[..n], sorted, x);
      var k := Position(less, sorted, x);
      Inserted(less, sorted, x, k);
      sorted := sorted[..k] + [x] + sorted[k..];
    }
    assert items[..|items|] == items;
  }

  /** Where x belongs in a sorted list. */
  function Position<T(!new)>(less: (T, T) -> bool, s: seq<T>, x: T): (k: nat)
    requires Asymmetric(less) && Transitive(less) && Sorted(less, s)
    requires forall y :: y in s ==> less(x, y) || less(y, x)
    ensures k <= |s|
    ensures forall i :: 0 <= i < k ==> less(s[i], x)
    ensures forall i :: k <= i < |s| ==> less(x, s[i])
  {
    if s == [] || less(x, s[0]) then 0 else 1 + Position(less, s[1..], x)
  }
}
