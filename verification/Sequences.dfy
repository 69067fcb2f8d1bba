/** Facts about finite sequences that several components share. */
module Sequences {

  /** The elements of s that satisfy p, in order. */
  function Filter<T(!new)>(p: T -> bool, s: seq<T>): (r: seq<T>)
    ensures |r| <= |s|
  {
    if s == [] then []
    else
      var n := |s| - 1;
      Filter(p, s[..n]) + if p(s[n]) then [s[n]] else []
  }

  lemma {:induction false} FilterMembers<T(!new)>(p: T -> bool, s: seq<T>)
    ensures forall x :: x in Filter(p, s) <==> x in s && p(x)
  {
    if s != [] {
      var n := |s| - 1;
      FilterMembers(p, s[..n]);
      assert s == s[..n] + [s[n]];
    }
  }

  lemma {:induction false} FilterAll<T(!new)>(p: T -> bool, s: seq<T>)
    requires forall x :: x in s ==> p(x)
    ensures Filter(p, s) == s
  {
    if s != [] {
      var n := |s| - 1;
      assert s == s[..n] + [s[n]];
      assert p(s[n]);
      FilterAll(p, s[..n]);
    }
  }

  lemma {:induction false} FilterNone<T(!new)>(p: T -> bool, s: seq<T>)
    requires forall x :: x in s ==> !p(x)
    ensures Filter(p, s) == []
  {
    if s != [] { FilterNone(p, s[..|s| - 1]); }
  }

  /** Filtering by a weaker condition first makes no difference. */
  lemma {:induction false} FilterTwice<T(!new)>(p: T -> bool, q: T -> bool, s: seq<T>)
    requires forall x :: p(x) ==> q(x)
    ensures Filter(p, Filter(q, s)) == Filter(p, s)
  {
    if s != [] {
      var before, x := s[..|s| - 1], s[|s| - 1];
      FilterTwice(p, q, before);
      if q(x) {
        assert Filter(q, s) == Filter(q, before) + [x];
        assert (Filter(q, before) + [x])[..|Filter(q, before)|] == Filter(q, before);
      } else {
        assert Filter(q, s) == Filter(q, before);
      }
    }
  }

  /** f applied to every element of s. */
  function Transform<A, B>(f: A -> B, s: seq<A>): (r: seq<B>)
    ensures |r| == |s|
    ensures forall i :: 0 <= i < |s| ==> r[i] == f(s[i])
  {
    seq(|s|, i requires 0 <= i < |s| => f(s[i]))
  }

  lemma TakeNext<T>(s: seq<T>, i: nat)
    requires i < |s|
    ensures s[..i + 1] == s[..i] + [s[i]]
  {
  }

  ghost predicate Distinct<T(!new)>(s: seq<T>) {
    forall i, j :: 0 <= i < j < |s| ==> s[i] != s[j]
  }

  lemma FilterSnoc<T(!new)>(p: T -> bool, s: seq<T>, x: T)
    ensures Filter(p, s + [x]) == Filter(p, s) + if p(x) then [x] else []
  {
    assert (s + [x])[..|s|] == s;
  }

  lemma {:induction false} FilterAppend<T(!new)>(p: T -> bool, s: seq<T>, t: seq<T>)
    ensures Filter(p, s + t) == Filter(p, s) + Filter(p, t)
  {
    if t == [] {
      assert s + t == s;
    } else {
      var n := |t| - 1;
      var last := if p(t[n]) then [t[n]] else [];
      calc {
        Filter(p, s + t);
        { assert s + t == (s + t[..n]) + [t[n]]; FilterSnoc(p, s + t[..n], t[n]); }
        Filter(p, s + t[..n]) + last;
        { FilterAppend(p, s, t[..n]); }
        Filter(p, s) + Filter(p, t[..n]) + last;
        Filter(p, s) + (Filter(p, t[..n]) + last);
        Filter(p, s) + Filter(p, t);
      }
    }
  }

  /** How many elements survive a filter does not depend on their order. */
  lemma FilterPermutation<T(!new)>(p: T -> bool, s: seq<T>, t: seq<T>)
    requires multiset(s) == multiset(t)
    ensures multiset(Filter(p, s)) == multiset(Filter(p, t))
    ensures |Filter(p, s)| == |Filter(p, t)|
  {
    FilterMultiplicity(p, s);
    FilterMultiplicity(p, t);
    assert |Filter(p, s)| == |multiset(Filter(p, s))|;
    assert |Filter(p, t)| == |multiset(Filter(p, t))|;
  }

  lemma {:induction false} FilterMultiplicity<T(!new)>(p: T -> bool, s: seq<T>)
    ensures forall x :: multiset(Filter(p, s))[x] == if p(x) then multiset(s)[x] else 0
  {
    if s != [] {
      var n := |s| - 1;
      assert s == s[..n] + [s[n]];
      FilterMultiplicity(p, s[..n]);
    }
  }

  lemma {:induction false} DistinctMultiplicity<T(!new)>(s: seq<T>)
    requires Distinct(s)
    ensures forall x :: multiset(s)[x] == if x in s then 1 else 0
  {
    if s != [] {
      var n := |s| - 1;
      assert s == s[..n] + [s[n]];
      assert s[n] !in s[..n];
      DistinctMultiplicity(s[..n]);
    }
  }

  lemma {:induction false} FilterDistinct<T(!new)>(p: T -> bool, s: seq<T>)
    requires Distinct(s)
    ensures Distinct(Filter(p, s))
  {
    if s != [] {
      var n := |s| - 1;
      FilterDistinct(p, s[..n]);
      FilterMembers(p, s[..n]);
      assert s[n] !in s[..n];
    }
  }

  lemma DistinctPrefix<T(!new)>(s: seq<T>, t: seq<T>)
    requires s <= t && Distinct(t)
    ensures Distinct(s)
  {
    forall i, j | 0 <= i < j < |s| ensures s[i] != s[j] {
      assert s[i] == t[i] && s[j] == t[j];
    }
  }

  /** Duplicate-free elements drawn from t fit into t, and fill it only when they are as many. */
  lemma DistinctInside<T(!new)>(s: seq<T>, t: seq<T>)
    requires Distinct(s) && forall x :: x in s ==> x in t
    ensures multiset(s) <= multiset(t)
    ensures |s| <= |t|
    ensures |s| == |t| ==> multiset(s) == multiset(t)
  {
    DistinctMultiplicity(s);
    var rest := multiset(t) - multiset(s);
    assert multiset(t) == multiset(s) + rest;
    assert |multiset(t)| == |multiset(s)| + |rest|;
  }

  lemma PermutationDistinct<T(!new)>(s: seq<T>, t: seq<T>)
    requires multiset(s) == multiset(t) && Distinct(s)
    ensures Distinct(t)
    ensures |s| == |t|
    ensures forall x :: x in s <==> x in t
  {
    DistinctMultiplicity(s);
    assert |s| == |multiset(s)| == |multiset(t)| == |t|;
    forall x ensures x in s <==> x in t {
      assert x in s <==> x in multiset(s);
      assert x in t <==> x in multiset(t);
    }
    forall i, j | 0 <= i < j < |t| ensures t[i] != t[j] {
      assert t == t[..j] + [t[j]] + t[j + 1..];
      assert multiset(t)[t[j]] == 1;
      assert multiset(t[..j])[t[j]] == 0;
      assert t[i] in t[..j];
    }
  }

  /** A change that the condition does not see can come before or after filtering. */
  lemma {:induction false} FilterTransform<T(!new)>(p: T -> bool, f: T -> T, s: seq<T>)
    requires forall x :: p(f(x)) == p(x)
    ensures Filter(p, Transform(f, s)) == Transform(f, Filter(p, s))
  {
    if s != [] {
      var before, x := s[..|s| - 1], s[|s| - 1];
      FilterTransform(p, f, before);
      assert s == before + [x];
      TransformSnoc(f, before, x);
      FilterSnoc(p, Transform(f, before), f(x));
      FilterSnoc(p, before, x);
      TransformSnoc(f, Filter(p, before), x);
    }
  }

  lemma TransformNothing<T(!new)>(f: T -> T, s: seq<T>)
    requires forall x :: x in s ==> f(x) == x
    ensures Transform(f, s) == s
  {
  }

  lemma TransformSnoc<A, B>(f: A -> B, s: seq<A>, x: A)
    ensures Transform(f, s + [x]) == Transform(f, s) + [f(x)]
  {
  }

  lemma TransformRemove<A, B>(f: A -> B, t: seq<A>, i: nat)
    requires i < |t|
    ensures multiset(Transform(f, t)) == multiset(Transform(f, t[..i] + t[i + 1..])) + multiset{f(t[i])}
  {
    var ft, fr := Transform(f, t), Transform(f, t[..i] + t[i + 1..]);
    assert ft == ft[..i] + [ft[i]] + ft[i + 1..];
    assert fr == fr[..i] + fr[i..];
    assert fr[..i] == ft[..i];
    assert fr[i..] == ft[i + 1..];
  }

  lemma ElementRemove<A(!new)>(t: seq<A>, i: nat)
    requires i < |t|
    ensures multiset(t) == multiset(t[..i] + t[i + 1..]) + multiset{t[i]}
  {
    assert t == t[..i] + [t[i]] + t[i + 1..];
  }

  lemma {:induction false} TransformPermutation<A(!new), B>(f: A -> B, s: seq<A>, t: seq<A>)
    requires multiset(s) == multiset(t)
    ensures multiset(Transform(f, s)) == multiset(Transform(f, t))
    decreases |s|
  {
    if s == [] {
      assert |t| == |multiset(t)| == |multiset(s)| == 0;
    } else {
      var i := RestsAreEqual(s, t);
      TransformPermutation(f, s[1..], t[..i] + t[i + 1..]);
      TransformFirst(f, s);
      TransformRemove(f, t, i);
    }
  }

  /** Taking one element out of two permutations leaves permutations. */
  lemma RestsAreEqual<A(!new)>(s: seq<A>, t: seq<A>) returns (i: nat)
    requires multiset(s) == multiset(t) && s != []
    ensures i < |t| && t[i] == s[0] && multiset(s[1..]) == multiset(t[..i] + t[i + 1..])
  {
    assert s[0] in multiset(t);
    i :| 0 <= i < |t| && t[i] == s[0];
    ElementRemove(t, i);
    assert s == [s[0]] + s[1..];
    forall x ensures multiset(s[1..])[x] == multiset(t[..i] + t[i + 1..])[x] {
      assert multiset(s)[x] == multiset([s[0]])[x] + multiset(s[1..])[x];
    }
  }

  lemma TransformFirst<A, B>(f: A -> B, s: seq<A>)
    requires s != []
    ensures multiset(Transform(f, s)) == multiset(Transform(f, s[1..])) + multiset{f(s[0])}
  {
    assert Transform(f, s) == [f(s[0])] + Transform(f, s[1..]);
  }

  lemma {:induction false} BoundedSet(s: set<nat>, n: nat)
    requires forall x :: x in s ==> x < n
    ensures |s| <= n
  {
    if n == 0 {
      assert s == {};
    } else {
      BoundedSet(s - {n - 1}, n - 1);
    }
  }
}
