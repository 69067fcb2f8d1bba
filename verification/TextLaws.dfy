/** What the string functions mean: for every string, without the functions they are built from. */
module TextLaws {
  import opened Text

  /** Capital letters become small ones, nothing else changes. */
  lemma LowerExactly(s: string, i: nat)
    requires i < |s|
    ensures |Lower(s)| == |s|
    ensures Lower(s)[i] as int == s[i] as int + if 'A' <= s[i] <= 'Z' then 32 else 0
  {
    assert 'a' as int - 'A' as int == 32;
  }

  predicate White(c: char) {
    c == ' ' || c == '\t' || c == '\n' || c == '\r' || c as int == 11 || c as int == 12
  }

  ghost predicate Blank(s: string) {
    forall i :: 0 <= i < |s| ==> White(s[i])
  }

  lemma {:induction false} TrimLeftExactly(s: string) returns (left: string)
    ensures s == left + TrimLeft(s) && Blank(left) && (TrimLeft(s) == "" || !White(TrimLeft(s)[0]))
  {
    left := "";
    if s != "" {
      if IsSpace(s[0]) {
        var rest := TrimLeftExactly(s[1..]);
        left := [s[0]] + rest;
        assert s == [s[0]] + s[1..];
      }
    }
  }

  lemma {:induction false} TrimRightExactly(s: string) returns (right: string)
    ensures s == TrimRight(s) + right && Blank(right)
    ensures TrimRight(s) == "" || !White(TrimRight(s)[|TrimRight(s)| - 1])
  {
    right := "";
    if s != "" {
      var n := |s| - 1;
      if IsSpace(s[n]) {
        var rest := TrimRightExactly(s[..n]);
        right := rest + [s[n]];
        assert s == s[..n] + [s[n]];
      }
    }
  }

  /** Exactly the leading and the trailing white space go. */
  lemma TrimSpaceExactly(s: string) returns (left: string, right: string)
    ensures s == left + TrimSpace(s) + right && Blank(left) && Blank(right)
    ensures TrimSpace(s) != "" ==> !White(TrimSpace(s)[0]) && !White(TrimSpace(s)[|TrimSpace(s)| - 1])
  {
    left := TrimLeftExactly(s);
    right := TrimRightExactly(TrimLeft(s));
    assert TrimLeft(s) == TrimSpace(s) + right;
    if TrimSpace(s) != "" { assert TrimSpace(s)[0] == TrimLeft(s)[0]; }
    assert s == left + TrimSpace(s) + right;
  }

  lemma ContainsExactly(s: string, part: string)
    ensures Contains(s, part) <==> exists before, after :: s == before + part + after
  {
    if Contains(s, part) {
      var i :| 0 <= i <= |s| && OccursAt(s, part, i);
      assert s == s[..i] + part + s[i + |part|..];
    }
    if before, after :| s == before + part + after {
      assert OccursAt(s, part, |before|);
    }
  }

  /** A stretch of s without separators that cannot be extended in either direction. */
  ghost predicate MaximalRun(separator: char -> bool, s: string, i: nat, j: nat) {
    && i < j <= |s| && (forall k :: i <= k < j ==> !separator(s[k]))
    && (i == 0 || separator(s[i - 1])) && (j == |s| || separator(s[j]))
  }

  ghost predicate IsRun(separator: char -> bool, s: string, w: string) {
    exists i: nat, j: nat :: MaximalRun(separator, s, i, j) && w == s[i..j]
  }

  lemma RunsAfterSeparator(separator: char -> bool, s: string, w: string)
    requires s != "" && separator(s[0])
    ensures IsRun(separator, s, w) <==> IsRun(separator, s[1..], w)
  {
    if IsRun(separator, s, w) {
      var i: nat, j: nat :| MaximalRun(separator, s, i, j) && w == s[i..j];
      assert s[1..][i - 1..j - 1] == s[i..j];
      assert MaximalRun(separator, s[1..], i - 1, j - 1);
    }
    if IsRun(separator, s[1..], w) {
      var i: nat, j: nat :| MaximalRun(separator, s[1..], i, j) && w == s[1..][i..j];
      assert s[1..][i..j] == s[i + 1..j + 1];
      assert MaximalRun(separator, s, i + 1, j + 1);
    }
  }

  ghost predicate FirstWord(separator: char -> bool, s: string, n: nat) {
    0 < n <= |s| && (forall k :: 0 <= k < n ==> !separator(s[k])) && (n < |s| ==> separator(s[n]))
  }

  lemma RunIsWordOrLater(separator: char -> bool, s: string, n: nat, i: nat, j: nat)
    requires FirstWord(separator, s, n) && MaximalRun(separator, s, i, j)
    ensures (i == 0 && j == n) || (i >= n && MaximalRun(separator, s[n..], i - n, j - n))
  {
  }

  lemma LaterRun(separator: char -> bool, s: string, n: nat, i: nat, j: nat)
    requires FirstWord(separator, s, n) && MaximalRun(separator, s[n..], i, j)
    ensures MaximalRun(separator, s, i + n, j + n)
  {
    assert !separator(s[n..][i]);
    forall k | i + n <= k < j + n ensures !separator(s[k]) { assert s[k] == s[n..][k - n]; }
  }

  lemma RunsAfterWord(separator: char -> bool, s: string, n: nat, w: string)
    requires FirstWord(separator, s, n)
    ensures IsRun(separator, s, w) <==> w == s[..n] || IsRun(separator, s[n..], w)
  {
    if IsRun(separator, s, w) {
      var i: nat, j: nat :| MaximalRun(separator, s, i, j) && w == s[i..j];
      RunIsWordOrLater(separator, s, n, i, j);
      if i >= n { assert s[n..][i - n..j - n] == s[i..j]; }
    }
    if w == s[..n] { assert MaximalRun(separator, s, 0, n) && w == s[0..n]; }
    if IsRun(separator, s[n..], w) {
      var i: nat, j: nat :| MaximalRun(separator, s[n..], i, j) && w == s[n..][i..j];
      LaterRun(separator, s, n, i, j);
      assert s[n..][i..j] == s[i + n..j + n];
    }
  }

  /** The fields of a string are exactly its maximal runs of characters that are no separators. */
  lemma {:induction false} FieldsAreRuns(separator: char -> bool, s: string, w: string)
    ensures w in FieldsFunc(separator, s) <==> IsRun(separator, s, w)
    decreases |s|
  {
    if s == "" {
    } else if separator(s[0]) {
      RunsAfterSeparator(separator, s, w);
      FieldsAreRuns(separator, s[1..], w);
    } else {
      var n := Span(c => !separator(c), s);
      assert forall k :: 0 <= k < n ==> !separator(s[k]);
      RunsAfterWord(separator, s, n, w);
      FieldsAreRuns(separator, s[n..], w);
    }
  }

  lemma RunsAlike(p: char -> bool, q: char -> bool, s: string, w: string)
    requires forall c :: p(c) <==> q(c)
    ensures IsRun(p, s, w) <==> IsRun(q, s, w)
  {
    if IsRun(p, s, w) {
      var i: nat, j: nat :| MaximalRun(p, s, i, j) && w == s[i..j];
      assert MaximalRun(q, s, i, j);
    }
    if IsRun(q, s, w) {
      var i: nat, j: nat :| MaximalRun(q, s, i, j) && w == s[i..j];
      assert MaximalRun(p, s, i, j);
    }
  }

  /** Joining puts the separator between the parts and nothing else anywhere. */
  lemma {:induction false} JoinExactly(parts: seq<string>, separator: string, last: string)
    ensures Join([], separator) == "" && Join([last], separator) == last
    ensures parts != [] ==> Join(parts + [last], separator) == Join(parts, separator) + separator + last
  {
    if parts != [] {
      assert (parts + [last])[1..] == parts[1..] + [last];
      JoinExactly(parts[1..], separator, last);
      assert parts[1..] == [] ==> (parts + [last])[1..] == [last];
    }
  }
}
