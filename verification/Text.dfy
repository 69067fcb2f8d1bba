/** Strings: ASCII case folding, substring search, whitespace fields. */
module Text {

  function LowerChar(c: char): char {
    if 'A' <= c <= 'Z' then c - 'A' + 'a' else c
  }

  function Lower(s: string): (r: string)
    ensures |r| == |s|
    ensures forall i :: 0 <= i < |s| ==> r[i] == LowerChar(s[i])
  {
    seq(|s|, i requires 0 <= i < |s| => LowerChar(s[i]))
  }

  /** strings.EqualFold on ASCII. */
  predicate EqualFold(a: string, b: string) {
    Lower(a) == Lower(b)
  }

  predicate OccursAt(s: string, part: string, i: nat) {
    i + |part| <= |s| && s[i..i + |part|] == part
  }

  predicate Contains(s: string, part: string) {
    exists i :: 0 <= i <= |s| && OccursAt(s, part, i)
  }

  predicate IsSpace(c: char) {
    c == ' ' || c == '\t' || c == '\n' || c == '\r' || c == 11 as char || c == 12 as char
  }

  function TrimLeft(s: string): string {
    if s != "" && IsSpace(s[0]) then TrimLeft(s[1..]) else s
  }

  function TrimRight(s: string): string {
    if s != "" && IsSpace(s[|s| - 1]) then TrimRight(s[..|s| - 1]) else s
  }

  function TrimSpace(s: string): string {
    TrimRight(TrimLeft(s))
  }

  /** Case folding and trimming commute, since no letter is a space. */
  lemma {:induction false} LowerTrimLeft(s: string)
    ensures Lower(TrimLeft(s)) == TrimLeft(Lower(s))
  {
    if s != "" && IsSpace(s[0]) {
      LowerTrimLeft(s[1..]);
      assert Lower(s)[1..] == Lower(s[1..]);
    }
  }

  lemma {:induction false} LowerTrimRight(s: string)
    ensures Lower(TrimRight(s)) == TrimRight(Lower(s))
  {
    if s != "" && IsSpace(s[|s| - 1]) {
      LowerTrimRight(s[..|s| - 1]);
      assert Lower(s)[..|s| - 1] == Lower(s[..|s| - 1]);
    }
  }

  lemma LowerTrim(s: string)
    ensures Lower(TrimSpace(s)) == TrimSpace(Lower(s))
  {
    LowerTrimLeft(s);
    LowerTrimRight(TrimLeft(s));
  }

  // --- Splitting -------------------------------------------------------------------------------

  /** How many leading characters satisfy p. */
  function Span(p: char -> bool, s: string): (n: nat)
    ensures n <= |s|
    ensures forall i :: 0 <= i < n ==> p(s[i])
    ensures n < |s| ==> !p(s[n])
  {
    if s != "" && p(s[0]) then 1 + Span(p, s[1..]) else 0
  }

  /** strings.FieldsFunc: the maximal runs of characters that are not separators. */
  function FieldsFunc(separator: char -> bool, s: string): (fields: seq<string>)
    ensures forall i :: 0 <= i < |fields| ==>
      fields[i] != "" && forall j :: 0 <= j < |fields[i]| ==> !separator(fields[i][j])
    decreases |s|
  {
    if s == "" then []
    else if separator(s[0]) then FieldsFunc(separator, s[1..])
    else
      var n := Span(c => !separator(c), s);
      [s[..n]] + FieldsFunc(separator, s[n..])
  }

  function Fields(s: string): seq<string> {
    FieldsFunc(IsSpace, s)
  }

  function Join(parts: seq<string>, separator: string): string {
    if parts == [] then ""
    else if |parts| == 1 then parts[0]
    else parts[0] + separator + Join(parts[1..], separator)
  }

  lemma SpanExact(p: char -> bool, word: string, rest: string)
    requires forall i :: 0 <= i < |word| ==> p(word[i])
    requires rest != "" ==> !p(rest[0])
    ensures Span(p, word + rest) == |word|
  {
    assert forall i :: 0 <= i < |word| ==> (word + rest)[i] == word[i];
    assert rest != "" ==> (word + rest)[|word|] == rest[0];
  }

  /** A word followed by the end or by a separator is the first field. */
  lemma FieldsOfWord(separator: char -> bool, word: string, rest: string)
    requires word != "" && forall i :: 0 <= i < |word| ==> !separator(word[i])
    requires rest != "" ==> separator(rest[0])
    ensures FieldsFunc(separator, word + rest) == [word] + FieldsFunc(separator, rest)
  {
    var s := word + rest;
    SpanExact(c => !separator(c), word, rest);
    assert s[0] == word[0];
    assert s[..|word|] == word && s[|word|..] == rest;
  }

  /** Leading separators do not matter. */
  lemma {:induction false} FieldsSkip(separator: char -> bool, gap: string, rest: string)
    requires forall i :: 0 <= i < |gap| ==> separator(gap[i])
    ensures FieldsFunc(separator, gap + rest) == FieldsFunc(separator, rest)
  {
    if gap == "" {
      assert gap + rest == rest;
    } else {
      assert (gap + rest)[1..] == gap[1..] + rest;
      FieldsSkip(separator, gap[1..], rest);
    }
  }
}
