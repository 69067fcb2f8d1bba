/** Query strings for the two full-text engines: prompt text goes in as data, never as operators. */
module QueryText {
  import opened EventStore
  import opened Sequences
  import opened Text
  import opened TextLaws

  // --- SQLite FTS5 -----------------------------------------------------------------------------

  /** Every quote doubled. */
  function Escape(s: string): string {
    if s == "" then "" else (if s[0] == '"' then "\"\"" else [s[0]]) + Escape(s[1..])
  }

  function Quoted(part: string): string {
    "\"" + Escape(part) + "\"*"
  }

  function MatchString(parts: seq<string>): string {
    Join(Transform(Quoted, parts), " OR ")
  }

  /** The loop that quotes the fields in place. */
  method QuoteTerms(query: string) returns (match_: string)
    ensures match_ == MatchString(Fields(TrimSpace(query)))
  {
    var fields := Fields(TrimSpace(query));
    var parts := new string[|fields|](i requires 0 <= i < |fields| => fields[i]);
    for i := 0 to parts.Length
      invariant forall j :: 0 <= j < i ==> parts[j] == Quoted(fields[j])
      invariant forall j :: i <= j < parts.Length ==> parts[j] == fields[j]
    {
      parts[i] := "\"" + Escape(parts[i]) + "\"*";
    }
    assert parts[..] == Transform(Quoted, fields);
    return Join(parts[..], " OR ");
  }

  /** The engine's reading of a string after its opening quote: a doubled quote is a quote, a single one ends it. */
  function Scan(s: string): (r: Option<(string, string)>)
    ensures r.Some? ==> |r.value.1| < |s|
    decreases |s|
  {
    if s == "" then None
    else if s[0] == '"' then
      if |s| > 1 && s[1] == '"' then
        var rest := Scan(s[2..]);
        if rest.None? then None else Some(("\"" + rest.value.0, rest.value.1))
      else Some(("", s[1..]))
    else
      var rest := Scan(s[1..]);
      if rest.None? then None else Some(([s[0]] + rest.value.0, rest.value.1))
  }

  /** The engine's reading of a disjunction of prefix phrases; None for any other query syntax. */
  function ParseMatch(s: string): Option<seq<string>>
    decreases |s|
  {
    if s == "" || s[0] != '"' then None
    else
      var phrase := Scan(s[1..]);
      if phrase.None? || phrase.value.1 == "" || phrase.value.1[0] != '*' then None
      else
        var rest := phrase.value.1[1..];
        if rest == "" then Some([phrase.value.0])
        else if |rest| < 4 || rest[..4] != " OR " then None
        else
          var others := ParseMatch(rest[4..]);
          if others.None? then None else Some([phrase.value.0] + others.value)
  }

  lemma {:induction false} ScanEscaped(part: string, rest: string)
    requires rest == "" || rest[0] != '"'
    ensures Scan(Escape(part) + "\"" + rest) == Some((part, rest))
  {
    var s := Escape(part) + "\"" + rest;
    if part == "" {
      assert s == "\"" + rest && s[1..] == rest;
    } else {
      ScanEscaped(part[1..], rest);
      var tail := Escape(part[1..]) + "\"" + rest;
      assert part == [part[0]] + part[1..];
      if part[0] == '"' {
        assert s == "\"\"" + tail && s[2..] == tail;
      } else {
        assert s == [part[0]] + tail && s[1..] == tail;
      }
    }
  }

  lemma ParseLast(part: string)
    ensures ParseMatch(Quoted(part)) == Some([part])
  {
    ScanEscaped(part, "*");
    assert Quoted(part)[1..] == Escape(part) + "\"" + "*";
    assert "*"[1..] == "";
  }

  lemma ParseFirst(part: string, others: string)
    requires ParseMatch(others).Some?
    ensures ParseMatch(Quoted(part) + " OR " + others) == Some([part] + ParseMatch(others).value)
  {
    var gap := " OR " + others;
    var after := "*" + gap;
    ScanEscaped(part, after);
    assert (Quoted(part) + " OR " + others)[1..] == Escape(part) + "\"" + after;
    assert after[1..] == gap;
    assert gap[..4] == " OR " && gap[4..] == others;
  }

  /** What the engine reads is exactly the list of fields, whatever quotes or operators they contain. */
  lemma {:induction false} MatchStringRoundTrips(parts: seq<string>)
    requires parts != []
    ensures ParseMatch(MatchString(parts)) == Some(parts)
  {
    var quoted := Transform(Quoted, parts);
    if |parts| == 1 {
      ParseLast(parts[0]);
      assert parts == [parts[0]];
    } else {
      MatchStringRoundTrips(parts[1..]);
      assert quoted[1..] == Transform(Quoted, parts[1..]);
      ParseFirst(parts[0], MatchString(parts[1..]));
      assert parts == [parts[0]] + parts[1..];
    }
  }

  lemma TrimmedHasAField(s: string)
    requires s != "" && !IsSpace(s[0])
    ensures Fields(s) != []
  {
  }

  lemma {:induction false} TrimLeftStart(s: string)
    ensures TrimLeft(s) == "" || !IsSpace(TrimLeft(s)[0])
  {
    if s != "" && IsSpace(s[0]) { TrimLeftStart(s[1..]); }
  }

  lemma {:induction false} TrimRightStart(s: string)
    requires s == "" || !IsSpace(s[0])
    ensures TrimRight(s) <= s && (TrimRight(s) == "" || !IsSpace(TrimRight(s)[0]))
  {
    if s != "" && IsSpace(s[|s| - 1]) { TrimRightStart(s[..|s| - 1]); }
  }

  /** For every non-blank query the engine sees a non-empty disjunction of exactly its whitespace fields. */
  lemma QueryRoundTrips(query: string)
    requires TrimSpace(query) != ""
    ensures Fields(TrimSpace(query)) != []
    ensures ParseMatch(MatchString(Fields(TrimSpace(query)))) == Some(Fields(TrimSpace(query)))
  {
    TrimLeftStart(query);
    TrimRightStart(TrimLeft(query));
    TrimmedHasAField(TrimSpace(query));
    MatchStringRoundTrips(Fields(TrimSpace(query)));
  }

  /** Its phrases are exactly the stretches between white space. */
  lemma PhrasesExactly(query: string, x: string)
    requires TrimSpace(query) != ""
    ensures ParseMatch(MatchString(Fields(TrimSpace(query)))).Some?
    ensures x in ParseMatch(MatchString(Fields(TrimSpace(query)))).value <==> IsRun(White, TrimSpace(query), x)
  {
    QueryRoundTrips(query);
    FieldsAreRuns(IsSpace, TrimSpace(query), x);
    RunsAlike(IsSpace, White, TrimSpace(query), x);
  }

  // --- PostgreSQL tsquery ------------------------------------------------------------------------

  predicate IsSeparator(c: char) {
    !('a' <= c <= 'z' || 'A' <= c <= 'Z' || '0' <= c <= '9')
  }

  /** The distinct elements in the order of their first occurrences. */
  function Dedup(parts: seq<string>): (r: seq<string>)
    ensures Distinct(r)
    ensures forall x :: x in r <==> x in parts
  {
    if parts == [] then []
    else
      var before := Dedup(parts[..|parts| - 1]);
      var last := parts[|parts| - 1];
      if last in before then before else before + [last]
  }

  lemma DedupNext(parts: seq<string>, x: string)
    ensures Dedup(parts + [x]) == if x in parts then Dedup(parts) else Dedup(parts) + [x]
  {
    assert (parts + [x])[..|parts|] == parts;
  }

  function Prefixed(term: string): string {
    term + ":*"
  }

  function TSQuery(query: string): string {
    Join(Transform(Prefixed, Dedup(FieldsFunc(IsSeparator, Lower(query)))), " | ")
  }

  method PostgresTSQuery(query: string) returns (r: string)
    ensures r == TSQuery(query)
  {
    var parts := FieldsFunc(IsSeparator, Lower(query));
    var terms: seq<string> := [];
    var seen: set<string> := {};
    for i := 0 to |parts|
      invariant terms == Transform(Prefixed, Dedup(parts[..i]))
      invariant forall x :: x in seen <==> x in parts[..i]
    {
      TakeNext(parts, i);
      DedupNext(parts[..i], parts[i]);
      TransformSnoc(Prefixed, Dedup(parts[..i]), parts[i]);
      if parts[i] != "" && parts[i] !in seen {
        seen := seen + {parts[i]};
        terms := terms + [parts[i] + ":*"];
      }
    }
    assert parts[..|parts|] == parts;
    return Join(terms, " | ");
  }

  /** x is listed before y exactly when its first occurrence is earlier. */
  lemma {:induction false} DedupKeepsFirstOccurrences(parts: seq<string>, i: nat, j: nat)
    requires i < |parts| && j < |parts| && parts[i] !in parts[..i] && parts[j] !in parts[..j] && i < j
    ensures exists p, q :: 0 <= p < q < |Dedup(parts)| && Dedup(parts)[p] == parts[i] && Dedup(parts)[q] == parts[j]
  {
    var n := |parts| - 1;
    var before := Dedup(parts[..n]);
    if j < n {
      assert parts[..n][..i] == parts[..i] && parts[..n][..j] == parts[..j];
      DedupKeepsFirstOccurrences(parts[..n], i, j);
      var p, q :| 0 <= p < q < |before| && before[p] == parts[i] && before[q] == parts[j];
      assert Dedup(parts)[p] == parts[i] && Dedup(parts)[q] == parts[j];
    } else {
      assert parts[i] in parts[..n];
      var p :| 0 <= p < |before| && before[p] == parts[i];
      assert Dedup(parts)[p] == parts[i] && Dedup(parts)[|before|] == parts[j];
    }
  }

  lemma {:induction false} DedupOfDistinct(parts: seq<string>)
    requires Distinct(parts)
    ensures Dedup(parts) == parts
  {
    if parts != [] {
      var n := |parts| - 1;
      DistinctPrefix(parts[..n], parts);
      DedupOfDistinct(parts[..n]);
      assert parts[n] !in parts[..n];
    }
  }

  ghost predicate Word(s: string) {
    s != "" && forall i :: 0 <= i < |s| ==> !IsSeparator(s[i])
  }

  lemma PrintedFirst(terms: seq<string>)
    requires |terms| > 1
    ensures Join(Transform(Prefixed, terms), " | ")
         == terms[0] + ((":*" + " | ") + Join(Transform(Prefixed, terms[1..]), " | "))
  {
    assert Transform(Prefixed, terms)[1..] == Transform(Prefixed, terms[1..]);
  }

  /** Reading a printed query gives back its terms. */
  lemma {:induction false} FieldsOfPrinted(terms: seq<string>)
    requires forall i :: 0 <= i < |terms| ==> Word(terms[i])
    ensures FieldsFunc(IsSeparator, Join(Transform(Prefixed, terms), " | ")) == terms
  {
    if terms != [] {
      var printed := Transform(Prefixed, terms);
      assert Word(terms[0]);
      if |terms| == 1 {
        FieldsOfWord(IsSeparator, terms[0], ":*");
        assert ":*" + "" == ":*";
        FieldsSkip(IsSeparator, ":*", "");
        assert terms == [terms[0]];
      } else {
        var others, gap := Join(Transform(Prefixed, terms[1..]), " | "), ":*" + " | ";
        PrintedFirst(terms);
        FieldsOfWord(IsSeparator, terms[0], gap + others);
        FieldsSkip(IsSeparator, gap, others);
        FieldsOfPrinted(terms[1..]);
        assert terms == [terms[0]] + terms[1..];
      }
    }
  }

  ghost predicate LowerCase(s: string) {
    forall i :: 0 <= i < |s| ==> LowerChar(s[i]) == s[i]
  }

  lemma {:induction false} FieldsAreLowerCase(s: string)
    requires LowerCase(s)
    ensures forall i :: 0 <= i < |FieldsFunc(IsSeparator, s)| ==> LowerCase(FieldsFunc(IsSeparator, s)[i])
    decreases |s|
  {
    if s != "" {
      if IsSeparator(s[0]) {
        FieldsAreLowerCase(s[1..]);
      } else {
        var n := Span(c => !IsSeparator(c), s);
        FieldsAreLowerCase(s[n..]);
      }
    }
  }

  lemma {:induction false} JoinIsLowerCase(parts: seq<string>, separator: string)
    requires LowerCase(separator) && forall i :: 0 <= i < |parts| ==> LowerCase(parts[i])
    ensures LowerCase(Join(parts, separator))
  {
    if |parts| > 1 { JoinIsLowerCase(parts[1..], separator); }
  }

  /** Printing a printed query changes nothing. */
  lemma TSQueryIsIdempotent(query: string)
    ensures TSQuery(TSQuery(query)) == TSQuery(query)
  {
    var parts := FieldsFunc(IsSeparator, Lower(query));
    var terms := Dedup(parts);
    var printed := Transform(Prefixed, terms);
    FieldsAreLowerCase(Lower(query));
    forall i | 0 <= i < |terms| ensures Word(terms[i]) && LowerCase(terms[i]) && LowerCase(printed[i]) {
      assert terms[i] in parts;
      var k :| 0 <= k < |parts| && parts[k] == terms[i];
    }
    JoinIsLowerCase(printed, " | ");
    assert Lower(TSQuery(query)) == TSQuery(query);
    FieldsOfPrinted(terms);
    DedupOfDistinct(terms);
  }

  /** The terms of the printed query are distinct and are exactly the words of the prompt. */
  lemma TSQueryTermsExact(query: string)
    ensures var terms := FieldsFunc(IsSeparator, TSQuery(query));
      Distinct(terms) && (forall x :: x in terms <==> x in FieldsFunc(IsSeparator, Lower(query)))
        && terms == Dedup(FieldsFunc(IsSeparator, Lower(query)))
  {
    var parts := FieldsFunc(IsSeparator, Lower(query));
    forall i | 0 <= i < |Dedup(parts)| ensures Word(Dedup(parts)[i]) {
      assert Dedup(parts)[i] in parts;
    }
    FieldsOfPrinted(Dedup(parts));
  }

  predicate LetterOrDigit(c: char) {
    'a' <= c <= 'z' || 'A' <= c <= 'Z' || '0' <= c <= '9'
  }

  /**
   The query joins distinct terms, each with the prefix mark; x is one of them exactly when it is a stretch of letters
   and digits of the prompt in lower case that no letter or digit borders on.
   */
  lemma TSQueryExactly(query: string, x: string) returns (terms: seq<string>)
    ensures TSQuery(query) == Join(Transform((term: string) => term + ":*", terms), " | ") && Distinct(terms)
    ensures x in terms <==> exists i: nat, j: nat | i < j <= |query| && x == Lower(query)[i..j] ::
      && (forall k :: i <= k < j ==> LetterOrDigit(Lower(query)[k]))
      && (i == 0 || !LetterOrDigit(Lower(query)[i - 1])) && (j == |query| || !LetterOrDigit(Lower(query)[j]))
  {
    var lower, separator := Lower(query), (c: char) => !LetterOrDigit(c);
    terms := Dedup(FieldsFunc(IsSeparator, lower));
    assert Transform(Prefixed, terms) == Transform((term: string) => term + ":*", terms);
    FieldsAreRuns(IsSeparator, lower, x);
    RunsAlike(IsSeparator, separator, lower, x);
    if x in terms {
      var i: nat, j: nat :| MaximalRun(separator, lower, i, j) && x == lower[i..j];
      assert i < j <= |query| && x == lower[i..j];
    }
    forall i: nat, j: nat | i < j <= |query| && x == lower[i..j]
      ensures MaximalRun(separator, lower, i, j) ==> x in terms
    {
    }
  }
}
