/**
 Timestamps as text. Instants are stored in the layout of RFC 3339 with a nanosecond fraction whose trailing
 zeros are dropped, always in UTC, and the database compares them as strings.
 */
module TimeText {
  import opened EventStore
  import opened Ordering
  import opened Sequences

  /** An instant by its UTC calendar fields. */
  datatype Instant = Instant(year: nat, month: nat, day: nat, hour: nat, minute: nat, second: nat, nanos: nat) {
    ghost predicate Valid() {
      year < 10000 && month < 100 && day < 100 && hour < 100 && minute < 100 && second < 100 && nanos < 1000000000
    }
  }

  /** A number in a field of fixed width, followed by a fixed character. */
  datatype Field = Field(width: nat, value: nat, closing: char)

  function FieldsOf(t: Instant): seq<Field> {
    [Field(4, t.year, '-'), Field(2, t.month, '-'), Field(2, t.day, 'T'), Field(2, t.hour, ':'),
      Field(2, t.minute, ':')]
  }

  function Digit(n: nat): char
    requires n < 10
  {
    '0' + n as char
  }

  /** The number in decimal, left-padded with zeros. */
  function Pad(width: nat, n: nat): (r: string)
    ensures |r| == width
  {
    if width == 0 then "" else Pad(width - 1, n / 10) + [Digit(n % 10)]
  }

  function FieldsText(fields: seq<Field>): string {
    if fields == [] then "" else Pad(fields[0].width, fields[0].value) + [fields[0].closing] + FieldsText(fields[1..])
  }

  /** The text up to the second. */
  function Stamp(t: Instant): string {
    FieldsText(FieldsOf(t)) + Pad(2, t.second)
  }

  function TrimZeros(digits: string): string {
    if digits == "" then ""
    else
      var rest := TrimZeros(digits[1..]);
      if rest == "" && digits[0] == '0' then "" else [digits[0]] + rest
  }

  /** The digits of the fraction without trailing zeros. */
  function Fraction(t: Instant): string {
    TrimZeros(Pad(9, t.nanos))
  }

  function Tail(fraction: string): string {
    (if fraction == "" then "" else "." + fraction) + "Z"
  }

  function Text(t: Instant): string {
    Stamp(t) + Tail(Fraction(t))
  }

  // --- Time order ------------------------------------------------------------------------------

  predicate FieldsEarlier(a: seq<Field>, b: seq<Field>)
    requires |a| == |b|
  {
    a != [] && (a[0].value < b[0].value || (a[0].value == b[0].value && FieldsEarlier(a[1..], b[1..])))
  }

  predicate SameSecond(a: Instant, b: Instant) {
    FieldsOf(a) == FieldsOf(b) && a.second == b.second
  }

  predicate Earlier(a: Instant, b: Instant) {
    || FieldsEarlier(FieldsOf(a), FieldsOf(b))
    || (FieldsOf(a) == FieldsOf(b) && a.second < b.second)
    || (SameSecond(a, b) && a.nanos < b.nanos)
  }

  /** The larger unit decides before the smaller one. */
  lemma EarlierExactly(a: Instant, b: Instant)
    ensures Earlier(a, b) <==>
      || a.year < b.year
      || (a.year == b.year && a.month < b.month)
      || (a.year == b.year && a.month == b.month && a.day < b.day)
      || (a.year == b.year && a.month == b.month && a.day == b.day && a.hour < b.hour)
      || (a.year == b.year && a.month == b.month && a.day == b.day && a.hour == b.hour && a.minute < b.minute)
      || (a.year == b.year && a.month == b.month && a.day == b.day && a.hour == b.hour && a.minute == b.minute
          && (a.second < b.second || (a.second == b.second && a.nanos < b.nanos)))
    ensures SameSecond(a, b) <==> a == b.(nanos := a.nanos)
  {
    var f, g := FieldsOf(a), FieldsOf(b);
    FieldsEarlierFive(f, g);
    assert f == g <==> f[0] == g[0] && f[1] == g[1] && f[2] == g[2] && f[3] == g[3] && f[4] == g[4];
  }

  lemma FieldsEarlierNext(a: seq<Field>, b: seq<Field>, i: nat)
    requires |a| == |b| && i < |a|
    ensures FieldsEarlier(a[i..], b[i..]) <==>
      a[i].value < b[i].value || (a[i].value == b[i].value && FieldsEarlier(a[i + 1..], b[i + 1..]))
  {
    assert a[i..][1..] == a[i + 1..] && b[i..][1..] == b[i + 1..];
  }

  lemma FieldsEarlierFive(a: seq<Field>, b: seq<Field>)
    requires |a| == |b| == 5
    ensures FieldsEarlier(a, b) <==>
      || a[0].value < b[0].value
      || (a[0].value == b[0].value && a[1].value < b[1].value)
      || (a[0].value == b[0].value && a[1].value == b[1].value && a[2].value < b[2].value)
      || (a[0].value == b[0].value && a[1].value == b[1].value && a[2].value == b[2].value && a[3].value < b[3].value)
      || (a[0].value == b[0].value && a[1].value == b[1].value && a[2].value == b[2].value && a[3].value == b[3].value
          && a[4].value < b[4].value)
  {
    assert a[0..] == a && b[0..] == b && a[5..] == [] && b[5..] == [];
    FieldsEarlierNext(a, b, 0);
    FieldsEarlierNext(a, b, 1);
    FieldsEarlierNext(a, b, 2);
    FieldsEarlierNext(a, b, 3);
    FieldsEarlierNext(a, b, 4);
  }

  /** Both in one second, and the digits of a start the longer digits of b. */
  predicate Reversed(a: Instant, b: Instant) {
    SameSecond(a, b) && Fraction(a) < Fraction(b)
  }

  // --- Fixed-width fields ----------------------------------------------------------------------

  /** The first of two equally long parts decides, unless they are equal. */
  lemma {:induction false} TextLessAppend(p: string, q: string, s: string, t: string)
    requires |p| == |q|
    ensures TextLess(p + s, q + t) <==> TextLess(p, q) || (p == q && TextLess(s, t))
  {
    if p == "" {
      assert p + s == s && q + t == t;
    } else {
      assert (p + s)[0] == p[0] && (q + t)[0] == q[0];
      assert (p + s)[1..] == p[1..] + s && (q + t)[1..] == q[1..] + t;
      assert p == [p[0]] + p[1..] && q == [q[0]] + q[1..];
      TextLessAppend(p[1..], q[1..], s, t);
    }
  }

  function Power10(n: nat): (r: nat)
    ensures r >= 1
  {
    if n == 0 then 1 else 10 * Power10(n - 1)
  }

  lemma TextLessChars(c: char, d: char)
    ensures TextLess([c], [d]) <==> c < d
  {
    assert [c][1..] == "" && [d][1..] == "";
  }

  /** In a fixed width, text order is numeric order. */
  lemma {:induction false} PadOrder(width: nat, a: nat, b: nat)
    requires a < Power10(width) && b < Power10(width)
    ensures TextLess(Pad(width, a), Pad(width, b)) <==> a < b
    ensures Pad(width, a) == Pad(width, b) <==> a == b
  {
    if width > 0 {
      var p, q := Pad(width - 1, a / 10), Pad(width - 1, b / 10);
      PadOrder(width - 1, a / 10, b / 10);
      TextLessAppend(p, q, [Digit(a % 10)], [Digit(b % 10)]);
      TextLessChars(Digit(a % 10), Digit(b % 10));
      assert Pad(width, a)[..width - 1] == p && Pad(width, b)[..width - 1] == q;
      assert Pad(width, a)[width - 1] == Digit(a % 10) && Pad(width, b)[width - 1] == Digit(b % 10);
    }
  }

  ghost predicate SameLayout(a: seq<Field>, b: seq<Field>) {
    |a| == |b| && forall i :: 0 <= i < |a| ==>
      a[i].width == b[i].width && a[i].closing == b[i].closing && a[i].value < Power10(a[i].width)
        && b[i].value < Power10(a[i].width)
  }

  lemma {:induction false} FieldsOrder(a: seq<Field>, b: seq<Field>)
    requires SameLayout(a, b)
    ensures |FieldsText(a)| == |FieldsText(b)|
    ensures TextLess(FieldsText(a), FieldsText(b)) <==> FieldsEarlier(a, b)
    ensures FieldsText(a) == FieldsText(b) <==> a == b
  {
    if a != [] {
      FieldsOrder(a[1..], b[1..]);
      FirstFieldOrder(a[0], b[0], FieldsText(a[1..]), FieldsText(b[1..]));
      assert a == [a[0]] + a[1..] && b == [b[0]] + b[1..];
    }
  }

  lemma FirstFieldOrder(f: Field, g: Field, s: string, t: string)
    requires f.width == g.width && f.closing == g.closing && f.value < Power10(f.width) && g.value < Power10(f.width)
    requires |s| == |t|
    ensures TextLess(Pad(f.width, f.value) + [f.closing] + s, Pad(g.width, g.value) + [g.closing] + t)
      <==> f.value < g.value || (f.value == g.value && TextLess(s, t))
    ensures Pad(f.width, f.value) + [f.closing] + s == Pad(g.width, g.value) + [g.closing] + t <==> f == g && s == t
  {
    PadOrder(f.width, f.value, g.value);
    var p, q, c := Pad(f.width, f.value), Pad(g.width, g.value), [f.closing];
    assert p + c + s == p + (c + s) && q + c + t == q + (c + t);
    TextLessAppend(p, q, c + s, c + t);
    TextLessPrefix(c, s, t);
    SplitEqual(p, q, c + s, c + t);
    SplitEqual(c, c, s, t);
  }

  lemma SplitEqual(p: string, q: string, s: string, t: string)
    requires |p| == |q|
    ensures p + s == q + t <==> p == q && s == t
  {
    assert (p + s)[..|p|] == p && (p + s)[|p|..] == s;
    assert (q + t)[..|q|] == q && (q + t)[|q|..] == t;
  }

  lemma StampOrder(a: Instant, b: Instant)
    requires a.Valid() && b.Valid()
    ensures |Stamp(a)| == |Stamp(b)|
    ensures TextLess(Stamp(a), Stamp(b)) <==>
      FieldsEarlier(FieldsOf(a), FieldsOf(b)) || (FieldsOf(a) == FieldsOf(b) && a.second < b.second)
    ensures Stamp(a) == Stamp(b) <==> SameSecond(a, b)
  {
    var f, g := FieldsOf(a), FieldsOf(b);
    assert Power10(2) == 100 && Power10(4) == 10000;
    FieldsOrder(f, g);
    PadOrder(2, a.second, b.second);
    TextLessAppend(FieldsText(f), FieldsText(g), Pad(2, a.second), Pad(2, b.second));
    SplitEqual(FieldsText(f), FieldsText(g), Pad(2, a.second), Pad(2, b.second));
  }

  // --- Fractions -------------------------------------------------------------------------------

  ghost predicate AllDigits(s: string) {
    forall i :: 0 <= i < |s| ==> '0' <= s[i] <= '9'
  }

  lemma {:induction false} PadDigits(width: nat, n: nat)
    ensures AllDigits(Pad(width, n))
  {
    if width > 0 { PadDigits(width - 1, n / 10); }
  }

  /** Exactly the trailing zeros go. */
  lemma {:induction false} TrimZerosExact(d: string)
    ensures var f := TrimZeros(d);
      f <= d && (forall i :: |f| <= i < |d| ==> d[i] == '0') && (f != "" ==> f[|f| - 1] != '0')
  {
    if d != "" {
      TrimZerosExact(d[1..]);
      assert d == [d[0]] + d[1..];
    }
  }

  /** Followed by the letter Z, a proper prefix sorts behind; every other smaller fraction sorts before. */
  lemma {:induction false} TrimmedOrder(d: string, e: string)
    requires |d| == |e| && AllDigits(d) && AllDigits(e) && TextLess(d, e)
    ensures TrimZeros(e) != ""
    ensures var f, g := TrimZeros(d), TrimZeros(e);
      if f < g then TextLess(g + "Z", f + "Z") else f != "" && TextLess(f + "Z", g + "Z")
  {
    var f, g := TrimZeros(d), TrimZeros(e);
    var d', e' := d[1..], e[1..];
    if d[0] == e[0] {
      TrimmedOrder(d', e');
      var f', g' := TrimZeros(d'), TrimZeros(e');
      var c := [d[0]];
      assert g == c + g' && g + "Z" == c + (g' + "Z");
      if f == "" {
        FirstCharLess(g + "Z", "Z");
      } else {
        assert f == c + f' && f + "Z" == c + (f' + "Z");
        TextLessPrefix(c, f' + "Z", g' + "Z");
        TextLessPrefix(c, g' + "Z", f' + "Z");
        PrefixShift(c, f', g');
      }
    } else {
      assert g[0] == e[0];
      if f == "" {
        assert f + "Z" == "Z";
        FirstCharLess(g + "Z", "Z");
      } else {
        assert f[0] == d[0];
        FirstCharLess(f + "Z", g + "Z");
      }
    }
  }

  lemma FirstCharLess(s: string, t: string)
    requires s != "" && t != "" && s[0] < t[0]
    ensures TextLess(s, t)
  {
  }

  lemma PrefixShift(c: string, f: string, g: string)
    ensures c + f < c + g <==> f < g
  {
    if f < g {
      assert g == f + g[|f|..];
      assert c + g == (c + f) + g[|f|..];
    }
    if c + f < c + g {
      assert (c + g)[|c|..] == g && (c + f)[|c|..] == f;
      assert g[..|f|] == f by {
        forall i | 0 <= i < |f| ensures g[i] == f[i] {
          assert (c + f)[|c| + i] == f[i] && (c + g)[|c| + i] == g[i];
        }
      }
    }
  }

  lemma TailOrder(a: Instant, b: Instant)
    requires a.Valid() && b.Valid() && a.nanos < b.nanos
    ensures if Fraction(a) < Fraction(b) then TextLess(Tail(Fraction(b)), Tail(Fraction(a)))
      else TextLess(Tail(Fraction(a)), Tail(Fraction(b)))
  {
    PadDigits(9, a.nanos);
    PadDigits(9, b.nanos);
    assert Power10(3) == 1000;
    assert Power10(6) == 1000 * Power10(3);
    assert Power10(9) == 1000 * Power10(6);
    PadOrder(9, a.nanos, b.nanos);
    TrimmedOrder(Pad(9, a.nanos), Pad(9, b.nanos));
    var f, g := Fraction(a), Fraction(b);
    assert Tail(g) == "." + (g + "Z");
    if f == "" {
      assert Tail(f) == "Z";
      FirstCharLess(Tail(g), Tail(f));
    } else {
      assert Tail(f) == "." + (f + "Z");
      TextLessPrefix(".", f + "Z", g + "Z");
      TextLessPrefix(".", g + "Z", f + "Z");
    }
  }

  // --- Text order against time order -------------------------------------------------------------

  /**
   For a before b, the texts are in the same order except exactly when the pair is reversed; then they
   are in the opposite order.
   */
  lemma TextOrderIsTimeOrderExactly(a: Instant, b: Instant)
    requires a.Valid() && b.Valid() && Earlier(a, b)
    ensures TextLess(Text(a), Text(b)) <==> !Reversed(a, b)
    ensures TextLess(Text(b), Text(a)) <==> Reversed(a, b)
  {
    var s, t := Tail(Fraction(a)), Tail(Fraction(b));
    StampOrder(a, b);
    StampOrder(b, a);
    TextLessAppend(Stamp(a), Stamp(b), s, t);
    TextLessAppend(Stamp(b), Stamp(a), t, s);
    if SameSecond(a, b) {
      FieldsIrreflexive(FieldsOf(a));
      TailOrder(a, b);
      if TextLess(s, t) { TextLessAsymmetric(s, t); } else { TextLessAsymmetric(t, s); }
    } else {
      TextLessAsymmetric(Stamp(a), Stamp(b));
    }
  }

  lemma {:induction false} FieldsIrreflexive(a: seq<Field>)
    ensures !FieldsEarlier(a, a)
  {
    if a != [] { FieldsIrreflexive(a[1..]); }
  }

  lemma {:induction false} FieldsTotal(a: seq<Field>, b: seq<Field>)
    requires SameLayout(a, b) && a != b
    ensures FieldsEarlier(a, b) || FieldsEarlier(b, a)
  {
    if a != [] && a[0].value == b[0].value {
      assert a == [a[0]] + a[1..] && b == [b[0]] + b[1..];
      FieldsTotal(a[1..], b[1..]);
    }
  }

  lemma TimeIsTotal(a: Instant, b: Instant)
    requires a.Valid() && b.Valid() && a != b
    ensures Earlier(a, b) || Earlier(b, a)
  {
    if FieldsOf(a) != FieldsOf(b) {
      assert Power10(2) == 100 && Power10(4) == 10000;
      FieldsTotal(FieldsOf(a), FieldsOf(b));
    } else {
      assert FieldsOf(a)[0] == FieldsOf(b)[0] && FieldsOf(a)[1] == FieldsOf(b)[1] && FieldsOf(a)[2] == FieldsOf(b)[2];
      assert FieldsOf(a)[3] == FieldsOf(b)[3] && FieldsOf(a)[4] == FieldsOf(b)[4];
    }
  }

  /** Different instants have different texts. */
  lemma TextIsInjective(a: Instant, b: Instant)
    requires a.Valid() && b.Valid()
    ensures Text(a) == Text(b) <==> a == b
  {
    if a != b {
      TimeIsTotal(a, b);
      if Earlier(a, b) {
        TextOrderIsTimeOrderExactly(a, b);
        if TextLess(Text(a), Text(b)) {
          TextLessAsymmetric(Text(a), Text(b));
        } else {
          TextLessAsymmetric(Text(b), Text(a));
        }
      } else {
        TextOrderIsTimeOrderExactly(b, a);
        if TextLess(Text(a), Text(b)) {
          TextLessAsymmetric(Text(a), Text(b));
        } else {
          TextLessAsymmetric(Text(b), Text(a));
        }
      }
    }
  }

  lemma {:induction false} FieldsAsymmetric(a: seq<Field>, b: seq<Field>)
    requires |a| == |b| && FieldsEarlier(a, b)
    ensures !FieldsEarlier(b, a) && a != b
  {
    if a[0].value == b[0].value { FieldsAsymmetric(a[1..], b[1..]); }
  }

  lemma TimeIsAsymmetric(a: Instant, b: Instant)
    requires Earlier(a, b)
    ensures !Earlier(b, a) && a != b
  {
    if FieldsEarlier(FieldsOf(a), FieldsOf(b)) {
      FieldsAsymmetric(FieldsOf(a), FieldsOf(b));
    } else {
      FieldsIrreflexive(FieldsOf(a));
    }
  }

  lemma {:induction false} ShorterFractionIsLess(d: string, e: string)
    requires |d| == |e| && AllDigits(d) && AllDigits(e) && TrimZeros(d) < TrimZeros(e)
    ensures TextLess(d, e)
  {
    var f, g, f', g' := TrimZeros(d), TrimZeros(e), TrimZeros(d[1..]), TrimZeros(e[1..]);
    assert g == [e[0]] + g';
    if f == "" {
      assert d[0] == '0' && f' == "";
      if e[0] == '0' { ShorterFractionIsLess(d[1..], e[1..]); }
    } else {
      assert f == [d[0]] + f' && f[0] == g[0];
      PrefixShift([d[0]], f', g');
      ShorterFractionIsLess(d[1..], e[1..]);
    }
  }

  lemma ReversedIsEarlier(a: Instant, b: Instant)
    requires a.Valid() && b.Valid() && Reversed(a, b)
    ensures Earlier(a, b)
  {
    PadDigits(9, a.nanos);
    PadDigits(9, b.nanos);
    assert Power10(3) == 1000;
    assert Power10(6) == 1000 * Power10(3);
    assert Power10(9) == 1000 * Power10(6);
    PadOrder(9, a.nanos, b.nanos);
    ShorterFractionIsLess(Pad(9, a.nanos), Pad(9, b.nanos));
  }

  /** A whole second sorts behind every later instant of that second. */
  lemma WholeSecondIsReversedWithEveryFraction(a: Instant, b: Instant)
    requires a.Valid() && b.Valid() && SameSecond(a, b) && a.nanos == 0 < b.nanos
    ensures Reversed(a, b)
  {
    ZeroPad(9);
    ZerosTrimToNothing(Pad(9, 0));
    PadDigits(9, b.nanos);
    assert Power10(3) == 1000;
    assert Power10(6) == 1000 * Power10(3);
    assert Power10(9) == 1000 * Power10(6);
    PadOrder(9, 0, b.nanos);
    TrimmedOrder(Pad(9, 0), Pad(9, b.nanos));
  }

  lemma {:induction false} ZerosTrimToNothing(d: string)
    requires forall i :: 0 <= i < |d| ==> d[i] == '0'
    ensures TrimZeros(d) == ""
  {
    if d != "" { ZerosTrimToNothing(d[1..]); }
  }

  lemma {:induction false} ZeroPad(width: nat)
    ensures forall i :: 0 <= i < width ==> Pad(width, 0)[i] == '0'
  {
    if width > 0 { ZeroPad(width - 1); }
  }

  /** A padded number, digit by digit. */
  lemma {:induction false} PadExactly(width: nat, n: nat, i: nat)
    requires i < width
    ensures Pad(width, n)[i] as int == '0' as int + n / Power10(width - 1 - i) % 10
  {
    if i < width - 1 {
      PadExactly(width - 1, n / 10, i);
      DivideTwice(n, Power10(width - 2 - i));
    }
  }

  lemma DivideTwice(n: nat, p: nat)
    requires p > 0
    ensures n / 10 / p == n / (10 * p)
  {
    var q, r := n / 10 / p, n / 10 % p;
    var s := n % 10;
    assert n == 10 * (q * p + r) + s;
    assert n == q * (10 * p) + (10 * r + s);
    assert 0 <= 10 * r + s < 10 * p;
    QuotientIs(n, 10 * p, q, 10 * r + s);
  }

  lemma QuotientIs(n: int, d: int, q: int, r: int)
    requires d > 0 && n == q * d + r && 0 <= r < d
    ensures n / d == q
  {
    var e := n / d - q;
    assert e * d == r - n % d;
  }

  lemma FieldsTextNext(f: seq<Field>, i: nat)
    requires i < |f|
    ensures FieldsText(f[i..]) == Pad(f[i].width, f[i].value) + [f[i].closing] + FieldsText(f[i + 1..])
  {
    assert f[i..][1..] == f[i + 1..];
  }

  lemma Pieces(p: string, q: string, rest: string)
    ensures (p + q + rest)[..|p| + |q|] == p + q && (p + q + rest)[|p| + |q|..] == rest
  {
  }

  /** The text starts with the calendar fields, each followed by its mark. */
  lemma StampExactly(t: Instant)
    ensures var s := Text(t);
      && |s| > 19
      && s[..5] == Pad(4, t.year) + "-"
      && s[5..][..3] == Pad(2, t.month) + "-"
      && s[5..][3..][..3] == Pad(2, t.day) + "T"
      && s[5..][3..][3..][..3] == Pad(2, t.hour) + ":"
      && s[5..][3..][3..][3..][..3] == Pad(2, t.minute) + ":"
      && s[5..][3..][3..][3..][3..] == Pad(2, t.second) + Tail(Fraction(t))
  {
    var f := FieldsOf(t);
    var last := Pad(2, t.second) + Tail(Fraction(t));
    assert f[0..] == f && f[5..] == [];
    assert Text(t) == FieldsText(f[0..]) + last;
    StartsWith(f, 0, last);
    StartsWith(f, 1, last);
    StartsWith(f, 2, last);
    StartsWith(f, 3, last);
    StartsWith(f, 4, last);
    assert FieldsText(f[5..]) + last == last;
  }

  lemma StartsWith(f: seq<Field>, i: nat, last: string)
    requires i < |f|
    ensures var n := f[i].width + 1; var s := FieldsText(f[i..]) + last;
      |s| >= n && s[..n] == Pad(f[i].width, f[i].value) + [f[i].closing] && s[n..] == FieldsText(f[i + 1..]) + last
  {
    FieldsTextNext(f, i);
    var p, q, rest := Pad(f[i].width, f[i].value), [f[i].closing], FieldsText(f[i + 1..]);
    assert p + q + rest + last == p + q + (rest + last);
    Pieces(p, q, rest + last);
  }

  /** It ends with the letter Z, after a point and the fraction exactly when the second is not full. */
  lemma TailExactly(t: Instant)
    requires t.Valid()
    ensures Tail(Fraction(t)) == if t.nanos == 0 then "Z" else "." + TrimZeros(Pad(9, t.nanos)) + "Z"
    ensures t.nanos != 0 ==> TrimZeros(Pad(9, t.nanos)) != ""
  {
    ZeroPad(9);
    if t.nanos == 0 {
      ZerosTrimToNothing(Pad(9, 0));
    } else {
      assert Power10(3) == 1000;
      assert Power10(6) == 1000 * Power10(3);
      assert Power10(9) == 1000 * Power10(6);
      PadOrder(9, 0, t.nanos);
      PadDigits(9, t.nanos);
      TrimmedOrder(Pad(9, 0), Pad(9, t.nanos));
    }
  }

  // --- Filters and listings ------------------------------------------------------------------------

  /** The database's comparison. */
  predicate TextAtMost(a: Instant, b: Instant) {
    Text(a) == Text(b) || TextLess(Text(a), Text(b))
  }

  predicate TimeAtMost(a: Instant, b: Instant) {
    a == b || Earlier(a, b)
  }

  /**
   Comparing stored texts decides like comparing instants exactly when the pair is not reversed in
   either direction.
   */
  lemma ComparisonsAgreeExactly(a: Instant, b: Instant)
    requires a.Valid() && b.Valid()
    ensures (TextAtMost(a, b) <==> TimeAtMost(a, b)) <==> !Reversed(a, b) && !Reversed(b, a)
  {
    TextIsInjective(a, b);
    if a != b {
      TimeIsTotal(a, b);
      if Earlier(a, b) { AgreesForward(a, b); } else { AgreesForward(b, a); }
    }
  }

  lemma AgreesForward(a: Instant, b: Instant)
    requires a.Valid() && b.Valid() && Earlier(a, b)
    ensures !Reversed(b, a) && !TimeAtMost(b, a) && a != b
    ensures TextAtMost(a, b) <==> !Reversed(a, b)
    ensures TextAtMost(b, a) <==> Reversed(a, b)
  {
    TimeIsAsymmetric(a, b);
    TextIsInjective(a, b);
    TextOrderIsTimeOrderExactly(a, b);
    if Reversed(b, a) { ReversedIsEarlier(b, a); }
  }

  /** The validity window as the search query tests it, and as retrieval tests it again. */
  predicate InWindowByText(from: Option<Instant>, until: Option<Instant>, now: Instant) {
    (from.None? || TextAtMost(from.value, now)) && (until.None? || TextAtMost(now, until.value))
  }

  predicate InWindow(from: Option<Instant>, until: Option<Instant>, now: Instant) {
    (from.None? || TimeAtMost(from.value, now)) && (until.None? || TimeAtMost(now, until.value))
  }

  ghost predicate Unreversed(bound: Option<Instant>, now: Instant) {
    bound.Some? ==> bound.value.Valid() && !Reversed(bound.value, now) && !Reversed(now, bound.value)
  }

  /** Off reversed pairs the two filters are one. */
  lemma WindowsAgree(from: Option<Instant>, until: Option<Instant>, now: Instant)
    requires now.Valid() && Unreversed(from, now) && Unreversed(until, now)
    ensures InWindowByText(from, until, now) <==> InWindow(from, until, now)
  {
    if from.Some? { ComparisonsAgreeExactly(from.value, now); }
    if until.Some? { ComparisonsAgreeExactly(now, until.value); }
  }

  /**
   A memory that becomes valid a fraction of a second before now is missed by the search exactly when
   that pair is reversed.
   */
  lemma JustValidIsMissedExactly(from: Instant, now: Instant)
    requires from.Valid() && now.Valid() && Earlier(from, now)
    ensures InWindow(Some(from), None, now)
    ensures !InWindowByText(Some(from), None, now) <==> Reversed(from, now)
  {
    AgreesForward(from, now);
  }

  datatype Logged = Logged(at: Instant, id: string)

  /** The listing orders by stored text, then id. */
  predicate ListedBefore(x: Logged, y: Logged) {
    TextLess(Text(x.at), Text(y.at)) || (Text(x.at) == Text(y.at) && TextLess(x.id, y.id))
  }

  predicate HappenedBefore(x: Logged, y: Logged) {
    Earlier(x.at, y.at) || (x.at == y.at && TextLess(x.id, y.id))
  }

  /** The listing is a strict order, total on entries with different ids; entries of one instant are listed by id. */
  lemma ListingIsStrictTotal()
    ensures Asymmetric(ListedBefore) && Transitive(ListedBefore)
    ensures forall x: Logged, y: Logged :: x.id != y.id ==> ListedBefore(x, y) || ListedBefore(y, x)
    ensures forall x: Logged, y: Logged :: x.at == y.at ==> (ListedBefore(x, y) <==> TextLess(x.id, y.id))
  {
    forall x, y | ListedBefore(x, y) ensures !ListedBefore(y, x) {
      if TextLess(Text(x.at), Text(y.at)) { TextLessAsymmetric(Text(x.at), Text(y.at)); }
      else { TextLessAsymmetric(x.id, y.id); }
    }
    forall x, y, z | ListedBefore(x, y) && ListedBefore(y, z) ensures ListedBefore(x, z) {
      if TextLess(Text(x.at), Text(y.at)) && TextLess(Text(y.at), Text(z.at)) {
        TextLessTransitive(Text(x.at), Text(y.at), Text(z.at));
      }
      if TextLess(x.id, y.id) && TextLess(y.id, z.id) { TextLessTransitive(x.id, y.id, z.id); }
    }
    forall x: Logged, y: Logged | x.id != y.id ensures ListedBefore(x, y) || ListedBefore(y, x) {
      TextLessTotal(x.id, y.id);
      if Text(x.at) != Text(y.at) { TextLessTotal(Text(x.at), Text(y.at)); }
    }
    forall x: Logged, y: Logged | x.at == y.at ensures ListedBefore(x, y) <==> TextLess(x.id, y.id) {
      if TextLess(Text(x.at), Text(y.at)) { TextLessAsymmetric(Text(x.at), Text(y.at)); }
    }
  }

  lemma ListedPair(x: Logged, y: Logged)
    requires x.at.Valid() && y.at.Valid() && ListedBefore(x, y)
    ensures HappenedBefore(x, y) <==> !Reversed(y.at, x.at)
  {
    TextIsInjective(x.at, y.at);
    if TextLess(Text(x.at), Text(y.at)) { TextLessAsymmetric(Text(x.at), Text(y.at)); }
    if x.at != y.at {
      TimeIsTotal(x.at, y.at);
      if Earlier(x.at, y.at) { AgreesForward(x.at, y.at); } else { AgreesForward(y.at, x.at); }
    }
  }

  /**
   The event listing is chronological exactly when no later entry is the shorter-fraction partner of an
   earlier one.
   */
  lemma ListingIsChronologicalExactly(s: seq<Logged>)
    requires forall i :: 0 <= i < |s| ==> s[i].at.Valid()
    requires Sorted(ListedBefore, s)
    ensures Sorted(HappenedBefore, s) <==> forall i, j :: 0 <= i < j < |s| ==> !Reversed(s[j].at, s[i].at)
  {
    forall i, j | 0 <= i < j < |s| ensures HappenedBefore(s[i], s[j]) <==> !Reversed(s[j].at, s[i].at) {
      ListedPair(s[i], s[j]);
    }
  }
}
