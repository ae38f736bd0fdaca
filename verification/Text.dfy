// Characters, runs of characters and decimal numbers, as the decoder, the
// encoders and the test parsers see them.

module Text {
  import opened Ints
  import opened Wrappers

  // ---------------------------------------------------------------- Characters

  predicate IsDigit(c: char) { '0' <= c <= '9' }

  predicate IsAlphaNumeric(c: char) {
    IsDigit(c) || 'A' <= c <= 'Z' || 'a' <= c <= 'z'
  }

  predicate IsPrintable(c: char) { ' ' <= c <= '~' }

  // The character tests that the decoder passes around as function pointers.
  datatype CharClass = NameChars | ParamValueChars | FieldContent | OptionalWhitespace | ParamSeparators

  predicate Matches(cc: CharClass, c: char) {
    match cc
    case NameChars => IsAlphaNumeric(c) || c == '-' || c == '_'
    case ParamValueChars => IsAlphaNumeric(c) || c == '-' || c == '+' || c == '_' || c == '=' || c == '%' || c == '.'
    case FieldContent => IsPrintable(c) || c == '\t'
    case OptionalWhitespace => c == ' ' || c == '\t'
    case ParamSeparators => c == '&'
  }

  ghost predicate AllMatch(v: string, cc: CharClass) {
    forall i :: 0 <= i < |v| ==> Matches(cc, v[i])
  }

  // The length of the longest prefix of v made of characters of class cc.
  function Span(v: string, cc: CharClass): (n: nat)
    ensures n <= |v|
  {
    if v == "" || !Matches(cc, v[0]) then 0 else 1 + Span(v[1..], cc)
  }

  lemma {:induction false} SpanIsLongest(v: string, cc: CharClass)
    ensures AllMatch(v[..Span(v, cc)], cc)
    ensures Span(v, cc) < |v| ==> !Matches(cc, v[Span(v, cc)])
  {
    if v != "" && Matches(cc, v[0]) {
      SpanIsLongest(v[1..], cc);
      assert v[..Span(v, cc)] == [v[0]] + v[1..][..Span(v[1..], cc)];
    }
  }

  lemma {:induction false} SpanIs(v: string, cc: CharClass, n: nat)
    requires n <= |v| && AllMatch(v[..n], cc)
    requires n < |v| ==> !Matches(cc, v[n])
    ensures Span(v, cc) == n
  {
    if n > 0 {
      assert v[..n][0] == v[0];
      assert v[1..][..n - 1] == v[..n][1..];
      SpanIs(v[1..], cc, n - 1);
    }
  }

  // A run that ends inside v is not changed by the text that arrives after v.
  lemma {:induction false} SpanExtend(v: string, w: string, cc: CharClass)
    ensures Span(v, cc) < |v| ==> Span(v + w, cc) == Span(v, cc)
    ensures Span(v, cc) == |v| ==> Span(v + w, cc) == |v| + Span(w, cc)
  {
    if v == "" {
      assert v + w == w;
    } else {
      assert (v + w)[1..] == v[1..] + w;
      SpanExtend(v[1..], w, cc);
    }
  }

  // A run of matching characters, then one that does not match, spans exactly the run.
  lemma SpanOf(run: string, rest: string, cc: CharClass)
    requires AllMatch(run, cc)
    requires rest == "" || !Matches(cc, rest[0])
    ensures Span(run + rest, cc) == |run|
  {
    assert (run + rest)[..|run|] == run;
    SpanIs(run + rest, cc, |run|);
  }

  // v without the optional whitespace at its end.
  function TrimTrailing(v: string): (t: string)
    ensures t <= v
    ensures t != "" ==> !Matches(OptionalWhitespace, t[|t| - 1])
    ensures forall i :: |t| <= i < |v| ==> Matches(OptionalWhitespace, v[i])
  {
    if v != "" && Matches(OptionalWhitespace, v[|v| - 1]) then TrimTrailing(v[..|v| - 1]) else v
  }

  // ------------------------------------------------------- Case-insensitivity

  function Lower(c: char): char {
    if 'A' <= c <= 'Z' then c + ('a' - 'A') else c
  }

  function ToLower(v: string): (l: string)
    ensures |l| == |v|
    ensures forall i :: 0 <= i < |v| ==> l[i] == Lower(v[i])
  {
    seq(|v|, i requires 0 <= i < |v| => Lower(v[i]))
  }

  predicate CaseEqual(a: string, b: string) { ToLower(a) == ToLower(b) }

  // ------------------------------------------------------------ Decimal numbers

  predicate AllDigits(s: string) { forall i :: 0 <= i < |s| ==> IsDigit(s[i]) }

  function DigitValue(c: char): (d: nat)
    requires IsDigit(c)
    ensures d <= 9
  {
    c as int - '0' as int
  }

  function DigitChar(d: nat): (c: char)
    requires d <= 9
    ensures IsDigit(c) && DigitValue(c) == d
  {
    ('0' as int + d) as char
  }

  // The number that a string of digits denotes.
  function DecimalValue(s: string): nat
    requires AllDigits(s)
  {
    if s == "" then 0 else 10 * DecimalValue(s[..|s| - 1]) + DigitValue(s[|s| - 1])
  }

  // The shortest string of digits that denotes n, as printing produces it.
  function Decimal(n: nat): (s: string)
    ensures s != "" && AllDigits(s)
  {
    if n < 10 then [DigitChar(n)] else Decimal(n / 10) + [DigitChar(n % 10)]
  }

  lemma {:induction false} DecimalRoundTrip(n: nat)
    ensures DecimalValue(Decimal(n)) == n
  {
    if n < 10 {
      assert Decimal(n)[..0] == "";
    } else {
      DecimalRoundTrip(n / 10);
      var s := Decimal(n);
      assert s[..|s| - 1] == Decimal(n / 10);
    }
  }

  // More digits never make the number smaller.
  lemma {:induction false} DecimalValueGrows(s: string, k: nat)
    requires AllDigits(s) && k <= |s|
    ensures DecimalValue(s[..k]) <= DecimalValue(s)
  {
    if k < |s| {
      var t := s[..|s| - 1];
      assert s[..k] == t[..k];
      DecimalValueGrows(t, k);
    } else {
      assert s[..k] == s;
    }
  }

  // What StringView::to_uint32 promises: the digit strings whose number fits in 32 bits.
  function ToUint32(s: string): (r: Option<uint32>) {
    if s != "" && AllDigits(s) && DecimalValue(s) <= MAX_UINT32 then Some(DecimalValue(s)) else None
  }

  // What StringView::to_int32 promises.
  function ToInt32(s: string): (r: Option<int32>) {
    var negative := s != "" && s[0] == '-';
    match ToUint32(if negative then s[1..] else s)
    case None => None
    case Some(n) =>
      var magnitude: int := n;
      var signed := if negative then -magnitude else magnitude;
      if -0x8000_0000 <= signed < 0x8000_0000 then Some(signed) else None
  }

  // An optionally signed decimal, as Print writes an int32_t.
  function SignedDecimal(n: int): (s: string) {
    if n < 0 then "-" + Decimal(-n) else Decimal(n)
  }

  lemma Uint32RoundTrip(n: uint32)
    ensures ToUint32(Decimal(n)) == Some(n)
  {
    DecimalRoundTrip(n);
  }

  lemma Int32RoundTrip(n: int)
    requires -0x8000_0000 <= n < 0x8000_0000
    ensures ToInt32(SignedDecimal(n)) == Some(n)
  {
    var s, magnitude := SignedDecimal(n), if n < 0 then -n else n;
    Uint32RoundTrip(magnitude);
    assert n < 0 ==> s[1..] == Decimal(-n);
    assert n >= 0 ==> s[0] != '-';
  }

  function Pow10(n: nat): (p: nat)
    ensures p >= 1
  {
    if n == 0 then 1 else 10 * Pow10(n - 1)
  }

  // The index of the first c in s, or |s|.
  function IndexOf(s: string, c: char): (n: nat)
    ensures n <= |s|
    ensures n < |s| ==> s[n] == c
  {
    if s == "" || s[0] == c then 0 else 1 + IndexOf(s[1..], c)
  }

  lemma {:induction false} IndexOfIs(s: string, c: char, n: nat)
    requires n <= |s| && c !in s[..n]
    requires n < |s| ==> s[n] == c
    ensures IndexOf(s, c) == n
  {
    if n > 0 {
      assert s[..n][0] == s[0];
      assert s[1..][..n - 1] == s[..n][1..];
      IndexOfIs(s[1..], c, n - 1);
    }
  }

  lemma {:induction false} IndexOfIsFirst(s: string, c: char)
    ensures c !in s[..IndexOf(s, c)]
  {
    if s != "" && s[0] != c {
      IndexOfIsFirst(s[1..], c);
      assert s[..IndexOf(s, c)] == [s[0]] + s[1..][..IndexOf(s[1..], c)];
    }
  }

  lemma {:induction false} IndexOfExtend(v: string, w: string, c: char)
    ensures IndexOf(v, c) < |v| ==> IndexOf(v + w, c) == IndexOf(v, c)
    ensures IndexOf(v, c) == |v| ==> IndexOf(v + w, c) == |v| + IndexOf(w, c)
  {
    if v == "" {
      assert v + w == w;
    } else {
      assert (v + w)[1..] == v[1..] + w;
      IndexOfExtend(v[1..], w, c);
    }
  }

  // s without its first point.
  function WithoutPoint(s: string): string {
    var point := IndexOf(s, '.');
    if point < |s| then s[..point] + s[point + 1..] else s
  }

  // The number that a string of digits with at most one point denotes.
  function Fraction(t: string): (r: Option<real>) {
    var digits := WithoutPoint(t);
    if digits == "" || !AllDigits(digits) then None
    else Some(DecimalValue(digits) as real / Pow10(|digits| - IndexOf(t, '.')) as real)
  }

  // What StringView::to_double promises, with exact arithmetic: an optional
  // sign, digits with at most one point among them, and more than the point.
  function ToReal(s: string): (r: Option<real>) {
    if s != "" && s[0] == '-' then
      match Fraction(s[1..])
      case None => None
      case Some(magnitude) => Some(-magnitude)
    else
      Fraction(s)
  }
}
