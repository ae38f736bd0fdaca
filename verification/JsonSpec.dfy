// JSON: the text that the encoders write for a tree, how the test decoder reads
// a text, and that reading undoes writing.

module JsonSpec {
  import opened Wrappers
  import opened Text

  // What can be encoded. (Numbers are those of 32 bits, which a double holds exactly.)
  datatype Json =
    | Integer(n: int)
    | Boolean(b: bool)
    | Text(s: string)
    | Array(elements: seq<Json>)
    | Object(properties: seq<Property>)

  datatype Property = Property(name: string, value: Json)

  // ------------------------------------------------------------- What is written

  const BACKSPACE: char := 8 as char
  const FORM_FEED: char := 12 as char

  // A character inside a string. One that cannot be escaped is left out.
  function EscapeChar(c: char): string {
    if IsPrintable(c) then
      if c == '"' then "\\\"" else if c == '\\' then "\\\\" else [c]
    else if c == BACKSPACE then "\\b"
    else if c == FORM_FEED then "\\f"
    else if c == '\n' then "\\n"
    else if c == '\r' then "\\r"
    else if c == '\t' then "\\t"
    else ""
  }

  function Escape(s: string): string {
    if s == "" then "" else Escape(s[..|s| - 1]) + EscapeChar(s[|s| - 1])
  }

  function StringText(s: string): string { "\"" + Escape(s) + "\"" }

  function JsonText(j: Json): string
    decreases j, 1
  {
    match j
    case Integer(n) => SignedDecimal(n)
    case Boolean(b) => if b then "true" else "false"
    case Text(s) => StringText(s)
    case Array(es) => "[" + ElementsText(es) + "]"
    case Object(ps) => "{" + PropertiesText(ps) + "}"
  }

  function ElementsText(es: seq<Json>): string {
    if es == [] then ""
    else if |es| == 1 then JsonText(es[0])
    else ElementsText(es[..|es| - 1]) + (", " + JsonText(es[|es| - 1]))
  }

  function PropertyText(p: Property): string { StringText(p.name) + ": " + JsonText(p.value) }

  function PropertiesText(ps: seq<Property>): string {
    if ps == [] then ""
    else if |ps| == 1 then PropertyText(ps[0])
    else PropertiesText(ps[..|ps| - 1]) + (", " + PropertyText(ps[|ps| - 1]))
  }

  // ---------------------------------------------------------------- What is read

  datatype Value =
    | Null
    | Bool(b: bool)
    | Number(n: int)
    | String(s: string)
    | List(elements: seq<Value>)
    | Map(members: map<string, Value>)

  // A value read from the front of a text, and the rest of the text; or an error.
  datatype Parsed<T> = Ok(value: T, rest: string) | Error

  predicate IsSpace(c: char) { c == ' ' || c == '\t' || c == '\r' || c == '\n' }

  function SkipWhitespace(v: string): (r: string)
    ensures |r| <= |v|
    ensures r != "" ==> !IsSpace(r[0])
  {
    if v != "" && IsSpace(v[0]) then SkipWhitespace(v[1..]) else v
  }

  function SkipDelimiter(v: string, d: char): (r: Option<string>)
    ensures r.Some? ==> |r.value| < |v|
  {
    var w := SkipWhitespace(v);
    if w != "" && w[0] == d then Some(w[1..]) else None
  }

  function ParseWord(v: string, word: string, x: Value): (r: Parsed<Value>)
    requires word != ""
    ensures r.Ok? ==> |r.rest| < |v|
  {
    var w := SkipWhitespace(v);
    if word <= w then Ok(x, w[|word|..]) else Error
  }

  // The character that an escape stands for: none if the escape is not known.
  function Unescape(c: char): string {
    if c == '"' then "\"" else if c == '\\' then "\\" else if c == '/' then "/"
    else if c == 'b' then [BACKSPACE]
    else if c == 'f' then [FORM_FEED]
    else if c == 'n' then "\n"
    else if c == 'r' then "\r"
    else if c == 't' then "\t"
    else ""
  }

  // What is left of a string after its opening quote. (The decoder gives up on
  // the escape u altogether.)
  function StringRest(v: string): (r: Parsed<string>)
    ensures r.Ok? ==> |r.rest| < |v|
  {
    if v == "" || !IsPrintable(v[0]) then Error
    else if v[0] == '"' then Ok("", v[1..])
    else if v[0] == '\\' then
      if |v| == 1 || v[1] == 'u' then Error
      else Prepend(Unescape(v[1]), StringRest(v[2..]))
    else Prepend([v[0]], StringRest(v[1..]))
  }

  function Prepend(s: string, r: Parsed<string>): Parsed<string> {
    match r
    case Error => Error
    case Ok(t, rest) => Ok(s + t, rest)
  }

  function ParseString(v: string): (r: Parsed<string>)
    ensures r.Ok? ==> |r.rest| < |v|
  {
    match SkipDelimiter(v, '"')
    case None => Error
    case Some(w) => StringRest(w)
  }

  function Digits(v: string): (n: nat)
    ensures n <= |v|
    ensures AllDigits(v[..n])
    ensures n < |v| ==> !IsDigit(v[n])
  {
    if v != "" && IsDigit(v[0]) then
      var n := Digits(v[1..]);
      assert v[..n + 1] == [v[0]] + v[1..][..n];
      n + 1
    else 0
  }

  // An integer. (A number with a fraction or an exponent is not modelled: it is refused.)
  function ParseNumber(v: string): (r: Parsed<Value>)
    ensures r.Ok? ==> |r.rest| < |v|
  {
    var w := SkipWhitespace(v);
    var negative := w != "" && w[0] == '-';
    var u := if negative then w[1..] else w;
    var n := Digits(u);
    if n == 0 || (n < |u| && (u[n] == '.' || u[n] == 'e' || u[n] == 'E')) then Error
    else
      var magnitude: int := DecimalValue(u[..n]);
      Ok(Number(if negative then -magnitude else magnitude), u[n..])
  }

  function ParseValue(v: string): (r: Parsed<Value>)
    ensures r.Ok? ==> |r.rest| < |v|
    decreases |v|, 1
  {
    var w := SkipWhitespace(v);
    if w == "" then Error
    else if w[0] == '[' then ParseArray(w)
    else if w[0] == '{' then ParseObject(w)
    else if w[0] == '"' then
      match ParseString(w)
      case Error => Error
      case Ok(s, rest) => Ok(String(s), rest)
    else if w[0] == 'n' then ParseWord(w, "null", Null)
    else if w[0] == 't' then ParseWord(w, "true", Bool(true))
    else if w[0] == 'f' then ParseWord(w, "false", Bool(false))
    else ParseNumber(w)
  }

  function ParseArray(v: string): (r: Parsed<Value>)
    ensures r.Ok? ==> |r.rest| < |v|
    decreases |v|, 0
  {
    match SkipDelimiter(v, '[')
    case None => Error
    case Some(w) =>
      var u := SkipWhitespace(w);
      if u == "" then Error
      else if u[0] == ']' then Ok(List([]), u[1..])
      else
        match ParseElements(u, [])
        case Error => Error
        case Ok(xs, rest) => Ok(List(xs), rest[1..])
  }

  // The elements up to the bracket that ends them, after those before.
  function ParseElements(v: string, before: seq<Value>): (r: Parsed<seq<Value>>)
    ensures r.Ok? ==> 0 < |r.rest| < |v| && r.rest[0] == ']'
    decreases |v|, 2
  {
    match ParseValue(v)
    case Error => Error
    case Ok(x, rest) =>
      var w := SkipWhitespace(rest);
      if w == "" then Error
      else if w[0] == ']' then Ok(before + [x], w)
      else
        match SkipDelimiter(w, ',')
        case None => Error
        case Some(u) => ParseElements(u, before + [x])
  }

  function ParseObject(v: string): (r: Parsed<Value>)
    ensures r.Ok? ==> |r.rest| < |v|
    decreases |v|, 0
  {
    match SkipDelimiter(v, '{')
    case None => Error
    case Some(w) =>
      var u := SkipWhitespace(w);
      if u == "" then Error
      else if u[0] == '}' then Ok(Map(map[]), u[1..])
      else
        match ParseMembers(u, map[])
        case Error => Error
        case Ok(m, rest) => Ok(Map(m), rest[1..])
  }

  // The members up to the brace that ends them, added to those before.
  function ParseMembers(v: string, before: map<string, Value>): (r: Parsed<map<string, Value>>)
    ensures r.Ok? ==> 0 < |r.rest| < |v| && r.rest[0] == '}'
    decreases |v|, 2
  {
    match ParseString(v)
    case Error => Error
    case Ok(name, rest) =>
      match SkipDelimiter(rest, ':')
      case None => Error
      case Some(u) =>
        match ParseValue(u)
        case Error => Error
        case Ok(x, rest) =>
          var w := SkipWhitespace(rest);
          if w == "" then Error
          else if w[0] == '}' then Ok(before[name := x], w)
          else
            match SkipDelimiter(w, ',')
            case None => Error
            case Some(t) => ParseMembers(t, before[name := x])
  }

  // A whole text: a value and nothing else but whitespace.
  function Parse(v: string): Option<Value> {
    match ParseValue(v)
    case Error => None
    case Ok(x, rest) => if SkipWhitespace(rest) == "" then Some(x) else None
  }

  // ---------------------------------------------------------------- The round trip

  // A string without the characters that cannot be escaped.
  function Strip(s: string): string {
    if s == "" then "" else (if EscapeChar(s[0]) == "" then "" else [s[0]]) + Strip(s[1..])
  }

  // What a tree says: a property replaces one before it of the same name.
  function Meaning(j: Json): Value
    decreases j, 1
  {
    match j
    case Integer(n) => Number(n)
    case Boolean(b) => Bool(b)
    case Text(s) => String(Strip(s))
    case Array(es) => List(Meanings(es))
    case Object(ps) => Map(Members(ps, map[]))
  }

  function Meanings(es: seq<Json>): (vs: seq<Value>)
    ensures |vs| == |es|
  {
    if es == [] then [] else [Meaning(es[0])] + Meanings(es[1..])
  }

  function Members(ps: seq<Property>, before: map<string, Value>): map<string, Value>
    decreases ps
  {
    if ps == [] then before else Members(ps[1..], before[Strip(ps[0].name) := Meaning(ps[0].value)])
  }

  // What may follow a number without becoming part of it.
  predicate EndsNumber(rest: string) {
    rest == "" || !(IsDigit(rest[0]) || rest[0] == '.' || rest[0] == 'e' || rest[0] == 'E')
  }

  lemma {:induction false} EscapeCons(s: string)
    requires s != ""
    ensures Escape(s) == EscapeChar(s[0]) + Escape(s[1..])
  {
    hide EscapeChar;
    if |s| > 1 {
      EscapeCons(s[..|s| - 1]);
      assert s[..|s| - 1][1..] == s[1..][..|s| - 2];
    } else {
      assert s[..0] == "" && s[1..] == "";
    }
  }

  lemma EscapedCharIsRead(c: char, w: string)
    ensures StringRest(EscapeChar(c) + w) ==
      if EscapeChar(c) == "" then StringRest(w) else Prepend([c], StringRest(w))
  {
    var e := EscapeChar(c);
    if e == "" {
      assert e + w == w;
    } else if |e| == 1 {
      assert (e + w)[1..] == w;
    } else {
      assert (e + w)[2..] == w && Unescape(e[1]) == [c];
    }
  }

  lemma {:induction false} StringIsRead(s: string, rest: string)
    ensures StringRest(Escape(s) + ("\"" + rest)) == Ok(Strip(s), rest)
  {
    hide EscapeChar, StringRest;
    if s == "" {
      assert Escape(s) + ("\"" + rest) == "\"" + rest;
      QuoteEnds(rest);
    } else {
      EscapeCons(s);
      StringIsRead(s[1..], rest);
      var more := Escape(s[1..]) + ("\"" + rest);
      assert Escape(s) + ("\"" + rest) == EscapeChar(s[0]) + more;
      EscapedCharIsRead(s[0], more);
      assert "" + Strip(s[1..]) == Strip(s[1..]);
    }
  }

  lemma QuoteEnds(rest: string)
    ensures StringRest("\"" + rest) == Ok("", rest)
  {
    assert ("\"" + rest)[1..] == rest;
  }

  lemma StringTextIsRead(s: string, rest: string)
    ensures ParseString(StringText(s) + rest) == Ok(Strip(s), rest)
  {
    hide Escape, StringRest, Strip;
    var v := StringText(s) + rest;
    assert v[0] == '"';
    assert v[1..] == Escape(s) + ("\"" + rest);
    StringIsRead(s, rest);
  }

  lemma {:induction false} DigitsOf(d: string, rest: string)
    requires AllDigits(d) && (rest == "" || !IsDigit(rest[0]))
    ensures Digits(d + rest) == |d|
  {
    if d == "" {
      assert d + rest == rest;
    } else {
      assert (d + rest)[1..] == d[1..] + rest;
      DigitsOf(d[1..], rest);
    }
  }

  lemma NotSkipped(v: string)
    requires v != "" && !IsSpace(v[0])
    ensures SkipWhitespace(v) == v
  {
  }

  // A number, in a text whose digits begin where the sign, if any, ends.
  lemma NumberIsRead(d: string, negative: bool, rest: string, v: string)
    requires d != "" && AllDigits(d) && EndsNumber(rest)
    requires v == if negative then "-" + (d + rest) else d + rest
    ensures var magnitude: int := DecimalValue(d);
      ParseNumber(v) == Ok(Number(if negative then -magnitude else magnitude), rest)
  {
    hide DecimalValue, SkipWhitespace, Digits;
    var u := d + rest;
    assert Digits(u) == |d| by { DigitsOf(d, rest); }
    assert u[..|d|] == d && u[|d|..] == rest;
    assert IsDigit(u[0]);
    NotSkipped(v);
    if negative {
      assert v[1..] == u;
    }
  }

  lemma IntegerIsRead(n: int, rest: string)
    requires EndsNumber(rest)
    ensures ParseValue(SignedDecimal(n) + rest) == Ok(Number(n), rest)
  {
    hide Decimal, DecimalValue, ParseNumber, ParseArray, ParseObject, ParseString;
    var magnitude := if n < 0 then -n else n;
    var d := Decimal(magnitude);
    DecimalRoundTrip(magnitude);
    var v := SignedDecimal(n) + rest;
    assert v == if n < 0 then "-" + (d + rest) else d + rest;
    NumberIsRead(d, n < 0, rest, v);
    assert IsDigit(d[0]);
    assert v[0] == if n < 0 then '-' else d[0];
    NotSkipped(v);
  }

  lemma BooleanIsRead(b: bool, rest: string)
    ensures ParseValue(JsonText(Boolean(b)) + rest) == Ok(Bool(b), rest)
  {
    var v := JsonText(Boolean(b)) + rest;
    assert v[0] == if b then 't' else 'f';
    assert b ==> "true" <= v && v[4..] == rest;
    assert !b ==> "false" <= v && v[5..] == rest;
    hide ParseArray, ParseObject, ParseString, ParseNumber;
  }

  lemma SpaceIsSkipped(v: string)
    ensures SkipWhitespace(" " + v) == SkipWhitespace(v)
    ensures ParseValue(" " + v) == ParseValue(v) && ParseString(" " + v) == ParseString(v)
  {
    assert (" " + v)[1..] == v;
    hide ParseArray, ParseObject, StringRest, ParseNumber;
  }

  lemma {:induction false} ElementsCons(es: seq<Json>)
    requires |es| > 1
    ensures ElementsText(es) == JsonText(es[0]) + (", " + ElementsText(es[1..]))
  {
    hide JsonText;
    var init, last := es[..|es| - 1], ", " + JsonText(es[|es| - 1]);
    assert es[1..][..|es| - 2] == init[1..];
    if |es| > 2 {
      ElementsCons(init);
      assert ElementsText(es) == JsonText(es[0]) + (", " + ElementsText(init[1..])) + last;
    }
  }

  lemma {:induction false} PropertiesCons(ps: seq<Property>)
    requires |ps| > 1
    ensures PropertiesText(ps) == PropertyText(ps[0]) + (", " + PropertiesText(ps[1..]))
  {
    hide PropertyText;
    var init, last := ps[..|ps| - 1], ", " + PropertyText(ps[|ps| - 1]);
    assert ps[1..][..|ps| - 2] == init[1..];
    if |ps| > 2 {
      PropertiesCons(init);
      assert PropertiesText(ps) == PropertyText(ps[0]) + (", " + PropertiesText(init[1..])) + last;
    }
  }

  lemma TextIsRead(s: string, rest: string)
    ensures ParseValue(StringText(s) + rest) == Ok(String(Strip(s)), rest)
  {
    hide Escape, StringRest, Strip, ParseArray, ParseObject, ParseNumber, ParseString;
    StringTextIsRead(s, rest);
    assert (StringText(s) + rest)[0] == '"';
  }

  // A text starts with what tells its kind, and with no space or bracket that ends anything.
  lemma TextStarts(j: Json)
    ensures var t := JsonText(j); t != "" && !IsSpace(t[0]) && t[0] != ']' && t[0] != '}'
  {
    if j.Integer? {
      assert IsDigit(Decimal(if j.n < 0 then -j.n else j.n)[0]);
    }
    hide Escape, ElementsText, PropertiesText, Decimal;
  }

  lemma ElementsStart(es: seq<Json>)
    requires es != []
    ensures var t := ElementsText(es); t != "" && !IsSpace(t[0]) && t[0] != ']'
  {
    hide JsonText;
    TextStarts(es[0]);
    if |es| > 1 {
      ElementsCons(es);
    }
  }

  // A value and what comes after it in an array.
  lemma OneElement(t: string, x: Value, more: string, before: seq<Value>)
    requires ParseValue(t + more) == Ok(x, more)
    requires more != "" && (more[0] == ']' || more[0] == ',')
    ensures ParseElements(t + more, before) ==
      if more[0] == ']' then Ok(before + [x], more) else ParseElements(more[1..], before + [x])
  {
    hide ParseValue;
    NotSkipped(more);
  }

  lemma ElementsAfterSpace(v: string, before: seq<Value>)
    ensures ParseElements(" " + v, before) == ParseElements(v, before)
  {
    hide ParseValue, SkipWhitespace;
    SpaceIsSkipped(v);
  }

  lemma {:induction false} ElementsAreRead(es: seq<Json>, before: seq<Value>, rest: string)
    requires es != []
    ensures ParseElements(ElementsText(es) + ("]" + rest), before) == Ok(before + Meanings(es), "]" + rest)
    decreases es, 0
  {
    hide JsonText, Meaning, ParseValue, ParseElements;
    var x := Meaning(es[0]);
    if |es| == 1 {
      assert Meanings(es) == [x] by { assert es[1..] == []; assert Meanings(es[1..]) == []; }
      JsonIsRead(es[0], "]" + rest);
      OneElement(JsonText(es[0]), x, "]" + rest, before);
    } else {
      var later := ElementsText(es[1..]) + ("]" + rest);
      var more := ", " + later;
      ElementsCons(es);
      assert ElementsText(es) + ("]" + rest) == JsonText(es[0]) + more;
      JsonIsRead(es[0], more);
      OneElement(JsonText(es[0]), x, more, before);
      assert more[1..] == " " + later;
      ElementsAfterSpace(later, before + [x]);
      ElementsAreRead(es[1..], before + [x], rest);
      assert before + [x] + Meanings(es[1..]) == before + ([x] + Meanings(es[1..]));
    }
  }

  lemma ArrayIsRead(es: seq<Json>, rest: string)
    requires es != [] ==>
      ParseElements(ElementsText(es) + ("]" + rest), []) == Ok([] + Meanings(es), "]" + rest)
    ensures ParseValue(JsonText(Array(es)) + rest) == Ok(List(Meanings(es)), rest)
  {
    hide ElementsText, Meanings, ParseElements, ParseObject, ParseString, ParseNumber;
    var v, u := JsonText(Array(es)) + rest, ElementsText(es) + ("]" + rest);
    assert v == "[" + u;
    assert v[1..] == u;
    NotSkipped(v);
    assert ("]" + rest)[1..] == rest;
    if es == [] {
      assert ElementsText(es) == "" && Meanings(es) == [] by { NoElements(); }
      assert u == "]" + rest;
    } else {
      ElementsStart(es);
    }
    NotSkipped(u);
    assert [] + Meanings(es) == Meanings(es);
  }

  lemma NoElements()
    ensures ElementsText([]) == "" && Meanings([]) == []
  {
  }

  // A property and what comes after it in an object.
  lemma OneProperty(p: Property, more: string, before: map<string, Value>)
    requires ParseValue(JsonText(p.value) + more) == Ok(Meaning(p.value), more)
    requires more != "" && (more[0] == '}' || more[0] == ',')
    ensures ParseMembers(PropertyText(p) + more, before) ==
      var m := before[Strip(p.name) := Meaning(p.value)];
      if more[0] == '}' then Ok(m, more) else ParseMembers(more[1..], m)
  {
    hide ParseValue, JsonText, StringText, ParseString, Meaning, Strip;
    var after := ": " + (JsonText(p.value) + more);
    assert PropertyText(p) + more == StringText(p.name) + after;
    StringTextIsRead(p.name, after);
    NotSkipped(after);
    assert after[1..] == " " + (JsonText(p.value) + more);
    SpaceIsSkipped(JsonText(p.value) + more);
    NotSkipped(more);
  }

  lemma MembersAfterSpace(v: string, before: map<string, Value>)
    ensures ParseMembers(" " + v, before) == ParseMembers(v, before)
  {
    hide ParseValue, ParseString, SkipWhitespace;
    SpaceIsSkipped(v);
  }

  lemma {:induction false} PropertiesAreRead(ps: seq<Property>, before: map<string, Value>, rest: string)
    requires ps != []
    ensures ParseMembers(PropertiesText(ps) + ("}" + rest), before) == Ok(Members(ps, before), "}" + rest)
    decreases ps, 0
  {
    hide JsonText, Meaning, ParseValue, ParseMembers, PropertyText, Strip;
    var m := before[Strip(ps[0].name) := Meaning(ps[0].value)];
    if |ps| == 1 {
      assert Members(ps, before) == m by { assert ps[1..] == []; assert Members(ps[1..], m) == m; }
      JsonIsRead(ps[0].value, "}" + rest);
      OneProperty(ps[0], "}" + rest, before);
    } else {
      var later := PropertiesText(ps[1..]) + ("}" + rest);
      var more := ", " + later;
      PropertiesCons(ps);
      assert PropertiesText(ps) + ("}" + rest) == PropertyText(ps[0]) + more;
      JsonIsRead(ps[0].value, more);
      OneProperty(ps[0], more, before);
      assert more[1..] == " " + later;
      MembersAfterSpace(later, m);
      PropertiesAreRead(ps[1..], m, rest);
    }
  }

  lemma ObjectIsRead(ps: seq<Property>, rest: string)
    requires ps != [] ==>
      ParseMembers(PropertiesText(ps) + ("}" + rest), map[]) == Ok(Members(ps, map[]), "}" + rest)
    ensures ParseValue(JsonText(Object(ps)) + rest) == Ok(Map(Members(ps, map[])), rest)
  {
    hide PropertiesText, Members, ParseMembers, ParseArray, ParseString, ParseNumber;
    var v, u := JsonText(Object(ps)) + rest, PropertiesText(ps) + ("}" + rest);
    assert v == "{" + u;
    assert v[1..] == u;
    NotSkipped(v);
    assert ("}" + rest)[1..] == rest;
    if ps == [] {
      assert PropertiesText(ps) == "" && Members(ps, map[]) == map[] by { NoProperties(); }
      assert u == "}" + rest;
    } else {
      PropertiesStart(ps);
    }
    NotSkipped(u);
  }

  lemma NoProperties()
    ensures PropertiesText([]) == "" && Members([], map[]) == map[]
  {
  }

  lemma PropertiesStart(ps: seq<Property>)
    requires ps != []
    ensures PropertiesText(ps) != "" && PropertiesText(ps)[0] == '"'
  {
    hide JsonText, Escape;
    if |ps| > 1 {
      PropertiesCons(ps);
    }
  }

  // Whatever follows it, the text of a tree is read as what the tree says.
  lemma {:induction false} JsonIsRead(j: Json, rest: string)
    requires j.Integer? ==> EndsNumber(rest)
    ensures ParseValue(JsonText(j) + rest) == Ok(Meaning(j), rest)
    decreases j, 1
  {
    match j
    case Integer(n) => IntegerIsRead(n, rest);
    case Boolean(b) => BooleanIsRead(b, rest);
    case Text(s) => TextIsRead(s, rest);
    case Array(es) =>
      if es != [] {
        ElementsAreRead(es, [], rest);
      }
      ArrayIsRead(es, rest);
    case Object(ps) =>
      if ps != [] {
        PropertiesAreRead(ps, map[], rest);
      }
      ObjectIsRead(ps, rest);
  }

  // A whole text, with any whitespace after it, is read as what the tree says.
  lemma RoundTrip(j: Json, spaces: string)
    requires forall i :: 0 <= i < |spaces| ==> IsSpace(spaces[i])
    ensures Parse(JsonText(j) + spaces) == Some(Meaning(j))
  {
    hide JsonText, Meaning, ParseValue;
    JsonIsRead(j, spaces);
    AllSkipped(spaces);
  }

  lemma {:induction false} AllSkipped(spaces: string)
    requires forall i :: 0 <= i < |spaces| ==> IsSpace(spaces[i])
    ensures SkipWhitespace(spaces) == ""
  {
    if spaces != "" {
      AllSkipped(spaces[1..]);
    }
  }

  // A string survives exactly if each of its characters can be escaped.
  lemma {:induction false} StripKeeps(s: string)
    ensures |Strip(s)| <= |s|
    ensures Strip(s) == s <==> forall i :: 0 <= i < |s| ==> EscapeChar(s[i]) != ""
  {
    hide EscapeChar;
    if s != "" {
      var t := s[1..];
      StripKeeps(t);
      assert forall i :: 0 < i < |s| ==> s[i] == t[i - 1];
      assert forall i :: 0 <= i < |t| ==> t[i] == s[i + 1];
      if EscapeChar(s[0]) != "" {
        assert Strip(s)[1..] == Strip(t);
        assert s == [s[0]] + t;
      } else {
        assert "" + Strip(t) == Strip(t);
        assert |Strip(s)| < |s|;
      }
    }
  }
}
