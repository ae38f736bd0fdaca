// HTTP responses: the text that the server writes, how the test tools read it,
// and that reading recovers what was written.

module ResponseSpec {
  import opened Ints
  import opened Wrappers
  import opened Text
  import opened RequestGrammar
  import opened OrderedMaps
  import opened JsonSpec
  import opened RequestRoundTrip

  datatype EContentType = ApplicationJson | TextPlain | TextHtml

  datatype ResponseHeader = ResponseHeader(
    statusCode: nat, reasonPhrase: string, contentType: EContentType, contentLength: uint32, doClose: bool)

  const EOL := "\r\n"

  function MimeType(t: EContentType): string {
    match t
    case ApplicationJson => "application/json"
    case TextPlain => "text/plain"
    case TextHtml => "text/html"
  }

  // ------------------------------------------------------------- What is written

  function StatusLine(h: ResponseHeader): string {
    "HTTP/1.1" + " " + Decimal(h.statusCode) + " " + h.reasonPhrase
  }

  function HeadersOf(h: ResponseHeader): Entries {
    [("Server", "TinyAlpacaServer")] + (if h.doClose then [("Connection", "close")] else [])
    + [("Content-Type", MimeType(h.contentType)), ("Content-Length", Decimal(h.contentLength))]
  }

  function HeaderLine(e: (string, string)): string { e.0 + ": " + e.1 }

  // Each header on a line of its own, after the status line.
  function HeaderLines(es: Entries): string {
    if es == [] then "" else EOL + HeaderLine(es[0]) + HeaderLines(es[1..])
  }

  function ResponseHeaderText(h: ResponseHeader): string {
    StatusLine(h) + HeaderLines(HeadersOf(h)) + EOL + EOL
  }

  // --------------------------------------------------------------- What is read

  datatype HttpResponse = HttpResponse(
    httpVersion: string, statusCode: int, statusMessage: string, headers: Entries, bodyAndBeyond: string,
    jsonValue: Option<Value>)

  // Where a separator is found first.
  function FindText(v: string, separator: string): (n: nat)
    requires separator != ""
    ensures n <= |v|
    ensures n < |v| ==> separator <= v[n..]
  {
    if v == "" || separator <= v then 0 else FindText(v[1..], separator) + 1
  }

  // What is before and what is after the first separator, if there is one.
  function SplitOnce(v: string, separator: string): (r: (string, Option<string>))
    requires separator != ""
    ensures r.1.Some? ==> |r.1.value| < |v|
  {
    var n := FindText(v, separator);
    if n == |v| then (v, None) else (v[..n], Some(v[n + |separator|..]))
  }

  function SplitAll(v: string, separator: string): seq<string>
    requires separator != ""
    decreases |v|
  {
    var (first, rest) := SplitOnce(v, separator);
    match rest
    case None => [first]
    case Some(w) => [first] + SplitAll(w, separator)
  }

  // Name and value of each line; None if a line has no colon.
  function ReadHeaders(lines: seq<string>): Option<Entries> {
    if lines == [] then Some([])
    else
      var init := ReadHeaders(lines[..|lines| - 1]);
      var (name, value) := SplitOnce(lines[|lines| - 1], ":");
      if init.None? || value.None? then None else Some(init.value + [(name, Trimmed(value.value))])
  }

  // All the values of a header, in the order in which they came.
  function HeaderValues(es: Entries, name: string): seq<string> {
    if es == [] then []
    else HeaderValues(es[..|es| - 1], name) + if CaseEqual(es[|es| - 1].0, name) then [es[|es| - 1].1] else []
  }

  // The number that a text starts with, of 64 bits.
  function LeadingNumber(s: string): Option<nat> {
    var n := Digits(s);
    if n == 0 || DecimalValue(s[..n]) >= 0x1_0000_0000_0000_0000 then None else Some(DecimalValue(s[..n]))
  }

  function ContentLength(es: Entries): Option<nat> {
    var values := HeaderValues(es, "Content-Length");
    if |values| == 1 then LeadingNumber(values[0]) else None
  }

  // A body that is to be JSON is taken from the front of what follows the header.
  function ReadBody(hr: HttpResponse): Option<HttpResponse> {
    if MimeType(ApplicationJson) !in HeaderValues(hr.headers, "Content-Type") then Some(hr)
    else
      match ContentLength(hr.headers)
      case None => None
      case Some(n) =>
        if n > |hr.bodyAndBeyond| then None
        else
          match Parse(hr.bodyAndBeyond[..n])
          case None => None
          case Some(x) => Some(hr.(bodyAndBeyond := hr.bodyAndBeyond[n..], jsonValue := Some(x)))
  }

  function ReadStatusLine(line: string): Option<(string, int, string)> {
    var (version, rest) := SplitOnce(line, " ");
    match rest
    case None => None
    case Some(w) =>
      var (code, message) := SplitOnce(w, " ");
      match ToInt32(code)
      case None => None
      case Some(n) => Some((version, n, if message.Some? then message.value else ""))
  }

  function ReadResponse(v: string): Option<HttpResponse> {
    var (head, body) := SplitOnce(v, "\r\n\r\n");
    if body.None? || head == "" then None
    else
      var (line, rest) := SplitOnce(head, EOL);
      var status := ReadStatusLine(line);
      var headers := if rest.None? then Some([]) else ReadHeaders(SplitAll(rest.value, EOL));
      if status.None? || headers.None? then None
      else ReadBody(HttpResponse(status.value.0, status.value.1, status.value.2, headers.value, body.value, None))
  }

  // ----------------------------------------------------------------- The round trip

  lemma {:induction false} FindAfter(line: string, rest: string, separator: string)
    requires separator != "" && separator[0] !in line
    ensures FindText(line + rest, separator) == |line| + FindText(rest, separator)
  {
    if line == "" {
      assert line + rest == rest;
    } else {
      assert (line + rest)[1..] == line[1..] + rest;
      assert (line + rest)[0] == line[0];
      FindAfter(line[1..], rest, separator);
    }
  }

  lemma FindHere(separator: string, rest: string)
    requires separator != ""
    ensures FindText(separator + rest, separator) == 0
    ensures SplitOnce(separator + rest, separator) == ("", Some(rest))
  {
  }

  // A text without the first character of a separator, and then the separator.
  lemma SplitsAt(line: string, separator: string, rest: string)
    requires separator != "" && separator[0] !in line
    ensures SplitOnce(line + (separator + rest), separator) == (line, Some(rest))
  {
    var v := line + (separator + rest);
    FindAfter(line, separator + rest, separator);
    FindHere(separator, rest);
    assert v[..|line|] == line && v[|line| + |separator|..] == rest;
  }

  lemma SplitsNot(line: string, separator: string)
    requires separator != "" && separator[0] !in line
    ensures SplitOnce(line, separator) == (line, None)
  {
    FindAfter(line, "", separator);
    assert line + "" == line;
  }

  // A header that is written and read back as it is.
  ghost predicate Clean(e: (string, string)) {
    && e.0 != "" && ':' !in e.0 && '\r' !in e.0 && '\r' !in e.1
    && e.1 != "" && !Matches(OptionalWhitespace, e.1[0]) && !Matches(OptionalWhitespace, e.1[|e.1| - 1])
  }

  // The end of a header is not found before it.
  lemma {:induction false} EndIsFound(es: Entries, body: string)
    requires forall i :: 0 <= i < |es| ==> Clean(es[i])
    ensures FindText(HeaderLines(es) + ("\r\n\r\n" + body), "\r\n\r\n") == |HeaderLines(es)|
  {
    var end := "\r\n\r\n" + body;
    if es == [] {
      assert HeaderLines(es) + end == end;
      FindHere("\r\n\r\n", body);
    } else {
      EndIsFound(es[1..], body);
      var line, later := HeaderLine(es[0]), HeaderLines(es[1..]) + end;
      assert HeaderLines(es) + end == EOL + (line + later);
      FindAfter(line, later, "\r\n\r\n");
      LineIsNotEnd(line + later);
    }
  }

  lemma LineIsNotEnd(v: string)
    requires v != "" && v[0] != '\r'
    ensures FindText(EOL + v, "\r\n\r\n") == 2 + FindText(v, "\r\n\r\n")
  {
    var u := EOL + v;
    assert u[2] != '\r';
    assert u[1..][0] == '\n' && u[1..][1..] == v;
  }

  function LinesOf(es: Entries): (lines: seq<string>)
    ensures |lines| == |es|
    ensures forall i :: 0 <= i < |es| ==> lines[i] == HeaderLine(es[i])
  {
    if es == [] then [] else [HeaderLine(es[0])] + LinesOf(es[1..])
  }

  lemma CleanLine(e: (string, string))
    requires Clean(e)
    ensures HeaderLine(e) != "" && HeaderLine(e)[0] != '\r' && EOL[0] !in HeaderLine(e)
  {
  }

  // The header lines are found again.
  lemma {:induction false} LinesAreSplit(es: Entries)
    requires es != [] && forall i :: 0 <= i < |es| ==> Clean(es[i])
    ensures EOL <= HeaderLines(es)
    ensures SplitAll(HeaderLines(es)[2..], EOL) == LinesOf(es)
  {
    hide HeaderLine, Clean, SplitOnce, LinesOf;
    var line, later := HeaderLine(es[0]), HeaderLines(es[1..]);
    var text := HeaderLines(es);
    assert text == EOL + (line + later);
    assert text[2..] == line + later;
    CleanLine(es[0]);
    LinesOfCons(es);
    if |es| == 1 {
      assert es[1..] == [];
      assert line + later == line;
      SplitsNot(line, EOL);
    } else {
      LinesAreSplit(es[1..]);
      assert later == EOL + later[2..];
      SplitsAt(line, EOL, later[2..]);
    }
  }

  lemma LinesOfCons(es: Entries)
    requires es != []
    ensures LinesOf(es) == [HeaderLine(es[0])] + LinesOf(es[1..]) && LinesOf([]) == []
  {
  }

  lemma HeaderIsSplit(e: (string, string))
    requires Clean(e)
    ensures SplitOnce(HeaderLine(e), ":") == (e.0, Some(" " + e.1)) && Trimmed(" " + e.1) == e.1
  {
    assert HeaderLine(e) == e.0 + (":" + (" " + e.1));
    SplitsAt(e.0, ":", " " + e.1);
    TrimmedIs(e.1);
  }

  // And read back as the headers.
  lemma {:induction false} HeadersAreRead(es: Entries, lines: seq<string>)
    requires |lines| == |es| && forall i :: 0 <= i < |es| ==> Clean(es[i]) && lines[i] == HeaderLine(es[i])
    ensures ReadHeaders(lines) == Some(es)
  {
    hide Clean, HeaderLine, SplitOnce, Trimmed;
    if es != [] {
      var n := |es| - 1;
      HeadersAreRead(es[..n], lines[..n]);
      HeaderIsSplit(es[n]);
      assert es == es[..n] + [es[n]];
    }
  }

  // A header that can be read back: its reason phrase stays on the status line.
  ghost predicate Readable(h: ResponseHeader) {
    '\r' !in h.reasonPhrase && h.statusCode < 0x8000_0000
  }

  lemma HeadersAreClean(h: ResponseHeader)
    ensures forall i :: 0 <= i < |HeadersOf(h)| ==> Clean(HeadersOf(h)[i])
  {
    hide Clean;
    NumberIsClean(h.contentLength);
    FixedHeadersAreClean(h.contentType);
    hide Decimal, MimeType;
  }

  lemma NumberIsClean(n: nat)
    ensures Clean(("Content-Length", Decimal(n)))
  {
    var text := Decimal(n);
    assert forall i :: 0 <= i < |text| ==> IsDigit(text[i]);
    hide Decimal;
  }

  lemma FixedHeadersAreClean(t: EContentType)
    ensures Clean(("Server", "TinyAlpacaServer")) && Clean(("Connection", "close"))
    ensures Clean(("Content-Type", MimeType(t)))
  {
  }

  lemma StatusLineIsRead(h: ResponseHeader)
    requires Readable(h)
    ensures ReadStatusLine(StatusLine(h)) == Some(("HTTP/1.1", h.statusCode, h.reasonPhrase))
    ensures '\r' !in StatusLine(h)
  {
    hide Decimal;
    var code := Decimal(h.statusCode);
    assert forall i :: 0 <= i < |code| ==> IsDigit(code[i]);
    var rest := code + (" " + h.reasonPhrase);
    assert StatusLine(h) == "HTTP/1.1" + (" " + rest);
    SplitsAt("HTTP/1.1", " ", rest);
    SplitsAt(code, " ", h.reasonPhrase);
    Int32RoundTrip(h.statusCode);
    hide SplitOnce, ToInt32;
  }

  // The end of a header is found at its end.
  lemma HeadIsSplit(line: string, lines: string, body: string)
    requires '\r' !in line
    requires FindText(lines + ("\r\n\r\n" + body), "\r\n\r\n") == |lines|
    ensures SplitOnce(line + lines + EOL + EOL + body, "\r\n\r\n") == (line + lines, Some(body))
  {
    hide FindText;
    EndAlone(line + lines, EOL, "\r\n\r\n", body);
    var all := "\r\n\r\n" + body;
    SplitsWhere(line, lines, all);
    FindAfter(line, lines + all, "\r\n\r\n");
    AfterEnd(line + lines, "\r\n\r\n", body);
  }

  lemma EndAlone(head: string, eol: string, end: string, body: string)
    requires end == eol + eol
    ensures head + eol + eol + body == head + (end + body)
  {
  }

  lemma SplitsWhere(a: string, b: string, c: string)
    ensures a + b + c == a + (b + c)
  {
  }

  lemma AfterEnd(head: string, end: string, body: string)
    ensures var v := head + (end + body); v[..|head|] == head && v[|head| + |end|..] == body
  {
  }

  // The parts of a response.
  lemma ResponseIsSplit(h: ResponseHeader, body: string)
    requires Readable(h)
    ensures var head := StatusLine(h) + HeaderLines(HeadersOf(h));
      && SplitOnce(ResponseHeaderText(h) + body, "\r\n\r\n") == (head, Some(body))
      && SplitOnce(head, EOL) == (StatusLine(h), Some(HeaderLines(HeadersOf(h))[2..]))
      && SplitAll(HeaderLines(HeadersOf(h))[2..], EOL) == LinesOf(HeadersOf(h))
  {
    hide StatusLine, HeadersOf, HeaderLines, Clean, LinesOf, SplitAll, SplitOnce, FindText;
    var line, es := StatusLine(h), HeadersOf(h);
    var lines := HeaderLines(es);
    StatusLineIsRead(h);
    HeadersAreClean(h);
    HasHeaders(h);
    LinesAreSplit(es);
    assert lines == EOL + lines[2..];
    SplitsAt(line, EOL, lines[2..]);
    EndIsFound(es, body);
    HeadIsSplit(line, lines, body);
  }

  lemma HasHeaders(h: ResponseHeader)
    ensures HeadersOf(h) != []
  {
  }

  lemma {:induction false} HeaderValuesSnoc(es: Entries, e: (string, string), name: string)
    ensures HeaderValues(es + [e], name) == HeaderValues(es, name) + if CaseEqual(e.0, name) then [e.1] else []
  {
    assert (es + [e])[..|es|] == es;
  }

  lemma NamesOfHeaders()
    ensures !CaseEqual("Server", "Content-Type") && !CaseEqual("Server", "Content-Length")
    ensures !CaseEqual("Connection", "Content-Type") && !CaseEqual("Connection", "Content-Length")
    ensures !CaseEqual("Content-Length", "Content-Type") && !CaseEqual("Content-Type", "Content-Length")
    ensures CaseEqual("Content-Type", "Content-Type") && CaseEqual("Content-Length", "Content-Length")
  {
  }

  lemma ValuesOf(h: ResponseHeader, name: string)
    requires name == "Content-Type" || name == "Content-Length"
    ensures HeaderValues(HeadersOf(h), name) ==
      [if name == "Content-Type" then MimeType(h.contentType) else Decimal(h.contentLength)]
  {
    NamesOfHeaders();
    hide Decimal, MimeType, CaseEqual, HeaderValues;
    var server := ("Server", "TinyAlpacaServer");
    var close := ("Connection", "close");
    var rest := [("Content-Type", MimeType(h.contentType)), ("Content-Length", Decimal(h.contentLength))];
    var first := [server] + if h.doClose then [close] else [];
    assert HeaderValues([], name) == [] by { NoValues(name); }
    assert [] + [server] == [server] && [server] + [] == [server];
    HeaderValuesSnoc([], server, name);
    HeaderValuesSnoc([server], close, name);
    assert HeaderValues(first, name) == [];
    HeaderValuesSnoc(first, rest[0], name);
    HeaderValuesSnoc(first + [rest[0]], rest[1], name);
    assert HeadersOf(h) == first + [rest[0]] + [rest[1]];
  }

  lemma NoValues(name: string)
    ensures HeaderValues([], name) == []
  {
  }

  // The length, and the type, are found among the headers.
  lemma LengthIsRead(h: ResponseHeader)
    ensures ContentLength(HeadersOf(h)) == Some(h.contentLength)
    ensures HeaderValues(HeadersOf(h), "Content-Type") == [MimeType(h.contentType)]
  {
    hide Decimal, MimeType, CaseEqual, DecimalValue, Digits, HeaderValues, HeadersOf;
    ValuesOf(h, "Content-Length");
    ValuesOf(h, "Content-Type");
    var n := Decimal(h.contentLength);
    DigitsOf(n, "");
    DecimalRoundTrip(h.contentLength);
    assert n + "" == n && n[..|n|] == n;
  }

  // What a response says is what went into it: its header, a JSON body of the
  // announced length, and whatever follows that.
  lemma ResponseIsRead(h: ResponseHeader, j: Json, spaces: string, more: string)
    requires Readable(h) && h.contentType == ApplicationJson
    requires forall i :: 0 <= i < |spaces| ==> IsSpace(spaces[i])
    requires h.contentLength == |JsonText(j) + spaces|
    ensures ReadResponse(ResponseHeaderText(h) + (JsonText(j) + spaces + more)) ==
      Some(HttpResponse("HTTP/1.1", h.statusCode, h.reasonPhrase, HeadersOf(h), more, Some(JsonSpec.Meaning(j))))
  {
    hide StatusLine, HeadersOf, HeaderLines, ResponseHeaderText, SplitOnce, SplitAll, ReadHeaders, ReadStatusLine,
         LinesOf, JsonText, JsonSpec.Meaning, Parse, ContentLength, HeaderValues, Clean;
    var text := JsonText(j) + spaces;
    var body := text + more;
    ResponseIsSplit(h, body);
    StatusLineIsRead(h);
    HeadersAreClean(h);
    HeadersAreRead(HeadersOf(h), LinesOf(HeadersOf(h)));
    LengthIsRead(h);
    RoundTrip(j, spaces);
    assert body[..|text|] == text && body[|text|..] == more;
    assert StatusLine(h) != "" by { StatusLineStarts(h); }
  }

  lemma StatusLineStarts(h: ResponseHeader)
    ensures StatusLine(h) != ""
  {
  }
}
