// What the decoder makes of the text of an HttpRequest is what went into it.

module RequestRoundTrip {
  import opened Ints
  import opened Wrappers
  import opened Text
  import opened Protocol
  import opened AlpacaRequests
  import opened DecoderSpec
  import opened Fragmentation
  import opened RequestGrammar
  import opened GrammarTheorems
  import opened DecodedRequests
  import opened ParameterSoundness
  import opened OrderedMaps
  import opened HttpRequests

  // ------------------------------------------------ The tree of a request's text

  function ToParams(m: Entries): (ps: seq<Param>)
    ensures |ps| == |m|
  {
    if m == [] then []
    else [Param(Encode(m[0].0), Encode(m[0].1), if |m| == 1 then 0 else 1)] + ToParams(m[1..])
  }

  function ToLines(m: Entries): seq<Line> {
    if m == [] then [] else (if m[0].1 == "" then [] else [Line(m[0].0, " " + m[0].1)]) + ToLines(m[1..])
  }

  function ToMessage(h: Contents, p: Path): Message {
    var ps := ToParams(h.parameters);
    Message(h.verb, p, if h.verb == "GET" then ps else [], ToLines(FinalHeaders(h)), if h.verb == "PUT" then ps else [])
  }

  lemma {:induction false} JoinCons(m: Entries)
    requires |m| > 1
    ensures Join(m) == PairText(m[0]) + ("&" + Join(m[1..]))
  {
    hide PairText;
    var init, last := m[..|m| - 1], PairText(m[|m| - 1]);
    assert m[1..][..|m| - 2] == init[1..];
    if |m| > 2 {
      JoinCons(init);
      assert Join(m) == PairText(m[0]) + ("&" + Join(init[1..])) + "&" + last;
    }
  }

  lemma {:induction false} JoinIsParams(m: Entries)
    ensures Join(m) == ParamsText(ToParams(m))
  {
    hide Encode;
    if |m| > 1 {
      JoinCons(m);
      JoinIsParams(m[1..]);
      assert Separators(1) == "&" by { assert Separators(0) == ""; }
    } else if |m| == 1 {
      assert ToParams(m)[1..] == [];
    }
  }

  lemma {:induction false} HeadersCons(m: Entries)
    requires m != []
    ensures HeadersText(m) == HttpRequests.HeaderText(m[0]) + HeadersText(m[1..])
  {
    hide HttpRequests.HeaderText;
    if |m| > 1 {
      HeadersCons(m[..|m| - 1]);
      assert m[..|m| - 1][1..] == m[1..][..|m| - 2];
    } else {
      assert m[..0] == [] == m[1..];
    }
  }

  lemma ToLinesCons(m: Entries)
    requires m != []
    ensures var ls, rest := ToLines(m), ToLines(m[1..]);
      if m[0].1 == "" then ls == rest else ls != [] && ls[0] == Line(m[0].0, " " + m[0].1) && ls[1..] == rest
  {
  }

  lemma {:induction false} HeadersAreLines(m: Entries)
    ensures HeadersText(m) == LinesText(ToLines(m))
  {
    if m != [] {
      HeadersCons(m);
      HeadersAreLines(m[1..]);
      LineOf(m[0]);
      ToLinesCons(m);
      hide HeadersText, HttpRequests.HeaderText, LineText, ToLines;
    }
  }

  lemma LineOf(e: (string, string))
    ensures e.1 != "" ==> HttpRequests.HeaderText(e) == LineText(Line(e.0, " " + e.1))
  {
    assert e.0 + ": " == e.0 + ":" + " ";
  }

  // Text and tree agree.
  lemma RequestTextIs(h: Contents, p: Path)
    requires h.verb == "GET" || h.verb == "PUT"
    requires h.path == "/" + PathText(p) && h.version == "HTTP/1.1"
    ensures RequestText(h) == MessageText(ToMessage(h, p))
  {
    hide Join, FinalHeaders, PathText, HeadersText, ParamsText, LinesText;
    var m := ToMessage(h, p);
    JoinIsParams(h.parameters);
    HeadersAreLines(FinalHeaders(h));
    assert ParamsText([]) == "" by { NoText(); }
    assert StartLineText(h) == StartText(m) by { StartsAgree(h, p); }
    hide StartLineText, StartText, ToParams, ToLines;
    MessageParts(m, "");
    assert MessageText(m) + "" == MessageText(m);
    assert ParamsText(m.body) + "" == ParamsText(m.body);
  }

  lemma NoText()
    ensures ParamsText([]) == ""
  {
  }

  lemma StartsAgree(h: Contents, p: Path)
    requires h.verb == "GET" || h.verb == "PUT"
    requires h.path == "/" + PathText(p) && h.version == "HTTP/1.1"
    requires Join(h.parameters) == ParamsText(ToParams(h.parameters))
    ensures StartLineText(h) == StartText(ToMessage(h, p))
  {
    hide Join, PathText, ParamsText, FinalHeaders, ToLines;
    assert Join(h.parameters) == "" <==> h.parameters == [];
    assert h.verb + " " + h.path == h.verb + " /" + PathText(p);
    assert " " + h.version + "\r\n" == " HTTP/1.1\r\n";
  }

  // --------------------------------------------------------- Parameters that can be sent

  ghost predicate Sendable(m: Entries) {
    forall i :: 0 <= i < |m| ==> AllMatch(m[i].0, NameChars) && AllMatch(Encode(m[i].1), ParamValueChars)
  }

  lemma {:induction false} PlainIsKept(s: string)
    requires forall i :: 0 <= i < |s| ==> Plain(s[i])
    ensures Encode(s) == s
  {
    if s != "" {
      PlainIsKept(s[..|s| - 1]);
      hide Plain;
    }
  }

  lemma NamesAreKept(s: string)
    requires AllMatch(s, NameChars)
    ensures Encode(s) == s
  {
    forall i | 0 <= i < |s| ensures Plain(s[i]) {
      NameCharIsPlain(s[i]);
    }
    PlainIsKept(s);
  }

  lemma NameCharIsPlain(c: char)
    requires Matches(NameChars, c)
    ensures Plain(c)
  {
  }

  lemma {:induction false} ToParamsAt(m: Entries, i: nat)
    requires i < |m|
    ensures ToParams(m)[i] == Param(Encode(m[i].0), Encode(m[i].1), if i == |m| - 1 then 0 else 1)
  {
    hide Encode;
    if i > 0 {
      ToParamsAt(m[1..], i - 1);
    }
  }

  lemma {:induction false} SendableOk(m: Entries)
    requires Sendable(m)
    ensures ParamsOk(ToParams(m))
  {
    hide Encode, AllMatch;
    if m != [] {
      SendableOk(m[1..]);
      NamesAreKept(m[0].0);
      assert ToParams(m)[1..] == ToParams(m[1..]);
    }
  }

  // ------------------------------------------------------------------- Headers

  // A header that the decoder does not act on.
  ghost predicate Harmless(e: (string, string)) {
    && AllMatch(e.0, NameChars) && AllMatch(e.1, FieldContent)
    && (MatchHttpHeader(e.0).None? || MatchHttpHeader(e.0).value.DateHeader?)
  }

  lemma {:induction false} ReadLinesBoth(m: EHttpMethod, facts: HeaderFacts, a: seq<Line>, b: seq<Line>)
    ensures ReadLines(m, facts, a + b) ==
      match ReadLines(m, facts, a) case None => None case Some(facts') => ReadLines(m, facts', b)
    decreases |a|
  {
    hide ReadLine;
    if a == [] {
      assert a + b == b;
    } else {
      assert (a + b)[1..] == a[1..] + b;
      var r := ReadLine(m, facts, a[0]);
      if r.Some? {
        ReadLinesBoth(m, r.value, a[1..], b);
      }
    }
  }

  lemma {:induction false} ToLinesBoth(a: Entries, b: Entries)
    ensures ToLines(a + b) == ToLines(a) + ToLines(b)
    decreases |a|
  {
    if a == [] {
      assert a + b == b;
    } else {
      assert (a + b)[1..] == a[1..] + b;
      ToLinesBoth(a[1..], b);
    }
  }

  lemma {:induction false} LinesOkBoth(a: seq<Line>, b: seq<Line>)
    requires LinesOk(a) && LinesOk(b)
    ensures LinesOk(a + b)
    decreases |a|
  {
    hide LineOk;
    if a == [] {
      assert a + b == b;
    } else {
      assert (a + b)[1..] == a[1..] + b;
      LinesOkBoth(a[1..], b);
    }
  }

  // Headers that the decoder accepts and that leave it as it was.
  ghost predicate Neutral(m: EHttpMethod, es: Entries) {
    LinesOk(ToLines(es)) && forall facts :: ReadLines(m, facts, ToLines(es)) == Some(facts)
  }

  lemma NeutralBoth(m: EHttpMethod, a: Entries, b: Entries)
    requires Neutral(m, a) && Neutral(m, b)
    ensures Neutral(m, a + b)
  {
    hide ReadLines, ToLines;
    ToLinesBoth(a, b);
    LinesOkBoth(ToLines(a), ToLines(b));
    forall facts ensures ReadLines(m, facts, ToLines(a + b)) == Some(facts) {
      ReadLinesBoth(m, facts, ToLines(a), ToLines(b));
    }
  }

  lemma HarmlessLine(m: EHttpMethod, facts: HeaderFacts, e: (string, string))
    requires Harmless(e)
    ensures var l := Line(e.0, " " + e.1); LineOk(l) && ReadLine(m, facts, l) == Some(facts)
  {
    hide MatchHttpHeader, Trimmed, ToUint32, CaseEqual;
    var v := " " + e.1;
    assert AllMatch(v, FieldContent);
    assert forall i :: 0 <= i < |v| ==> v[i] != '\r';
  }

  lemma {:induction false} HarmlessIsNeutral(m: EHttpMethod, es: Entries)
    requires forall i :: 0 <= i < |es| ==> Harmless(es[i])
    ensures Neutral(m, es)
  {
    hide Harmless, ReadLine, LineOk, ToLines;
    if es == [] {
      assert ToLines(es) == [] by { NoLines(); }
    } else {
      HarmlessIsNeutral(m, es[1..]);
      ToLinesCons(es);
      HarmlessLine(m, HeaderFacts(None, false), es[0]);
      forall facts ensures ReadLines(m, facts, ToLines(es)) == Some(facts) {
        HarmlessLine(m, facts, es[0]);
      }
    }
  }

  lemma NoLines()
    ensures ToLines([]) == []
  {
  }

  // A value that neither starts nor ends with whitespace is read as it was written.
  lemma TrimmedIs(value: string)
    requires value != "" && !Matches(OptionalWhitespace, value[0])
    requires !Matches(OptionalWhitespace, value[|value| - 1])
    ensures Trimmed(" " + value) == value
  {
    var v := " " + value;
    assert v[..1] == " ";
    SpanIs(v, OptionalWhitespace, 1);
    assert v[1..] == value;
    hide Span;
  }

  lemma HeaderNames()
    ensures MatchHttpHeader(CONTENT_LENGTH) == Some(ContentLengthHeader) && AllMatch(CONTENT_LENGTH, NameChars)
    ensures MatchHttpHeader(CONTENT_TYPE) == Some(ContentTypeHeader) && AllMatch(CONTENT_TYPE, NameChars)
  {
  }

  lemma MimeTypeIsFieldContent()
    ensures AllMatch(" " + MIME_TYPE_WWW_FORM_URL_ENCODED, FieldContent)
  {
    assert AllMatch(MIME_TYPE_WWW_FORM_URL_ENCODED, FieldContent);
  }

  lemma ContentTypeLine(facts: HeaderFacts)
    ensures var l := Line(CONTENT_TYPE, " " + MIME_TYPE_WWW_FORM_URL_ENCODED);
      LineOk(l) && ReadLine(PUT, facts, l) == Some(facts)
  {
    TrimmedIs(MIME_TYPE_WWW_FORM_URL_ENCODED);
    hide MatchHttpHeader, Trimmed, ToUint32, CaseEqual, AllMatch;
    HeaderNames();
    MimeTypeIsFieldContent();
  }

  lemma ContentLengthLine(facts: HeaderFacts, n: uint16)
    requires facts.length.None?
    ensures var l := Line(CONTENT_LENGTH, " " + Decimal(n));
      LineOk(l) && ReadLine(PUT, facts, l) == Some(facts.(length := Some(n)))
  {
    var text := Decimal(n);
    assert forall i :: 0 <= i < |text| ==> IsDigit(text[i]);
    TrimmedIs(text);
    Uint32RoundTrip(n);
    hide MatchHttpHeader, Trimmed, ToUint32, CaseEqual, Decimal;
    HeaderNames();
    assert AllMatch(" " + text, FieldContent);
  }

  lemma {:induction false} InsertSplits(m: Entries, name: string, value: string) returns (k: nat)
    requires forall i :: 0 <= i < |m| ==> !CaseEqual(m[i].0, name)
    ensures k <= |m| && Insert(m, name, value) == m[..k] + [(name, value)] + m[k..]
  {
    hide Less, CaseEqual;
    if m == [] || Less(name, m[0].0) {
      return 0;
    }
    LessIsTotal(m[0].0, name);
    var j := InsertSplits(m[1..], name, value);
    return j + 1;
  }

  lemma HarmlessIsNot(e: (string, string), name: string, h: EHttpHeader)
    requires Harmless(e) && MatchHttpHeader(name) == Some(h) && !h.DateHeader?
    ensures !CaseEqual(e.0, name)
  {
    if CaseEqual(e.0, name) {
      SameHeaderName(e.0, name);
    }
  }

  lemma SameHeaderName(a: string, b: string)
    requires CaseEqual(a, b)
    ensures MatchHttpHeader(a) == MatchHttpHeader(b)
  {
    MatchIgnoresCase(HttpHeaders(), a, b);
  }

  // A header that ToString adds to harmless ones, and what is on either side of it.
  lemma FinalHeadersSplit(h: Contents) returns (a: Entries, b: Entries)
    requires h.verb == "PUT" && |Join(h.parameters)| <= MAX_UINT16
    requires forall i :: 0 <= i < |h.headers| ==> Harmless(h.headers[i])
    ensures FinalHeaders(h) == a + [(CONTENT_LENGTH, Decimal(|Join(h.parameters)|))] + b
    ensures Neutral(PUT, a) && Neutral(PUT, b)
  {
    hide Harmless, Neutral, Insert, CaseEqual, Join, MatchHttpHeader, AllMatch, Decimal;
    HeaderNames();
    ZeroText();
    forall i | 0 <= i < |h.headers|
      ensures !CaseEqual(h.headers[i].0, CONTENT_LENGTH) && !CaseEqual(h.headers[i].0, CONTENT_TYPE)
    {
      HarmlessIsNot(h.headers[i], CONTENT_LENGTH, ContentLengthHeader);
      HarmlessIsNot(h.headers[i], CONTENT_TYPE, ContentTypeHeader);
    }
    var text := Join(h.parameters);
    if text == "" {
      var k := InsertSplits(h.headers, CONTENT_LENGTH, "0");
      a, b := h.headers[..k], h.headers[k..];
      HarmlessIsNeutral(PUT, a);
      HarmlessIsNeutral(PUT, b);
    } else {
      var k := InsertSplits(h.headers, CONTENT_TYPE, MIME_TYPE_WWW_FORM_URL_ENCODED);
      var t := [(CONTENT_TYPE, MIME_TYPE_WWW_FORM_URL_ENCODED)];
      var all := h.headers[..k] + t + h.headers[k..];
      assert !CaseEqual(CONTENT_TYPE, CONTENT_LENGTH) by { DifferentWords(CONTENT_TYPE, CONTENT_LENGTH, 0); }
      var j := InsertSplits(all, CONTENT_LENGTH, Decimal(|text|));
      a, b := all[..j], all[j..];
      NeutralParts(h.headers, k, j);
    }
  }

  lemma ZeroText()
    ensures Decimal(0) == "0"
  {
  }

  lemma ToLinesOfOne(e: (string, string))
    requires e.1 != ""
    ensures ToLines([e]) == [Line(e.0, " " + e.1)]
  {
  }

  lemma ContentTypeIsNeutral()
    ensures Neutral(PUT, [(CONTENT_TYPE, MIME_TYPE_WWW_FORM_URL_ENCODED)])
  {
    hide ReadLine, LineOk, ToLines;
    var es := [(CONTENT_TYPE, MIME_TYPE_WWW_FORM_URL_ENCODED)];
    var l := Line(CONTENT_TYPE, " " + MIME_TYPE_WWW_FORM_URL_ENCODED);
    ToLinesOfOne(es[0]);
    forall facts ensures ReadLines(PUT, facts, ToLines(es)) == Some(facts) {
      ContentTypeLine(facts);
      OneLine(PUT, facts, l);
    }
    ContentTypeLine(HeaderFacts(None, false));
    OneLine(PUT, HeaderFacts(None, false), l);
  }

  // Harmless headers with the content type among them, cut anywhere.
  lemma NeutralParts(headers: Entries, k: nat, j: nat)
    requires k <= |headers| && j <= |headers| + 1
    requires forall i :: 0 <= i < |headers| ==> Harmless(headers[i])
    ensures var all := headers[..k] + [(CONTENT_TYPE, MIME_TYPE_WWW_FORM_URL_ENCODED)] + headers[k..];
      Neutral(PUT, all[..j]) && Neutral(PUT, all[j..])
  {
    hide Harmless, Neutral;
    var t := [(CONTENT_TYPE, MIME_TYPE_WWW_FORM_URL_ENCODED)];
    var all := headers[..k] + t + headers[k..];
    ContentTypeIsNeutral();
    if j <= k {
      HarmlessIsNeutral(PUT, headers[..j]);
      HarmlessIsNeutral(PUT, headers[j..k]);
      HarmlessIsNeutral(PUT, headers[k..]);
      NeutralBoth(PUT, headers[j..k], t);
      NeutralBoth(PUT, headers[j..k] + t, headers[k..]);
      assert all[..j] == headers[..j] && all[j..] == headers[j..k] + t + headers[k..];
    } else {
      HarmlessIsNeutral(PUT, headers[..k]);
      HarmlessIsNeutral(PUT, headers[k..j - 1]);
      HarmlessIsNeutral(PUT, headers[j - 1..]);
      NeutralBoth(PUT, headers[..k], t);
      NeutralBoth(PUT, headers[..k] + t, headers[k..j - 1]);
      assert all[..j] == headers[..k] + t + headers[k..j - 1] && all[j..] == headers[j - 1..];
    }
  }

  // The header lines of a PUT announce the length of its parameters.
  lemma ReadPutHeaders(h: Contents, close: bool)
    requires h.verb == "PUT" && |Join(h.parameters)| <= MAX_UINT16
    requires forall i :: 0 <= i < |h.headers| ==> Harmless(h.headers[i])
    ensures var ls := ToLines(FinalHeaders(h));
      && LinesOk(ls)
      && ReadLines(PUT, HeaderFacts(None, close), ls) == Some(HeaderFacts(Some(|Join(h.parameters)|), close))
  {
    hide Harmless, FinalHeaders, ToLines, ReadLines, ReadLine, LineOk, Join, LinesOk, Decimal;
    var a, b := FinalHeadersSplit(h);
    var c := [(CONTENT_LENGTH, Decimal(|Join(h.parameters)|))];
    var l := Line(CONTENT_LENGTH, " " + Decimal(|Join(h.parameters)|));
    var facts := HeaderFacts(None, close);
    ToLinesBoth(a + c, b);
    ToLinesBoth(a, c);
    ToLinesOfOne(c[0]);
    ContentLengthLine(facts, |Join(h.parameters)|);
    OneLine(PUT, facts, l);
    LinesOkBoth(ToLines(a), [l]);
    LinesOkBoth(ToLines(a) + [l], ToLines(b));
    ReadLinesBoth(PUT, facts, ToLines(a) + [l], ToLines(b));
    ReadLinesBoth(PUT, facts, ToLines(a), [l]);
  }

  lemma OneLine(m: EHttpMethod, facts: HeaderFacts, l: Line)
    ensures ReadLines(m, facts, [l]) == ReadLine(m, facts, l)
    ensures LinesOk([l]) == LineOk(l)
  {
    hide ReadLine, LineOk;
  }

  // ------------------------------------------------------------ The round trip

  // What is asked of a request, beyond its parameters: a method and a path that
  // the decoder knows, headers of the caller's that it does not act on, names
  // and values it can take, and a body that is not too long.
  ghost predicate Servable(h: Contents, p: Path, req: RequestFields) {
    && (h.verb == "GET" || h.verb == "PUT") && h.path == "/" + PathText(p) && h.version == "HTTP/1.1"
    && PathOk(p) && ReadPath(WithMethod(req, h), p).Some?
    && (forall i :: 0 <= i < |h.headers| ==> Harmless(h.headers[i]))
    && Sendable(h.parameters)
    && (h.verb == "PUT" ==> |Join(h.parameters)| <= MAX_UINT16)
  }

  function WithMethod(req: RequestFields, h: Contents): RequestFields {
    req.(httpMethod := if h.verb == "GET" then GET else PUT)
  }

  lemma ToMessageOk(h: Contents, p: Path, req: RequestFields)
    requires Servable(h, p, req)
    ensures MessageOk(ToMessage(h, p))
  {
    hide Harmless, Sendable, Join, ReadPath, ToLines, ToParams, PathText, ParamsOk, LinesOk, PathOk, FinalHeaders;
    assert AllMatch("GET", NameChars) && AllMatch("PUT", NameChars);
    SendableOk(h.parameters);
    assert ParamsOk([]) by { NoParamsOk(); }
    if h.verb == "PUT" {
      ReadPutHeaders(h, false);
    } else {
      HarmlessIsNeutral(GET, h.headers);
      GetHeaders(h);
    }
  }

  lemma NoParamsOk()
    ensures ParamsOk([])
  {
  }

  lemma GetHeaders(h: Contents)
    requires h.verb == "GET"
    ensures FinalHeaders(h) == h.headers
  {
  }

  lemma Verbs()
    ensures MatchHttpMethod("GET") == Some(GET) && MatchHttpMethod("PUT") == Some(PUT)
  {
  }

  // A request means: its method, its path, and then its parameters stored in
  // order, whether they are sent in the query or in the body.
  lemma MeaningIs(h: Contents, p: Path, req: RequestFields)
    requires Servable(h, p, req)
    ensures Meaning(req, ToMessage(h, p)) == StoreParams(ReadPath(WithMethod(req, h), p).value, ToParams(h.parameters))
  {
    Verbs();
    var req1 := ReadPath(WithMethod(req, h), p).value;
    ReadPathKeeps(WithMethod(req, h), p);
    var ps := ToParams(h.parameters);
    NoParamsStored(req1);
    if h.verb == "GET" {
      GetMeaning(h, p, req, req1);
    } else {
      PutMeaning(h, p, req, req1);
    }
  }

  lemma GetMeaning(h: Contents, p: Path, req: RequestFields, req1: RequestFields)
    requires Servable(h, p, req) && h.verb == "GET" && ReadPath(WithMethod(req, h), p) == Some(req1)
    ensures Meaning(req, ToMessage(h, p)) == StoreParams(req1, ToParams(h.parameters))
  {
    hide Harmless, Sendable, Join, ReadPath, ToLines, ToParams, PathText, FinalHeaders, MatchHttpMethod,
         StoreParams, ReadLines, ParamsText;
    Verbs();
    GetHeaders(h);
    HarmlessIsNeutral(GET, h.headers);
    ReadPathKeeps(WithMethod(req, h), p);
    var stored := StoreParams(req1, ToParams(h.parameters));
    if stored.Some? {
      StoreParamsKeeps(req1, ToParams(h.parameters));
      assert stored.value.(doClose := stored.value.doClose) == stored.value;
    }
  }

  // The meaning of a header from the meanings of its parts.
  lemma HeaderMeaningOf(req: RequestFields, r: Message, m: EHttpMethod, req1: RequestFields, req2: RequestFields,
                        facts: HeaderFacts)
    requires MatchHttpMethod(r.verb) == Some(m) && ReadPath(req.(httpMethod := m), r.path) == Some(req1)
    requires StoreParams(req1, r.query) == Some(req2)
    requires ReadLines(m, HeaderFacts(None, req2.doClose), r.headers) == Some(facts) && facts.close == req2.doClose
    ensures HeaderMeaning(req, r) == Some((req2, facts.length))
  {
    hide ReadPath, MatchHttpMethod, StoreParams, ReadLines;
    assert req2.(doClose := req2.doClose) == req2;
  }

  lemma PutHeaderMeaning(h: Contents, p: Path, req: RequestFields, req1: RequestFields)
    requires Servable(h, p, req) && h.verb == "PUT" && ReadPath(WithMethod(req, h), p) == Some(req1)
    ensures HeaderMeaning(req, ToMessage(h, p)) == Some((req1, Some(|Join(h.parameters)|)))
  {
    hide Sendable, Join, ReadPath, ToLines, ToParams, PathText, FinalHeaders, MatchHttpMethod, PathOk, Harmless,
         StoreParams, ReadLines, HeaderMeaning, LinesOk;
    Verbs();
    ReadPutHeaders(h, req1.doClose);
    NoParamsStored(req1);
    HeaderMeaningOf(req, ToMessage(h, p), PUT, req1, req1, HeaderFacts(Some(|Join(h.parameters)|), req1.doClose));
  }

  lemma PutMeaning(h: Contents, p: Path, req: RequestFields, req1: RequestFields)
    requires Servable(h, p, req) && h.verb == "PUT" && ReadPath(WithMethod(req, h), p) == Some(req1)
    ensures Meaning(req, ToMessage(h, p)) == StoreParams(req1, ToParams(h.parameters))
  {
    hide Servable, Join, ReadPath, ToParams, HeaderMeaning, StoreParams, ParamsText;
    PutHeaderMeaning(h, p, req, req1);
    ReadPathKeeps(WithMethod(req, h), p);
    JoinIsParams(h.parameters);
  }

  predicate HasBody(h: Contents) { h.verb == "PUT" && h.parameters != [] }

  // Exactly the text of the request is consumed, and its parameters stored.
  ghost predicate IsServed(h: Contents, p: Path, s: DecoderState, o: Outcome)
    requires ReadPath(WithMethod(s.request, h), p).Some?
  {
    var req1 := ReadPath(WithMethod(s.request, h), p).value;
    o.status.HttpOk? && o.used == |RequestText(h)|
    && SamePath(req1, o.state.request) && Stored(req1, ToParams(h.parameters), o.state.request)
  }

  // A request whose parameters are acceptable is understood, by any decoder at the
  // beginning; and when its tree is decoded, it is served.
  lemma RequestIsUnderstood(h: Contents, p: Path, s: DecoderState)
    requires Servable(h, p, s.request)
    requires Acceptable(ReadPath(WithMethod(s.request, h), p).value, ToParams(h.parameters))
    ensures var r := ToMessage(h, p);
      && Understood(s, r) && MessageText(r) == RequestText(h) && (r.body == [] <==> !HasBody(h))
      && forall o :: IsDecoded(s, r, o) ==> IsServed(h, p, s, o)
  {
    hide Servable, Acceptable, Stored, ReadPath, RequestText, MessageText, Meaning, MessageOk, StoreParams, SamePath,
         ToParams;
    assert (h.verb == "GET" || h.verb == "PUT") && h.path == "/" + PathText(p) && h.version == "HTTP/1.1"
           && ReadPath(WithMethod(s.request, h), p).Some? by { ServableIs(h, p, s.request); }
    var req1, ps := ReadPath(WithMethod(s.request, h), p).value, ToParams(h.parameters);
    StoreParamsIs(req1, ps);
    StoreParamsKeeps(req1, ps);
    RequestTextIs(h, p);
    ToMessageOk(h, p, s.request);
    MeaningIs(h, p, s.request);
  }

  // A view that starts with such a request is decoded, whatever follows it; but
  // if the request has a body, and something follows, it is too large.
  lemma RequestDecodes(h: Contents, p: Path, s: DecoderState, v: string, full: bool, atEnd: bool)
    requires AtBeginning(s) && Servable(h, p, s.request) && RequestText(h) <= v
    requires Acceptable(ReadPath(WithMethod(s.request, h), p).value, ToParams(h.parameters))
    ensures var o := DecodeBuffer(s, v, full, atEnd);
      if HasBody(h) && v != RequestText(h) then o.status.HttpPayloadTooLarge? else IsServed(h, p, s, o)
  {
    hide AtBeginning, Acceptable, Understood, ToMessage, MessageText, RequestText, DecodeBuffer, IsDecoded, IsServed,
         ReadPath, PathOk, Harmless;
    RequestIsUnderstood(h, p, s);
    DecodedExactly(s, v, full, atEnd);
    assert Decodable(s, ToMessage(h, p), v) <==> !HasBody(h) || v == RequestText(h);
  }

  // And so it is when it arrives in pieces, if one of them ends where its body does.
  lemma RequestDecodesFed(h: Contents, p: Path, s: DecoderState, chunks: seq<string>)
    requires AtBeginning(s) && Servable(h, p, s.request) && RequestText(h) <= Concat(chunks)
    requires Acceptable(ReadPath(WithMethod(s.request, h), p).value, ToParams(h.parameters))
    requires HasBody(h) ==> EndsWithPiece(RequestText(h), chunks)
    ensures IsServed(h, p, s, Feed(s, "", chunks))
  {
    hide AtBeginning, Acceptable, Understood, ToMessage, MessageText, RequestText, Feed, IsDecoded, IsServed,
         ReadPath, PathOk, Harmless, EndsWithPiece;
    RequestIsUnderstood(h, p, s);
    DecodedExactlyFed(s, chunks);
    assert DecodableFed(s, ToMessage(h, p), chunks);
  }

  lemma ServableIs(h: Contents, p: Path, req: RequestFields)
    requires Servable(h, p, req)
    ensures (h.verb == "GET" || h.verb == "PUT") && h.path == "/" + PathText(p) && h.version == "HTTP/1.1"
    ensures PathOk(p) && ReadPath(WithMethod(req, h), p).Some?
  {
  }
}
