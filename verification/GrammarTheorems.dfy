// The decoder accepts exactly the texts of acceptable requests, and computes
// their meaning. Complete builds up the run of the decoder over the text of a
// tree, piece by piece; Sound takes an accepted text apart again, into a tree
// whose text it is. Both are about Reference, decoding that never looks past
// the end of a body.

module GrammarTheorems {
  import opened Ints
  import opened Wrappers
  import opened Text
  import opened Protocol
  import opened AlpacaRequests
  import opened DecoderSpec
  import opened Fragmentation
  import opened RequestGrammar
  import opened GrammarSteps
  import opened GrammarParameters
  import opened GrammarHeaderLines
  import opened GrammarPaths

  // ------------------------------------------------------------- The start line

  // From the end of the path to the first header line.
  lemma PassQueryOnward(s: DecoderState, query: seq<Param>, w: string) returns (s': DecoderState)
    requires s.decodeFunction.DecodeEndOfPath? && s.isDecodingHeader
    requires ParamsOk(query) && StoreParams(s.request, query).Some?
    ensures Moved(s, s', DecodeHeaderLines, StoreParams(s.request, query).value)
    ensures Passes(s, QueryText(query) + (" " + (HTTP_VERSION_END_OF_LINE + w)), s', |QueryText(query)| + 1 + 10)
  {
    hide Loop, Passes, QueryText, StoreParams;
    var rest := HTTP_VERSION_END_OF_LINE + w;
    var s1 := PassEndOfPath(s, query, rest);
    s' := PassHttpVersion(s1, w);
    assert QueryText(query) + (" " + rest) == QueryText(query) + " " + rest;
    SplitAt(QueryText(query) + " ", rest);
    PassesTransitive(s, QueryText(query) + (" " + rest), s1, |QueryText(query)| + 1, s', 10);
  }

  lemma QueryEndsPath(query: seq<Param>, w: string)
    ensures EndsPath(QueryText(query) + (" " + w))
  {
    assert query != [] ==> (QueryText(query) + (" " + w))[0] == '?';
  }

  // From the start of the path.
  lemma PassPathOnward(s: DecoderState, p: Path, query: seq<Param>, w: string) returns (s': DecoderState)
    requires s.decodeFunction.DecodeApiGroup? && s.isDecodingHeader
    requires PathOk(p) && ReadPath(s.request, p).Some?
    requires ParamsOk(query) && StoreParams(ReadPath(s.request, p).value, query).Some?
    ensures Moved(s, s', DecodeHeaderLines, StoreParams(ReadPath(s.request, p).value, query).value)
    ensures Passes(s, PathText(p) + (QueryText(query) + (" " + (HTTP_VERSION_END_OF_LINE + w))), s',
                   |PathText(p)| + (|QueryText(query)| + 1 + 10))
  {
    hide Loop, Passes, QueryText, PathText, StoreParams, ReadPath, EndsPath;
    var rest := QueryText(query) + (" " + (HTTP_VERSION_END_OF_LINE + w));
    QueryEndsPath(query, HTTP_VERSION_END_OF_LINE + w);
    var s1 := PassPath(s, p, rest);
    s' := PassQueryOnward(s1, query, w);
    SplitAt(PathText(p), rest);
    PassesTransitive(s, PathText(p) + rest, s1, |PathText(p)|, s', |QueryText(query)| + 1 + 10);
  }

  // The text of the header of r, but for its header lines.
  function StartText(r: Message): string {
    r.verb + " /" + PathText(r.path) + QueryText(r.query) + " HTTP/1.1\r\n"
  }

  lemma StartParts(r: Message, w: string)
    ensures StartText(r) + w ==
      r.verb + " " + ("/" + (PathText(r.path) + (QueryText(r.query) + (" " + (HTTP_VERSION_END_OF_LINE + w)))))
    ensures |StartText(r)| == |r.verb| + 1 + (1 + (|PathText(r.path)| + (|QueryText(r.query)| + 1 + 10)))
  {
    hide PathText, QueryText;
    assert r.verb + " /" == r.verb + " " + "/";
    assert " HTTP/1.1\r\n" == " " + HTTP_VERSION_END_OF_LINE;
  }

  lemma PassStart(s: DecoderState, r: Message, w: string, httpMethod: EHttpMethod) returns (s': DecoderState)
    requires s.decodeFunction.DecodeHttpMethod? && s.isDecodingHeader && MessageOk(r)
    requires MatchHttpMethod(r.verb) == Some(httpMethod)
    requires ReadPath(s.request.(httpMethod := httpMethod), r.path).Some?
    requires StoreParams(ReadPath(s.request.(httpMethod := httpMethod), r.path).value, r.query).Some?
    ensures Moved(s, s', DecodeHeaderLines,
                  StoreParams(ReadPath(s.request.(httpMethod := httpMethod), r.path).value, r.query).value)
    ensures Passes(s, StartText(r) + w, s', |StartText(r)|)
  {
    hide Loop, Passes, QueryText, PathText, StoreParams, ReadPath, MatchHttpMethod, StartText;
    StartParts(r, w);
    var b := PathText(r.path) + (QueryText(r.query) + (" " + (HTTP_VERSION_END_OF_LINE + w)));
    var s1 := PassVerb(s, r.verb, "/" + b, httpMethod);
    var s2 := PassSlash(s1, b);
    s' := PassPathOnward(s2, r.path, r.query, w);
    SplitAt("/", b);
    var n := |PathText(r.path)| + (|QueryText(r.query)| + 1 + 10);
    PassesTransitive(s1, "/" + b, s2, 1, s', n);
    SplitAt(r.verb + " ", "/" + b);
    PassesTransitive(s, StartText(r) + w, s1, |r.verb| + 1, s', 1 + n);
  }

  // ------------------------------------------------------- The end of the header

  // What the empty line after the header lines leads to.
  lemma EndOfHeader(s: DecoderState, w: string)
    requires s.decodeFunction.DecodeHeaderLines? && s.isDecodingHeader
    ensures var r := Loop(s, "\r\n" + w); var httpMethod := s.request.httpMethod;
      && (r.status.HttpOk? || (r.status.NeedMoreInput? && !r.state.isDecodingHeader) ==> r.used == 2)
      && (r.status.HttpOk? <==> httpMethod == GET || (httpMethod == PUT && s.foundContentLength && s.remaining == 0))
      && (r.status.HttpOk? ==> r.state == s)
      && (r.status.HttpInternalServerError? <==> httpMethod != GET && httpMethod != PUT)
      && (r.status.HttpLengthRequired? <==> httpMethod == PUT && !s.foundContentLength)
      && (r.status.NeedMoreInput? <==> httpMethod == PUT && s.foundContentLength && s.remaining > 0)
      && (r.status.NeedMoreInput? ==> r.state == s.(isDecodingHeader := false, decodeFunction := DecodeParamName))
  {
    var v := "\r\n" + w;
    assert END_OF_HEADER_LINE <= v;
    assert Step(s, v) == StepDecodeHeaderLines(s, v) by {
      hide StepName, StepDecodeHeaderLines;
    }
    hide Step, Loop;
    LoopUnfolds(s, v);
  }

  // About to decode a request.
  ghost predicate AtStart(s: DecoderState) {
    && s.decodeFunction.DecodeHttpMethod? && s.isDecodingHeader && !s.isFinalInput && !s.foundContentLength
    && s.decoderStatus == Decoding
  }

  // About to end the header of a request of this meaning.
  ghost predicate AtEnd(s: DecoderState, req: RequestFields, length: Option<uint16>) {
    && s.decodeFunction.DecodeHeaderLines? && s.isDecodingHeader && !s.isFinalInput
    && s.decoderStatus == Decoding && s.request == req
    && s.foundContentLength == length.Some? && (length.Some? ==> s.remaining == length.value)
  }

  // The parts of the meaning of a header.
  lemma HeaderMeaningParts(req: RequestFields, r: Message)
    returns (m: EHttpMethod, req1: RequestFields, req2: RequestFields, facts: HeaderFacts)
    requires HeaderMeaning(req, r).Some?
    ensures MatchHttpMethod(r.verb) == Some(m) && ReadPath(req.(httpMethod := m), r.path) == Some(req1)
    ensures StoreParams(req1, r.query) == Some(req2) && req1.httpMethod == req2.httpMethod == m
    ensures ReadLines(m, HeaderFacts(None, req2.doClose), r.headers) == Some(facts)
    ensures HeaderMeaning(req, r) == Some((req2.(doClose := facts.close), facts.length))
  {
    m := MatchHttpMethod(r.verb).value;
    req1 := ReadPath(req.(httpMethod := m), r.path).value;
    req2 := StoreParams(req1, r.query).value;
    facts := ReadLines(m, HeaderFacts(None, req2.doClose), r.headers).value;
    StoreParamsKeeps(req1, r.query);
    ReadPathKeeps(req.(httpMethod := m), r.path);
    hide MatchHttpMethod, ReadPath, StoreParams, ReadLines;
  }

  lemma ReadSetupPath(req: RequestFields)
    requires ReadPath(req, ServerSetupPath).Some?
    ensures ReadPath(req, ServerSetupPath).value == req.(apiGroup := SetupGroup, api := ServerSetup)
  {
  }

  lemma ReadPathKeeps(req: RequestFields, p: Path)
    requires ReadPath(req, p).Some?
    ensures ReadPath(req, p).value.httpMethod == req.httpMethod && ReadPath(req, p).value.doClose == req.doClose
  {
    hide ReadPath, MatchManagementMethod, MatchApiGroup, MatchDeviceType, MatchDeviceMethod, ToUint32;
    match p
    case ServerSetupPath => ReadSetupPath(req);
    case DevicePath(_, _, _, _) => var g, t, n, m := ReadDevicePath(req, p);
    case _ => ReadManagementPath(req, p);
  }

  lemma {:induction false} StoreParamsKeeps(req: RequestFields, ps: seq<Param>)
    requires StoreParams(req, ps).Some?
    ensures SamePath(req, StoreParams(req, ps).value)
    decreases |ps|
  {
    hide StoreParameter;
    if ps != [] {
      StoreParameterKeeps(req, ParameterOf(ps[0].name), ps[0].value);
      StoreParamsKeeps(StoreParameter(req, ParameterOf(ps[0].name), ps[0].value).value, ps[1..]);
    }
  }

  // The header of a request, up to the empty line that ends it.
  lemma PassHeader(s: DecoderState, r: Message, w: string, req: RequestFields, length: Option<uint16>)
    returns (s': DecoderState)
    requires AtStart(s) && MessageOk(r) && HeaderMeaning(s.request, r) == Some((req, length))
    ensures AtEnd(s', req, length)
    ensures Passes(s, StartText(r) + (LinesText(r.headers) + w), s', |StartText(r)| + |LinesText(r.headers)|)
  {
    hide Loop, Passes, QueryText, PathText, StoreParams, ReadPath, MatchHttpMethod, StartText, LinesText, ReadLines,
         HeaderMeaning;
    var m, req1, req2, facts := HeaderMeaningParts(s.request, r);
    var rest := LinesText(r.headers) + w;
    var s1 := PassStart(s, r, rest, m);
    s' := PassLines(s1, r.headers, w, HeaderFacts(None, req2.doClose), facts);
    SplitAt(StartText(r), rest);
    PassesTransitive(s, StartText(r) + rest, s1, |StartText(r)|, s', |LinesText(r.headers)|);
    OnlyCloseDiffers(req2, s'.request);
  }

  lemma OnlyCloseDiffers(req: RequestFields, req': RequestFields)
    requires ButClose(req') == ButClose(req)
    ensures req' == req.(doClose := req'.doClose)
  {
  }

  // ---------------------------------------------------- Acceptable requests are accepted

  lemma MessageParts(r: Message, w: string)
    ensures MessageText(r) + w == StartText(r) + (LinesText(r.headers) + ("\r\n" + (ParamsText(r.body) + w)))
    ensures |MessageText(r)| == |StartText(r)| + |LinesText(r.headers)| + 2 + |ParamsText(r.body)|
  {
    hide PathText, QueryText, LinesText, ParamsText;
    var h, ls, b := StartText(r), LinesText(r.headers), ParamsText(r.body);
    assert HeaderText(r) == h + ls + "\r\n";
    Associative(h, ls, "\r\n" + b, w);
    assert h + ls + "\r\n" + b == h + ls + ("\r\n" + b);
    assert "\r\n" + b + w == "\r\n" + (b + w);
  }

  // Decoding the body of a request, when its header announces the body's length.
  lemma AcceptBody(s: DecoderState, ps: seq<Param>, w: string, req: RequestFields)
    requires WellFormed(s) && !s.isDecodingHeader && !s.isFinalInput && s.decodeFunction.DecodeParamName?
    requires ps != [] && ParamsOk(ps) && StoreParams(s.request, ps) == Some(req)
    requires s.remaining == |ParamsText(ps)|
    ensures var r := BodyAlone(s, ParamsText(ps) + w);
      r.status.HttpOk? && r.used == |ParamsText(ps)| && r.state.request == req
  {
    hide Loop, ParamsText, StoreParams;
    var body := ParamsText(ps);
    assert (body + w)[..|body|] == body;
    assert w == "" ==> body + w == body;
    PassBody(Final(s, true), ps, req);
  }

  // Every acceptable request is accepted, whatever follows it: decoding consumes
  // exactly its text and computes its meaning.
  lemma Complete(s: DecoderState, r: Message, w: string)
    requires AtStart(s) && MessageOk(r) && Meaning(s.request, r).Some?
    ensures var o := Reference(s, MessageText(r) + w);
      o.status.HttpOk? && o.used == |MessageText(r)| && o.state.request == Meaning(s.request, r).value
  {
    hide Loop, HeaderMeaning, StoreParams, ParamsText, LinesText, StartText, MessageText, BodyAlone;
    var (req, length) := HeaderMeaning(s.request, r).value;
    var body := ParamsText(r.body) + w;
    MessageParts(r, w);
    var s1 := PassHeader(s, r, "\r\n" + body, req, length);
    var n := |StartText(r)| + |LinesText(r.headers)|;
    EndOfHeader(s1, body);
    SplitAt("\r\n", body);
    SplitTwice(MessageText(r) + w, n, 2);
    PassesTail(StartText(r), LinesText(r.headers), "\r\n" + body);
    EmptyBody(s.request, r);
    if r.body != [] {
      AcceptBody(Loop(s1, "\r\n" + body).state, r.body, w, Meaning(s.request, r).value);
    }
  }

  lemma PassesTail(a: string, b: string, c: string)
    ensures (a + (b + c))[|a| + |b|..] == c
  {
  }

  // An empty body has no text and stores nothing, and any other has some text.
  lemma EmptyBody(req: RequestFields, r: Message)
    ensures r.body == [] <==> ParamsText(r.body) == ""
    ensures r.body == [] ==> StoreParams(HeaderMeaning(req, r).value.0, r.body) == Some(HeaderMeaning(req, r).value.0)
    requires HeaderMeaning(req, r).Some?
  {
    if r.body != [] {
      assert |ParamText(r.body[0])| > 0;
    }
  }

  // ------------------------------------------- What is accepted is an acceptable request

  lemma EndOfPathIn(s: DecoderState, v: string)
    requires s.decodeFunction.DecodeEndOfPath? && s.isDecodingHeader && Succeeds(s, v)
    ensures EndsPath(v)
  {
    MustGoOn(s, v);
    hide Loop, StepName;
  }

  lemma OperationIn(s: DecoderState, v: string) returns (name: string, w: string)
    requires s.decodeFunction.DecodeManagementMethod? && s.isDecodingHeader && Succeeds(s, v)
    ensures v == name + w && AllMatch(name, NameChars) && MatchManagementMethod(name).Some? && EndsPath(w)
  {
    hide Loop, Step, MatchManagementMethod, Succeeds, Passes, EndsPath;
    MustGoOn(s, v);
    name, w := AnyNameIn(s, v);
    assert ProcessName(s, name, w[0], |name|) == ProcessManagementMethod(s, name, |name|);
    var s1 := Goes(s, v);
    SplitAt(name, w);
    StillSucceeds(s, v, s1, |name|);
    EndOfPathIn(s1, w);
  }

  // A management path after its first word.
  lemma ManagementIn(s: DecoderState, v: string) returns (p: Path, w: string)
    requires s.decodeFunction.DecodeManagementType? && s.isDecodingHeader && Succeeds(s, v)
    ensures PathOk(p) && EndsPath(w) && (p.ApiVersionsPath? || p.ManagementPath?)
    ensures p.ManagementPath? ==> MatchManagementMethod(p.operation).Some?
    ensures v == if p.ApiVersionsPath? then "apiversions" + w else "v1" + ("/" + (p.operation + w))
  {
    hide Loop, Step, MatchManagementMethod, Succeeds, Passes, EndsPath;
    MustGoOn(s, v);
    var name, rest := AnyNameIn(s, v);
    assert ProcessName(s, name, rest[0], |name|) == ProcessManagementType(s, name, rest[0], |name|);
    if name == "v1" {
      var tail := rest[1..];
      assert rest == "/" + tail;
      var s1 := PassManagementVersion(s, tail);
      SkipSlash("v1", tail);
      StillSucceeds(s, v, s1, 3);
      var operation;
      operation, w := OperationIn(s1, tail);
      p := ManagementPath(operation);
    } else {
      var s1 := Goes(s, v);
      SplitAt(name, rest);
      StillSucceeds(s, v, s1, |name|);
      EndOfPathIn(s1, rest);
      p, w := ApiVersionsPath, rest;
    }
  }

  lemma DeviceMethodIn(s: DecoderState, v: string) returns (name: string, w: string, m: EDeviceMethod)
    requires s.decodeFunction.DecodeDeviceMethod? && s.isDecodingHeader && Succeeds(s, v)
    ensures v == name + w && AllMatch(name, NameChars) && EndsPath(w)
    ensures MatchDeviceMethod(s.request.apiGroup, s.request.deviceType, name) == Some(m)
  {
    hide Loop, Step, MatchDeviceMethod, Succeeds, Passes;
    MustGoOn(s, v);
    name, w := AnyNameIn(s, v);
    assert ProcessName(s, name, w[0], |name|) == ProcessDeviceMethod(s, name, |name|);
    m := MatchDeviceMethod(s.request.apiGroup, s.request.deviceType, name).value;
  }

  // A name up to a slash, in a view in which decoding succeeds.
  lemma WordIn(s: DecoderState, v: string) returns (name: string, w: string)
    requires s.decodeFunction.DecodeApiVersion? || s.decodeFunction.DecodeDeviceType?
             || s.decodeFunction.DecodeDeviceNumber?
    requires s.isDecodingHeader && Succeeds(s, v)
    ensures v == name + "/" + w && AllMatch(name, NameChars)
    ensures ProcessName(s, name, '/', |name| + 1).status.ContinueDecoding?
  {
    hide Loop, Step, ProcessName, Succeeds;
    MustGoOn(s, v);
    name, w := NameIn(s, v);
    NameThen(s, name, w);
  }

  // The path to a device after its group.
  lemma DeviceIn(s: DecoderState, v: string)
    returns (t: string, n: string, m: string, w: string, deviceType: EDeviceType, number: uint32, op: EDeviceMethod)
    requires s.decodeFunction.DecodeApiVersion? && s.isDecodingHeader && Succeeds(s, v)
    ensures v == "v1" + "/" + (t + "/" + (n + "/" + (m + w))) && EndsPath(w)
    ensures AllMatch(t, NameChars) && AllMatch(n, NameChars) && AllMatch(m, NameChars)
    ensures MatchDeviceType(t) == Some(deviceType) && ToUint32(n) == Some(number)
    ensures MatchDeviceMethod(s.request.apiGroup, deviceType, m) == Some(op)
  {
    hide Loop, Step, Succeeds, Passes, MatchDeviceType, MatchDeviceMethod, ToUint32, EndsPath;
    var version, c := WordIn(s, v);
    assert ProcessName(s, version, '/', |version| + 1) == ProcessApiVersion(s, version, |version| + 1);
    var s1 := PassVersion(s, c);
    SplitAt(version + "/", c);
    StillSucceeds(s, v, s1, 3);
    var d;
    t, d := WordIn(s1, c);
    assert ProcessName(s1, t, '/', |t| + 1) == ProcessDeviceType(s1, t, |t| + 1);
    deviceType := MatchDeviceType(t).value;
    var s2 := PassDeviceType(s1, t, d, deviceType);
    SplitAt(t + "/", d);
    StillSucceeds(s1, c, s2, |t| + 1);
    n, m, w, number, op := NumberIn(s2, d);
  }

  lemma NumberIn(s: DecoderState, v: string)
    returns (n: string, m: string, w: string, number: uint32, op: EDeviceMethod)
    requires s.decodeFunction.DecodeDeviceNumber? && s.isDecodingHeader && Succeeds(s, v)
    ensures v == n + "/" + (m + w) && EndsPath(w)
    ensures AllMatch(n, NameChars) && AllMatch(m, NameChars) && ToUint32(n) == Some(number)
    ensures MatchDeviceMethod(s.request.apiGroup, s.request.deviceType, m) == Some(op)
  {
    hide Loop, Step, Succeeds, Passes, MatchDeviceMethod, ToUint32, EndsPath;
    var e;
    n, e := WordIn(s, v);
    assert ProcessName(s, n, '/', |n| + 1) == ProcessDeviceNumber(s, n, |n| + 1);
    number := ToUint32(n).value;
    var s1 := PassDeviceNumber(s, n, e, number);
    SplitAt(n + "/", e);
    StillSucceeds(s, v, s1, |n| + 1);
    m, w, op := DeviceMethodIn(s1, e);
  }

  // What a successful first word of a path means.
  lemma GroupIn(s: DecoderState, v: string) returns (name: string, w: string, group: EApiGroup)
    requires s.decodeFunction.DecodeApiGroup? && s.isDecodingHeader && Succeeds(s, v)
    ensures v == name + w && w != "" && AllMatch(name, NameChars) && MatchApiGroup(name) == Some(group)
    ensures w[0] == '/' ==> MethodIsRead(s.request.httpMethod) || group == DeviceGroup
    ensures w[0] != '/' ==> name == "setup" && MethodIsRead(s.request.httpMethod) && EndsPath(w)
  {
    hide Loop, Step, MatchApiGroup, Succeeds, Passes, EndsPath;
    MustGoOn(s, v);
    name, w := AnyNameIn(s, v);
    assert ProcessName(s, name, w[0], |name|) == ProcessApiGroup(s, name, w[0], |name|);
    group := MatchApiGroup(name).value;
    GroupNames(name);
    if w[0] != '/' {
      var s1 := Goes(s, v);
      SplitAt(name, w);
      StillSucceeds(s, v, s1, |name|);
      EndOfPathIn(s1, w);
    }
  }

  lemma PathIn(s: DecoderState, v: string) returns (p: Path, w: string)
    requires s.decodeFunction.DecodeApiGroup? && s.isDecodingHeader && Succeeds(s, v)
    ensures v == PathText(p) + w && EndsPath(w) && PathOk(p) && ReadPath(s.request, p).Some?
  {
    hide Loop, Step, MatchApiGroup, Succeeds, Passes, EndsPath, ReadPath, PathText;
    var name, rest, group := GroupIn(s, v);
    GroupNames(name);
    if rest[0] != '/' {
      p, w := ServerSetupPath, rest;
      SetupIsReadable(s.request);
    } else {
      var tail := rest[1..];
      assert rest == "/" + tail;
      SkipSlash(name, tail);
      if group == ManagementGroup {
        var s1 := PassManagement(s, tail);
        StillSucceeds(s, v, s1, 11);
        p, w := ManagementIn(s1, tail);
        ManagementParts(p, w);
        ManagementIsReadable(s.request, p);
      } else {
        var s1 := PassGroup(s, name, tail, group);
        StillSucceeds(s, v, s1, |name| + 1);
        var t, n, m, deviceType, number, op;
        t, n, m, w, deviceType, number, op := DeviceIn(s1, tail);
        p := DevicePath(name, t, n, m);
        DeviceParts(p, w);
        DeviceIsReadable(s.request, p, group, deviceType, number, op);
      }
    }
  }

  lemma SetupIsReadable(req: RequestFields)
    requires MethodIsRead(req.httpMethod)
    ensures ReadPath(req, ServerSetupPath).Some? && PathText(ServerSetupPath) == "setup"
  {
  }

  lemma ManagementIsReadable(req: RequestFields, p: Path)
    requires MethodIsRead(req.httpMethod) && (p.ApiVersionsPath? || p.ManagementPath?)
    requires p.ManagementPath? ==> MatchManagementMethod(p.operation).Some?
    ensures ReadPath(req, p).Some?
  {
    hide MatchManagementMethod;
  }

  lemma DeviceIsReadable(req: RequestFields, p: Path, g: EApiGroup, t: EDeviceType, n: uint32, m: EDeviceMethod)
    requires p.DevicePath? && MatchApiGroup(p.group) == Some(g) && g != ManagementGroup
    requires MethodIsRead(req.httpMethod) || g == DeviceGroup
    requires MatchDeviceType(p.deviceType) == Some(t) && ToUint32(p.deviceNumber) == Some(n)
    requires MatchDeviceMethod(g, t, p.operation) == Some(m)
    ensures ReadPath(req, p).Some?
  {
    hide MatchApiGroup, MatchDeviceType, MatchDeviceMethod, ToUint32;
  }

  // The end of the path, the query and the version, in a view in which decoding succeeds.
  lemma QueryIn(s: DecoderState, v: string) returns (query: seq<Param>, w: string)
    requires s.decodeFunction.DecodeEndOfPath? && s.isDecodingHeader && Succeeds(s, v)
    ensures ParamsOk(query) && StoreParams(s.request, query).Some?
    ensures v == QueryText(query) + (" " + (HTTP_VERSION_END_OF_LINE + w))
  {
    hide Loop, Step, Succeeds, Passes, StoreParameter, ParamsText, Moved, After;
    EndOfPathIn(s, v);
    var s1 := PassEndOfPathChar(s, v[0], v[1..]);
    WhereTo(s, s1, if v[0] == '?' then DecodeParamName else MatchHttpVersion, s.request);
    assert v == [v[0]] + v[1..];
    StillSucceeds(s, v, s1, 1);
    if v[0] == ' ' {
      query := [];
      w := VersionIn(s1, v[1..]);
      assert "" + v == v;
    } else {
      var end, req;
      query, end, req := ParamsIn(s1, v[1..]);
      var tail := end[1..];
      assert end == " " + tail;
      var s2 := PassQuery(s1, query, tail, req);
      WhereTo(s1, s2, MatchHttpVersion, req);
      StillSucceeds(s1, v[1..], s2, |ParamsText(query)| + 1);
      SplitAt(ParamsText(query) + " ", tail);
      assert v[1..] == ParamsText(query) + " " + tail;
      w := VersionIn(s2, tail);
      QueryJoins(v, ParamsText(query), tail);
    }
  }

  lemma QueryJoins(v: string, text: string, tail: string)
    requires v != "" && v[0] == '?' && v[1..] == text + " " + tail
    ensures v == "?" + text + (" " + tail)
  {
    assert v == [v[0]] + v[1..];
  }

  lemma VersionIn(s: DecoderState, v: string) returns (w: string)
    requires s.decodeFunction.MatchHttpVersion? && s.isDecodingHeader && Succeeds(s, v)
    ensures v == HTTP_VERSION_END_OF_LINE + w
  {
    MustGoOn(s, v);
    w := v[10..];
    hide Loop, StepName;
  }

  lemma VerbIn(s: DecoderState, v: string) returns (verb: string, w: string, m: EHttpMethod)
    requires s.decodeFunction.DecodeHttpMethod? && s.isDecodingHeader && Succeeds(s, v)
    ensures v == verb + " " + ("/" + w) && AllMatch(verb, NameChars) && MatchHttpMethod(verb) == Some(m)
  {
    hide Loop, Step, Succeeds, Passes, MatchHttpMethod;
    MustGoOn(s, v);
    var rest;
    verb, rest := NameIn(s, v);
    NameThen(s, verb, rest);
    assert ProcessName(s, verb, ' ', |verb| + 1) == ProcessHttpMethod(s, verb, |verb| + 1);
    m := MatchHttpMethod(verb).value;
    var s1 := PassVerb(s, verb, rest, m);
    SplitAt(verb + " ", rest);
    StillSucceeds(s, v, s1, |verb| + 1);
    SlashIn(s1, rest);
    w := rest[1..];
    assert rest == "/" + w;
  }

  lemma SlashIn(s: DecoderState, v: string)
    requires s.decodeFunction.MatchStartOfPath? && s.isDecodingHeader && Succeeds(s, v)
    ensures v != "" && v[0] == '/'
  {
    MustGoOn(s, v);
    hide Loop, StepName;
  }

  // The start line, in a view in which decoding succeeds.
  lemma StartIn(s: DecoderState, v: string) returns (r: Message, w: string, m: EHttpMethod)
    requires s.decodeFunction.DecodeHttpMethod? && s.isDecodingHeader && Succeeds(s, v)
    ensures v == StartText(r) + w && MessageOk(r) && r.headers == [] && r.body == []
    ensures MatchHttpMethod(r.verb) == Some(m)
    ensures ReadPath(s.request.(httpMethod := m), r.path).Some?
    ensures StoreParams(ReadPath(s.request.(httpMethod := m), r.path).value, r.query).Some?
  {
    hide Loop, Step, Succeeds, Passes, MatchHttpMethod, ReadPath, StoreParams, PathText, QueryText, StartText, EndsPath;
    var verb, b, c, path, query;
    verb, b, m := VerbIn(s, v);
    var s1 := PassVerb(s, verb, "/" + b, m);
    SplitAt(verb + " ", "/" + b);
    StillSucceeds(s, v, s1, |verb| + 1);
    var s2 := PassSlash(s1, b);
    SplitAt("/", b);
    StillSucceeds(s1, "/" + b, s2, 1);
    path, c := PathIn(s2, b);
    var s3 := PassPath(s2, path, c);
    SplitAt(PathText(path), c);
    StillSucceeds(s2, b, s3, |PathText(path)|);
    query, w := QueryIn(s3, c);
    r := Message(verb, path, query, [], []);
    StartParts(r, w);
  }

  // The header of a request, and its meaning, in a view in which decoding succeeds.
  lemma HeaderIn(s: DecoderState, v: string)
    returns (r: Message, w: string, req: RequestFields, length: Option<uint16>)
    requires AtStart(s) && Succeeds(s, v)
    ensures v == StartText(r) + (LinesText(r.headers) + ("\r\n" + w)) && MessageOk(r) && r.body == []
    ensures HeaderMeaning(s.request, r) == Some((req, length))
  {
    hide Loop, Step, Succeeds, Passes, MatchHttpMethod, ReadPath, StoreParams, PathText, QueryText, StartText,
         LinesText, ReadLines;
    var start, rest, m := StartIn(s, v);
    var s1 := PassStart(s, start, rest, m);
    SplitAt(StartText(start), rest);
    StillSucceeds(s, v, s1, |StartText(start)|);
    ReadPathKeeps(s.request.(httpMethod := m), start.path);
    StoreParamsKeeps(ReadPath(s.request.(httpMethod := m), start.path).value, start.query);
    var ls, read;
    ls, w, read := LinesIn(s1, rest, HeaderFacts(None, s1.request.doClose));
    r := start.(headers := ls);
    StartIgnoresHeaders(start, ls);
    req, length := s1.request.(doClose := read.close), read.length;
  }

  lemma StartIgnoresHeaders(r: Message, ls: seq<Line>)
    ensures StartText(r.(headers := ls)) == StartText(r)
  {
  }

  // The parameters of a body in which decoding succeeds.
  lemma BodyIn(s: DecoderState, v: string) returns (ps: seq<Param>, req: RequestFields)
    requires !s.isDecodingHeader && !s.isFinalInput && s.decodeFunction.DecodeParamName?
    requires WellFormed(s) && s.remaining > 0 && BodyAlone(s, v).status.HttpOk?
    ensures ps != [] && ParamsOk(ps) && StoreParams(s.request, ps) == Some(req)
    ensures s.remaining <= |v| && v[..s.remaining] == ParamsText(ps)
  {
    hide Loop, ParamsText, StoreParams;
    var body := if |v| > s.remaining then v[..s.remaining] else v;
    LoopKeeps(s, body);
    var end;
    ps, end, req := ParamsIn(Final(s, true), body);
    assert ParamsText(ps) + "" == ParamsText(ps);
  }

  // Whatever is accepted is an acceptable request, and exactly its text is consumed.
  lemma Sound(s: DecoderState, v: string) returns (r: Message)
    requires AtStart(s) && Reference(s, v).status.HttpOk?
    ensures MessageOk(r) && Meaning(s.request, r).Some?
    ensures v[..Reference(s, v).used] == MessageText(r)
  {
    hide Loop, Meaning, HeaderMeaning, ParamsText, LinesText, StartText, MessageText, BodyAlone, Passes;
    var w, req, length;
    r, w, req, length := HeaderIn(s, v);
    var n := |StartText(r)| + |LinesText(r.headers)|;
    var s1 := HeaderEnds(s, v, r, w, req, length);
    NoParams();
    var o := Loop(s, v);
    var body: seq<Param>, rest := [], w;
    if o.status.NeedMoreInput? {
      var req2;
      body, req2 := BodyIn(o.state, w);
      rest := w[o.state.remaining..];
      FullBodyOutcome(o.state, w);
      BodyMeaning(s.request, r, req, body);
    } else {
      NoBodyMeaning(s.request, r, req, length);
    }
    assert w == ParamsText(body) + rest;
    SameHeader(s.request, r, body);
    r := r.(body := body);
    MessageParts(r, rest);
    assert v == MessageText(r) + rest;
  }

  // How decoding a text that starts with a whole header goes on.
  lemma HeaderEnds(s: DecoderState, v: string, r: Message, w: string, req: RequestFields, length: Option<uint16>)
    returns (s1: DecoderState)
    requires AtStart(s) && MessageOk(r) && HeaderMeaning(s.request, r) == Some((req, length))
    requires v == StartText(r) + (LinesText(r.headers) + ("\r\n" + w))
    ensures AtEnd(s1, req, length)
    ensures var n := |StartText(r)| + |LinesText(r.headers)|; var o := Loop(s, v); var m := req.httpMethod;
      && (o.status.HttpOk? || (o.status.NeedMoreInput? && !o.state.isDecodingHeader) ==>
            o.used == n + 2 && v[o.used..] == w)
      && (o.status.HttpOk? ==> (m == GET || (m == PUT && length == Some(0))) && o.state == s1)
      && (o.status.NeedMoreInput? ==>
            && m == PUT && length.Some? && length.value > 0
            && o.state == s1.(isDecodingHeader := false, decodeFunction := DecodeParamName))
  {
    hide Loop, HeaderMeaning, LinesText, StartText, Passes;
    s1 := PassHeader(s, r, "\r\n" + w, req, length);
    var n := |StartText(r)| + |LinesText(r.headers)|;
    PassesTail(StartText(r), LinesText(r.headers), "\r\n" + w);
    PassesEnd(s, v, s1, n);
    EndOfHeader(s1, w);
    SplitAt("\r\n", w);
    SplitTwice(v, n, 2);
  }

  lemma NoBodyMeaning(req0: RequestFields, r: Message, req: RequestFields, length: Option<uint16>)
    requires HeaderMeaning(req0, r) == Some((req, length)) && r.body == []
    requires req.httpMethod == GET || (req.httpMethod == PUT && length == Some(0))
    ensures Meaning(req0, r) == Some(req)
  {
    EmptyBody(req0, r);
    hide HeaderMeaning, StoreParams, ParamsText;
  }

  lemma BodyMeaning(req0: RequestFields, r: Message, req: RequestFields, body: seq<Param>)
    requires HeaderMeaning(req0, r).Some? && HeaderMeaning(req0, r).value.0 == req && req.httpMethod == PUT
    requires HeaderMeaning(req0, r).value.1 == Some(|ParamsText(body)|) && StoreParams(req, body).Some?
    ensures Meaning(req0, r.(body := body)).Some?
  {
    SameHeader(req0, r, body);
    hide HeaderMeaning, StoreParams, ParamsText;
  }

  lemma PassesEnd(s: DecoderState, v: string, s': DecoderState, n: nat)
    requires Passes(s, v, s', n)
    ensures Loop(s, v) == Shift(Loop(s', v[n..]), n)
  {
  }

  lemma SameHeader(req: RequestFields, r: Message, body: seq<Param>)
    ensures HeaderMeaning(req, r.(body := body)) == HeaderMeaning(req, r)
    ensures StartText(r.(body := body)) == StartText(r)
  {
    hide MatchHttpMethod, ReadPath, StoreParams, ReadLines, PathText, QueryText;
  }

  // The decoder accepts exactly the texts that start with the text of an
  // acceptable request. It consumes that text and computes its meaning.
  lemma AcceptedExactly(s: DecoderState, v: string)
    requires AtStart(s)
    ensures Reference(s, v).status.HttpOk? <==>
      exists r :: MessageOk(r) && Meaning(s.request, r).Some? && MessageText(r) <= v
    ensures forall r :: MessageOk(r) && Meaning(s.request, r).Some? && MessageText(r) <= v ==>
      var o := Reference(s, v);
      o.used == |MessageText(r)| && o.state.request == Meaning(s.request, r).value
  {
    hide Reference, Meaning, MessageText, MessageOk;
    forall r | MessageOk(r) && Meaning(s.request, r).Some? && MessageText(r) <= v
      ensures var o := Reference(s, v);
        o.status.HttpOk? && o.used == |MessageText(r)| && o.state.request == Meaning(s.request, r).value
    {
      var w := v[|MessageText(r)|..];
      assert v == MessageText(r) + w;
      Complete(s, r, w);
    }
    if Reference(s, v).status.HttpOk? {
      var r := Sound(s, v);
      assert v == MessageText(r) + v[Reference(s, v).used..];
    }
  }
}
