// Decoding paths. As in the other modules about the grammar, a lemma that is named
// after a part of a request says, if its name begins with Pass, that the decoder
// gets through the text of that part, to the state that the part means; if its
// name ends with In, that a text which is decoded begins with such a part; and if
// it ends with Parts or GoesOn, how the text of a part is made of smaller ones.
// Those that end with Onward are about a path after its first words.

module GrammarPaths {
  import opened Ints
  import opened Wrappers
  import opened Text
  import opened Protocol
  import opened AlpacaRequests
  import opened DecoderSpec
  import opened RequestGrammar
  import opened GrammarSteps
  import opened GrammarParameters

  lemma GroupNames(text: string)
    ensures MatchApiGroup(text) == Some(DeviceGroup) <==> text == "api"
    ensures MatchApiGroup(text) == Some(ManagementGroup) <==> text == "management"
    ensures MatchApiGroup(text) == Some(SetupGroup) <==> text == "setup"
    ensures MatchApiGroup(text) != Some(UnknownGroup)
  {
    var table := [("api", DeviceGroup), ("management", ManagementGroup), ("setup", SetupGroup)];
    assert table[1..][1..] == [("setup", SetupGroup)];
    assert "api" != "management" && "api" != "setup" && "management" != "setup" by {
      assert |"api"| == 3 && |"management"| == 10 && |"setup"| == 5;
    }
    MatchIsEntry(table, text);
  }

  // A name that is not consumed with what follows it.
  lemma AnyNameThen(s: DecoderState, name: string, w: string)
    requires TakesAnyName(s.decodeFunction) || s.decodeFunction.DecodeDeviceMethod?
    requires AllMatch(name, NameChars) && w != "" && !Matches(NameChars, w[0])
    requires s.decodeFunction.DecodeDeviceMethod? ==> w[0] == '?' || w[0] == ' '
    ensures Step(s, name + w) == ProcessName(s, name, w[0], |name|)
  {
    hide ProcessName, Span;
    SpanOf(name, w, NameChars);
    assert (name + w)[..|name|] == name && (name + w)[|name|] == w[0];
  }

  lemma AnyNameIn(s: DecoderState, v: string) returns (name: string, w: string)
    requires TakesAnyName(s.decodeFunction) || s.decodeFunction.DecodeDeviceMethod?
    requires Step(s, v).status.ContinueDecoding?
    ensures v == name + w && AllMatch(name, NameChars) && w != "" && !Matches(NameChars, w[0])
    ensures s.decodeFunction.DecodeDeviceMethod? ==> w[0] == '?' || w[0] == ' '
    ensures Step(s, v) == ProcessName(s, name, w[0], |name|)
  {
    hide ProcessName, Span;
    var n := Span(v, NameChars);
    SpanIsLongest(v, NameChars);
    name, w := v[..n], v[n..];
  }

  // A view that starts where a path ends.
  ghost predicate EndsPath(w: string) { w != "" && (w[0] == ' ' || w[0] == '?') }

  lemma PassSetup(s: DecoderState, w: string, req: RequestFields) returns (s': DecoderState)
    requires s.decodeFunction.DecodeApiGroup? && s.isDecodingHeader && EndsPath(w)
    requires ReadPath(s.request, ServerSetupPath) == Some(req)
    ensures Moved(s, s', DecodeEndOfPath, req)
    ensures Passes(s, "setup" + w, s', 5)
  {
    hide Loop, Step, MatchApiGroup;
    AnyNameThen(s, "setup", w);
    GroupNames("setup");
    assert ProcessName(s, "setup", w[0], 5) == ProcessApiGroup(s, "setup", w[0], 5);
    s' := Goes(s, "setup" + w);
  }

  // The first word of a longer path.
  lemma PassManagement(s: DecoderState, w: string) returns (s': DecoderState)
    requires s.decodeFunction.DecodeApiGroup? && s.isDecodingHeader && MethodIsRead(s.request.httpMethod)
    ensures Moved(s, s', DecodeManagementType, s.request.(apiGroup := ManagementGroup))
    ensures Passes(s, "management" + ("/" + w), s', 11)
  {
    hide Loop, Step, MatchApiGroup;
    AnyNameThen(s, "management", "/" + w);
    GroupNames("management");
    assert ProcessName(s, "management", '/', 10) == ProcessApiGroup(s, "management", '/', 10);
    s' := Goes(s, "management" + ("/" + w));
  }

  lemma PassApiVersions(s: DecoderState, w: string) returns (s': DecoderState)
    requires s.decodeFunction.DecodeManagementType? && s.isDecodingHeader && EndsPath(w)
    ensures Moved(s, s', DecodeEndOfPath, s.request.(api := ManagementApiVersions))
    ensures Passes(s, "apiversions" + w, s', 11)
  {
    hide Loop, Step;
    AnyNameThen(s, "apiversions", w);
    assert ProcessName(s, "apiversions", w[0], 11) == ProcessManagementType(s, "apiversions", w[0], 11);
    s' := Goes(s, "apiversions" + w);
  }

  lemma PassManagementVersion(s: DecoderState, w: string) returns (s': DecoderState)
    requires s.decodeFunction.DecodeManagementType? && s.isDecodingHeader
    ensures Moved(s, s', DecodeManagementMethod, s.request)
    ensures Passes(s, "v1" + ("/" + w), s', 3)
  {
    hide Loop, Step;
    AnyNameThen(s, "v1", "/" + w);
    assert ProcessName(s, "v1", '/', 2) == ProcessManagementType(s, "v1", '/', 2);
    s' := Goes(s, "v1" + ("/" + w));
  }

  lemma PassOperation(s: DecoderState, name: string, w: string) returns (s': DecoderState)
    requires s.decodeFunction.DecodeManagementMethod? && s.isDecodingHeader && EndsPath(w)
    requires AllMatch(name, NameChars) && MatchManagementMethod(name).Some?
    ensures Moved(s, s', DecodeEndOfPath,
                  s.request.(api := if MatchManagementMethod(name).value == ManagementDescriptionMethod
                                    then ManagementDescription else ManagementConfiguredDevices))
    ensures Passes(s, name + w, s', |name|)
  {
    hide Loop, Step, MatchManagementMethod;
    AnyNameThen(s, name, w);
    assert ProcessName(s, name, w[0], |name|) == ProcessManagementMethod(s, name, |name|);
    s' := Goes(s, name + w);
  }

  lemma PassGroup(s: DecoderState, name: string, w: string, group: EApiGroup) returns (s': DecoderState)
    requires s.decodeFunction.DecodeApiGroup? && s.isDecodingHeader && AllMatch(name, NameChars)
    requires MatchApiGroup(name) == Some(group) && group != ManagementGroup
    requires MethodIsRead(s.request.httpMethod) || group == DeviceGroup
    ensures Moved(s, s', DecodeApiVersion,
                  s.request.(apiGroup := group, api := if group == SetupGroup then DeviceSetup else DeviceApi))
    ensures Passes(s, name + ("/" + w), s', |name| + 1)
  {
    hide Loop, Step, MatchApiGroup;
    AnyNameThen(s, name, "/" + w);
    assert ProcessName(s, name, '/', |name|) == ProcessApiGroup(s, name, '/', |name|);
    s' := Goes(s, name + ("/" + w));
  }

  lemma PassVersion(s: DecoderState, w: string) returns (s': DecoderState)
    requires s.decodeFunction.DecodeApiVersion? && s.isDecodingHeader
    ensures Moved(s, s', DecodeDeviceType, s.request)
    ensures Passes(s, "v1" + "/" + w, s', 3)
  {
    hide Loop, Step;
    NameThen(s, "v1", w);
    assert ProcessName(s, "v1", '/', 3) == ProcessApiVersion(s, "v1", 3);
    s' := Goes(s, "v1" + "/" + w);
  }

  lemma PassDeviceType(s: DecoderState, name: string, w: string, t: EDeviceType) returns (s': DecoderState)
    requires s.decodeFunction.DecodeDeviceType? && s.isDecodingHeader && AllMatch(name, NameChars)
    requires MatchDeviceType(name) == Some(t)
    ensures Moved(s, s', DecodeDeviceNumber, s.request.(deviceType := t))
    ensures Passes(s, name + "/" + w, s', |name| + 1)
  {
    hide Loop, Step, MatchDeviceType;
    NameThen(s, name, w);
    assert ProcessName(s, name, '/', |name| + 1) == ProcessDeviceType(s, name, |name| + 1);
    s' := Goes(s, name + "/" + w);
  }

  lemma PassDeviceNumber(s: DecoderState, name: string, w: string, n: uint32) returns (s': DecoderState)
    requires s.decodeFunction.DecodeDeviceNumber? && s.isDecodingHeader && AllMatch(name, NameChars)
    requires ToUint32(name) == Some(n)
    ensures Moved(s, s', DecodeDeviceMethod, s.request.(deviceNumber := n))
    ensures Passes(s, name + "/" + w, s', |name| + 1)
  {
    hide Loop, Step, ToUint32;
    NameThen(s, name, w);
    assert ProcessName(s, name, '/', |name| + 1) == ProcessDeviceNumber(s, name, |name| + 1);
    s' := Goes(s, name + "/" + w);
  }

  lemma PassDeviceMethod(s: DecoderState, name: string, w: string, m: EDeviceMethod) returns (s': DecoderState)
    requires s.decodeFunction.DecodeDeviceMethod? && s.isDecodingHeader && AllMatch(name, NameChars)
    requires MatchDeviceMethod(s.request.apiGroup, s.request.deviceType, name) == Some(m) && EndsPath(w)
    ensures Moved(s, s', DecodeEndOfPath, s.request.(deviceMethod := m))
    ensures Passes(s, name + w, s', |name|)
  {
    hide Loop, Step, MatchDeviceMethod;
    AnyNameThen(s, name, w);
    assert ProcessName(s, name, w[0], |name|) == ProcessDeviceMethod(s, name, |name|);
    s' := Goes(s, name + w);
  }

  // The rest of the path to a device, from its number on.
  lemma PassNumberOnward(s: DecoderState, p: Path, w: string, n: uint32, m: EDeviceMethod) returns (s': DecoderState)
    requires s.decodeFunction.DecodeDeviceNumber? && s.isDecodingHeader && EndsPath(w)
    requires p.DevicePath? && PathOk(p) && ToUint32(p.deviceNumber) == Some(n)
    requires MatchDeviceMethod(s.request.apiGroup, s.request.deviceType, p.operation) == Some(m)
    ensures Moved(s, s', DecodeEndOfPath, s.request.(deviceNumber := n, deviceMethod := m))
    ensures Passes(s, p.deviceNumber + "/" + (p.operation + w), s', |p.deviceNumber| + 1 + |p.operation|)
  {
    hide Loop, Passes, MatchDeviceMethod, ToUint32;
    var rest := p.operation + w;
    var s1 := PassDeviceNumber(s, p.deviceNumber, rest, n);
    s' := PassDeviceMethod(s1, p.operation, w, m);
    SplitAt(p.deviceNumber + "/", rest);
    PassesTransitive(s, p.deviceNumber + "/" + rest, s1, |p.deviceNumber| + 1, s', |p.operation|);
  }

  // The rest of the path, from the type of the device on.
  lemma PassTypeOnward(s: DecoderState, p: Path, w: string, t: EDeviceType, n: uint32, m: EDeviceMethod)
    returns (s': DecoderState)
    requires s.decodeFunction.DecodeDeviceType? && s.isDecodingHeader && EndsPath(w)
    requires p.DevicePath? && PathOk(p)
    requires MatchDeviceType(p.deviceType) == Some(t) && ToUint32(p.deviceNumber) == Some(n)
    requires MatchDeviceMethod(s.request.apiGroup, t, p.operation) == Some(m)
    ensures Moved(s, s', DecodeEndOfPath, s.request.(deviceType := t, deviceNumber := n, deviceMethod := m))
    ensures Passes(s, p.deviceType + "/" + (p.deviceNumber + "/" + (p.operation + w)), s',
                   |p.deviceType| + 1 + (|p.deviceNumber| + 1 + |p.operation|))
  {
    hide Loop, Passes, MatchDeviceMethod, MatchDeviceType, ToUint32;
    var rest := p.deviceNumber + "/" + (p.operation + w);
    var s1 := PassDeviceType(s, p.deviceType, rest, t);
    s' := PassNumberOnward(s1, p, w, n, m);
    SplitAt(p.deviceType + "/", rest);
    PassesTransitive(s, p.deviceType + "/" + rest, s1, |p.deviceType| + 1, s', |p.deviceNumber| + 1 + |p.operation|);
  }

  // The text of a path to a device, word by word.
  lemma DeviceParts(p: Path, w: string)
    requires p.DevicePath?
    ensures
      var rest := p.deviceType + "/" + (p.deviceNumber + "/" + (p.operation + w));
      && PathText(p) + w == p.group + ("/" + ("v1" + "/" + rest))
      && |PathText(p)| == |p.group| + 1 + (3 + (|p.deviceType| + 1 + (|p.deviceNumber| + 1 + |p.operation|)))
  {
    assert "/v1/" == "/" + "v1" + "/";
  }

  lemma PassVersionOnward(s: DecoderState, p: Path, w: string, t: EDeviceType, n: uint32, m: EDeviceMethod)
    returns (s': DecoderState)
    requires s.decodeFunction.DecodeApiVersion? && s.isDecodingHeader && EndsPath(w)
    requires p.DevicePath? && PathOk(p)
    requires MatchDeviceType(p.deviceType) == Some(t) && ToUint32(p.deviceNumber) == Some(n)
    requires MatchDeviceMethod(s.request.apiGroup, t, p.operation) == Some(m)
    ensures Moved(s, s', DecodeEndOfPath, s.request.(deviceType := t, deviceNumber := n, deviceMethod := m))
    ensures Passes(s, "v1" + "/" + (p.deviceType + "/" + (p.deviceNumber + "/" + (p.operation + w))), s',
                   3 + (|p.deviceType| + 1 + (|p.deviceNumber| + 1 + |p.operation|)))
  {
    hide Loop, Passes, MatchDeviceMethod, MatchDeviceType, ToUint32;
    var rest := p.deviceType + "/" + (p.deviceNumber + "/" + (p.operation + w));
    var s1 := PassVersion(s, rest);
    s' := PassTypeOnward(s1, p, w, t, n, m);
    SplitAt("v1" + "/", rest);
    PassesTransitive(s, "v1" + "/" + rest, s1, 3, s', |p.deviceType| + 1 + (|p.deviceNumber| + 1 + |p.operation|));
  }

  // What a path to a device means, in the order in which its words are read.
  lemma ReadDevicePath(req: RequestFields, p: Path) returns (g: EApiGroup, t: EDeviceType, n: uint32, m: EDeviceMethod)
    requires p.DevicePath? && ReadPath(req, p).Some?
    ensures MatchApiGroup(p.group) == Some(g) && g != ManagementGroup && g != UnknownGroup
    ensures MethodIsRead(req.httpMethod) || g == DeviceGroup
    ensures MatchDeviceType(p.deviceType) == Some(t) && ToUint32(p.deviceNumber) == Some(n)
    ensures MatchDeviceMethod(g, t, p.operation) == Some(m)
    ensures var req1 := req.(apiGroup := g, api := if g == SetupGroup then DeviceSetup else DeviceApi);
      ReadPath(req, p).value == req1.(deviceType := t, deviceNumber := n, deviceMethod := m)
  {
    hide MatchApiGroup, MatchDeviceType, MatchDeviceMethod, ToUint32;
    GroupNames(p.group);
    g, t := MatchApiGroup(p.group).value, MatchDeviceType(p.deviceType).value;
    n, m := ToUint32(p.deviceNumber).value, MatchDeviceMethod(g, t, p.operation).value;
  }

  lemma PassDevice(s: DecoderState, p: Path, w: string) returns (s': DecoderState)
    requires s.decodeFunction.DecodeApiGroup? && s.isDecodingHeader && EndsPath(w)
    requires p.DevicePath? && PathOk(p) && ReadPath(s.request, p).Some?
    ensures Moved(s, s', DecodeEndOfPath, ReadPath(s.request, p).value)
    ensures Passes(s, PathText(p) + w, s', |PathText(p)|)
  {
    hide Loop, Passes, PathText, MatchApiGroup, MatchDeviceType, MatchDeviceMethod, ToUint32, ReadPath;
    var b := "v1" + "/" + (p.deviceType + "/" + (p.deviceNumber + "/" + (p.operation + w)));
    DeviceParts(p, w);
    var g, t, n, m := ReadDevicePath(s.request, p);
    var s1 := PassGroup(s, p.group, b, g);
    s' := PassVersionOnward(s1, p, w, t, n, m);
    SkipSlash(p.group, b);
    PassesTransitive(s, PathText(p) + w, s1, |p.group| + 1, s',
                     3 + (|p.deviceType| + 1 + (|p.deviceNumber| + 1 + |p.operation|)));
  }

  lemma SkipSlash(word: string, w: string)
    ensures (word + ("/" + w))[|word| + 1..] == w
  {
    assert word + ("/" + w) == word + "/" + w;
    SplitAt(word + "/", w);
  }

  lemma ManagementParts(p: Path, w: string)
    requires p.ApiVersionsPath? || p.ManagementPath?
    ensures
      var rest := if p.ApiVersionsPath? then "apiversions" + w else "v1" + ("/" + (p.operation + w));
      && PathText(p) + w == "management" + ("/" + rest)
      && |PathText(p)| == 11 + (if p.ApiVersionsPath? then 11 else 3 + |p.operation|)
  {
    if p.ApiVersionsPath? {
      assert "management/apiversions" + w == "management" + ("/" + ("apiversions" + w));
    } else {
      assert "management/v1/" == "management" + ("/" + ("v1" + "/"));
      assert "management/v1/" + p.operation + w == "management" + ("/" + ("v1" + ("/" + (p.operation + w))));
    }
  }

  // The rest of a management path after its first word, and the api that it names.
  lemma PassManagementOnward(s: DecoderState, p: Path, w: string) returns (s': DecoderState)
    requires s.decodeFunction.DecodeManagementType? && s.isDecodingHeader && EndsPath(w)
    requires p.ManagementPath? && PathOk(p) && MatchManagementMethod(p.operation).Some?
    ensures Moved(s, s', DecodeEndOfPath,
                  s.request.(api := if MatchManagementMethod(p.operation).value == ManagementDescriptionMethod
                                    then ManagementDescription else ManagementConfiguredDevices))
    ensures Passes(s, "v1" + ("/" + (p.operation + w)), s', 3 + |p.operation|)
  {
    hide Loop, Passes, MatchManagementMethod;
    var rest := p.operation + w;
    var s1 := PassManagementVersion(s, rest);
    s' := PassOperation(s1, p.operation, w);
    SkipSlash("v1", rest);
    PassesTransitive(s, "v1" + ("/" + rest), s1, 3, s', |p.operation|);
  }

  lemma ReadManagementPath(req: RequestFields, p: Path)
    requires (p.ManagementPath? || p.ApiVersionsPath?) && ReadPath(req, p).Some?
    ensures MethodIsRead(req.httpMethod)
    ensures p.ManagementPath? ==> MatchManagementMethod(p.operation).Some?
    ensures ReadPath(req, p).value == req.(apiGroup := ManagementGroup).(
        api := if p.ApiVersionsPath? then ManagementApiVersions
               else if MatchManagementMethod(p.operation).value == ManagementDescriptionMethod
               then ManagementDescription else ManagementConfiguredDevices)
  {
    hide MatchManagementMethod, MatchApiGroup, MatchDeviceType, MatchDeviceMethod, ToUint32;
  }

  lemma PassManagementPath(s: DecoderState, p: Path, w: string) returns (s': DecoderState)
    requires s.decodeFunction.DecodeApiGroup? && s.isDecodingHeader && EndsPath(w)
    requires p.ManagementPath? && PathOk(p) && ReadPath(s.request, p).Some?
    ensures Moved(s, s', DecodeEndOfPath, ReadPath(s.request, p).value)
    ensures Passes(s, PathText(p) + w, s', |PathText(p)|)
  {
    hide Loop, Passes, PathText, MatchManagementMethod, ReadPath;
    ReadManagementPath(s.request, p);
    ManagementParts(p, w);
    var rest := "v1" + ("/" + (p.operation + w));
    var s1 := PassManagement(s, rest);
    s' := PassManagementOnward(s1, p, w);
    SkipSlash("management", rest);
    PassesTransitive(s, PathText(p) + w, s1, 11, s', 3 + |p.operation|);
  }

  lemma PassApiVersionsPath(s: DecoderState, w: string) returns (s': DecoderState)
    requires s.decodeFunction.DecodeApiGroup? && s.isDecodingHeader && EndsPath(w)
    requires ReadPath(s.request, ApiVersionsPath).Some?
    ensures Moved(s, s', DecodeEndOfPath, ReadPath(s.request, ApiVersionsPath).value)
    ensures Passes(s, PathText(ApiVersionsPath) + w, s', |PathText(ApiVersionsPath)|)
  {
    hide Loop, Passes, PathText, ReadPath;
    ReadManagementPath(s.request, ApiVersionsPath);
    ManagementParts(ApiVersionsPath, w);
    var s1 := PassManagement(s, "apiversions" + w);
    s' := PassApiVersions(s1, w);
    SkipSlash("management", "apiversions" + w);
    PassesTransitive(s, PathText(ApiVersionsPath) + w, s1, 11, s', 11);
  }

  lemma PassPath(s: DecoderState, p: Path, w: string) returns (s': DecoderState)
    requires s.decodeFunction.DecodeApiGroup? && s.isDecodingHeader && EndsPath(w)
    requires PathOk(p) && ReadPath(s.request, p).Some?
    ensures Moved(s, s', DecodeEndOfPath, ReadPath(s.request, p).value)
    ensures Passes(s, PathText(p) + w, s', |PathText(p)|)
  {
    hide Loop, Passes, ReadPath;
    match p
    case ServerSetupPath => s' := PassSetup(s, w, ReadPath(s.request, p).value);
    case DevicePath(_, _, _, _) => s' := PassDevice(s, p, w);
    case ManagementPath(_) => s' := PassManagementPath(s, p, w);
    case ApiVersionsPath => s' := PassApiVersionsPath(s, w);
  }

  // The end of a path, and of a query if there is one, up to the version.
  lemma PassEndOfPath(s: DecoderState, query: seq<Param>, w: string) returns (s': DecoderState)
    requires s.decodeFunction.DecodeEndOfPath? && s.isDecodingHeader
    requires ParamsOk(query) && StoreParams(s.request, query).Some?
    ensures Moved(s, s', MatchHttpVersion, StoreParams(s.request, query).value)
    ensures Passes(s, QueryText(query) + (" " + w), s', |QueryText(query)| + 1)
  {
    hide Loop, Passes, ParamsText, StoreParameter;
    if query == [] {
      assert "" + (" " + w) == " " + w;
      s' := PassEndOfPathChar(s, ' ', w);
    } else {
      var rest := ParamsText(query) + (" " + w);
      assert "?" + ParamsText(query) + (" " + w) == "?" + rest;
      var s1 := PassEndOfPathChar(s, '?', rest);
      s' := PassQuery(s1, query, w, StoreParams(s.request, query).value);
      SplitAt("?", rest);
      PassesTransitive(s, "?" + rest, s1, 1, s', |ParamsText(query)| + 1);
    }
  }

  lemma PassEndOfPathChar(s: DecoderState, c: char, w: string) returns (s': DecoderState)
    requires s.decodeFunction.DecodeEndOfPath? && s.isDecodingHeader && (c == ' ' || c == '?')
    ensures Moved(s, s', if c == '?' then DecodeParamName else MatchHttpVersion, s.request)
    ensures Passes(s, [c] + w, s', 1)
  {
    hide Loop;
    assert Step(s, [c] + w) == GoTo(s, if c == '?' then DecodeParamName else MatchHttpVersion, 1) by {
      hide StepName;
    }
    hide Step;
    s' := Goes(s, [c] + w);
  }

  lemma PassHttpVersion(s: DecoderState, w: string) returns (s': DecoderState)
    requires s.decodeFunction.MatchHttpVersion? && s.isDecodingHeader
    ensures Moved(s, s', DecodeHeaderLines, s.request)
    ensures Passes(s, HTTP_VERSION_END_OF_LINE + w, s', 10)
  {
    hide Loop;
    var v := HTTP_VERSION_END_OF_LINE + w;
    assert HTTP_VERSION_END_OF_LINE <= v;
    assert Step(s, v) == GoTo(s.(isDecodingStartLine := false), DecodeHeaderLines, 10) by {
      hide StepName;
    }
    hide Step;
    s' := Goes(s, v);
  }

  lemma PassVerb(s: DecoderState, verb: string, w: string, httpMethod: EHttpMethod) returns (s': DecoderState)
    requires s.decodeFunction.DecodeHttpMethod? && s.isDecodingHeader && AllMatch(verb, NameChars)
    requires MatchHttpMethod(verb) == Some(httpMethod)
    ensures Moved(s, s', DecodeFunction.MatchStartOfPath, s.request.(httpMethod := httpMethod))
    ensures Passes(s, verb + " " + w, s', |verb| + 1)
  {
    hide Loop, Step, MatchHttpMethod;
    NameThen(s, verb, w);
    assert ProcessName(s, verb, ' ', |verb| + 1) == ProcessHttpMethod(s, verb, |verb| + 1);
    s' := Goes(s, verb + " " + w);
  }

  lemma PassSlash(s: DecoderState, w: string) returns (s': DecoderState)
    requires s.decodeFunction.MatchStartOfPath? && s.isDecodingHeader
    ensures Moved(s, s', DecodeApiGroup, s.request)
    ensures Passes(s, "/" + w, s', 1)
  {
    hide Loop;
    assert Step(s, "/" + w) == GoTo(s, DecodeApiGroup, 1) by {
      hide StepName;
    }
    hide Step;
    s' := Goes(s, "/" + w);
  }
}
