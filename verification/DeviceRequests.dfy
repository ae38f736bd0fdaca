// Requests to devices: every method of every device, with arguments of the
// types that devices take, survives being written as text and decoded.

module DeviceRequests {
  import opened Ints
  import opened Wrappers
  import opened Text
  import opened Protocol
  import opened AlpacaRequests
  import opened DecoderSpec
  import opened Fragmentation
  import opened RequestGrammar
  import opened DecodedRequests
  import opened ParameterSoundness
  import opened OrderedMaps
  import opened HttpRequests
  import opened RequestRoundTrip

  // ----------------------------------------------------------------- Arguments

  // The values that can be sent for a parameter and are kept as they are. (An
  // Id from 2^31 on is narrowed; the values of the other two parameters are not whole.)
  ghost predicate InRange(p: EParameter, v: Value) {
    match p
    case ClientIdParam | ClientTransactionIdParam => v.Number? && 0 <= v.n <= MAX_UINT32
    case IdParam => v.Number? && 0 <= v.n < 0x8000_0000
    case BrightnessParam => v.Number? && -0x8000_0000 <= v.n < 0x8000_0000
    case ConnectedParam | StateParam => v.Flag?
    case SensorNameParam => v.Sensor? && v.name != UnknownSensor
    case _ => false
  }

  function SensorText(s: ESensorName): string {
    match s
    case UnknownSensor => ""
    case CloudCoverSensor => "cloudcover"
    case DewPointSensor => "dewpoint"
    case HumiditySensor => "humidity"
    case PressureSensor => "pressure"
    case RainRateSensor => "rainrate"
    case SkyBrightnessSensor => "skybrightness"
    case SkyQualitySensor => "skyquality"
    case SkyTemperatureSensor => "skytemperature"
    case StarFullWidthHalfMaxSensor => "starfullwidthhalfmax"
    case TemperatureSensor => "temperature"
    case WindDirectionSensor => "winddirection"
    case WindGustSensor => "windgust"
    case WindSpeedSensor => "windspeed"
  }

  function ArgumentText(v: Value): string {
    match v
    case Number(n) => SignedDecimal(n)
    case Flag(b) => if b then "True" else "False"
    case Sensor(s) => SensorText(s)
    case Real(_) => ""
  }

  // Where the name of a sensor is in the table of names.
  function IndexOfSensor(s: ESensorName): (i: nat)
    requires s != UnknownSensor
    ensures |SensorNames()| == 13 && i < 13 && SensorNames()[i] == (SensorText(s), s)
  {
    match s
    case CloudCoverSensor => 0
    case DewPointSensor => 1
    case HumiditySensor => 2
    case PressureSensor => 3
    case RainRateSensor => 4
    case SkyBrightnessSensor => 5
    case SkyQualitySensor => 6
    case SkyTemperatureSensor => 7
    case StarFullWidthHalfMaxSensor => 8
    case TemperatureSensor => 9
    case WindDirectionSensor => 10
    case WindGustSensor => 11
    case WindSpeedSensor => 12
  }

  lemma SensorNamesDiffer(j: nat, i: nat)
    requires |SensorNames()| == 13 && j < i < 13
    ensures !CaseEqual(SensorNames()[j].0, SensorNames()[i].0)
  {
    hide CaseEqual;
    DifferentWords(SensorNames()[j].0, SensorNames()[i].0, if i == 12 && j == 11 then 4 else 0);
  }

  lemma SensorTextIsMatched(s: ESensorName)
    requires s != UnknownSensor
    ensures MatchSensorName(SensorText(s)) == Some(s)
  {
    var i := IndexOfSensor(s);
    hide SensorNames, SensorText, CaseEqual;
    forall j | 0 <= j < i ensures !CaseEqual(SensorNames()[j].0, SensorText(s)) {
      SensorNamesDiffer(j, i);
    }
    SameWord(SensorText(s));
    MatchFinds(SensorNames(), SensorText(s), i);
  }

  lemma SameWord(a: string)
    ensures CaseEqual(a, a)
  {
  }

  lemma SensorTextIsName(s: ESensorName)
    ensures AllMatch(SensorText(s), NameChars)
  {
    hide AllMatch;
    ObservingConditionsWordsOne();
    ObservingConditionsWordsTwo();
    ObservingConditionsWordsThree();
    assert AllMatch("", NameChars) by { NoText(); }
  }

  lemma NoText()
    ensures AllMatch("", NameChars)
  {
  }

  // What is written for an argument can be sent, and is read as the argument.
  lemma ArgumentIsRead(p: EParameter, v: Value)
    requires InRange(p, v)
    ensures Parse(p, ArgumentText(v)) == Some(v) && AllMatch(ArgumentText(v), NameChars)
  {
    match v
    case Number(n) =>
      NumberText(n);
      if p.BrightnessParam? {
        Int32RoundTrip(n);
      } else {
        Uint32RoundTrip(n);
      }
    case Flag(b) => FlagIsRead(b);
    case Sensor(s) =>
      SensorTextIsName(s);
      SensorTextIsMatched(s);
      hide MatchSensorName, SensorText;
  }

  lemma FlagIsRead(b: bool)
    ensures var t := ArgumentText(Flag(b)); ToBool(t) == Some(b) && AllMatch(t, NameChars)
  {
  }

  lemma NumberText(n: int)
    ensures AllMatch(SignedDecimal(n), NameChars)
  {
    hide Decimal;
  }

  // One entry of the request's parameters carries argument v for parameter p,
  // under its name in whatever case.
  ghost predicate Carries(e: (string, string), p: EParameter, v: Value) {
    CaseEqual(NameOf(p), e.0) && e.1 == ArgumentText(v) && InRange(p, v)
  }

  lemma NameOfIsName(p: EParameter)
    ensures AllMatch(NameOf(p), NameChars)
  {
  }

  lemma SameWordIsName(a: string, b: string)
    requires CaseEqual(a, b) && AllMatch(a, NameChars)
    ensures AllMatch(b, NameChars)
  {
    forall i | 0 <= i < |b| ensures Matches(NameChars, b[i]) {
      assert |ToLower(a)| == |ToLower(b)|;
      assert ToLower(a)[i] == ToLower(b)[i];
      assert Matches(NameChars, a[i]);
    }
  }

  lemma CarriedIsSendable(m: Entries, args: seq<(EParameter, Value)>)
    requires |args| == |m| && forall i :: 0 <= i < |m| ==> Carries(m[i], args[i].0, args[i].1)
    ensures Sendable(m)
    ensures forall i :: 0 <= i < |m| ==> ToParams(m)[i].name == m[i].0 && ToParams(m)[i].value == m[i].1
  {
    hide AllMatch, CaseEqual, ArgumentText, InRange, NameOf, Encode;
    forall i | 0 <= i < |m|
      ensures AllMatch(m[i].0, NameChars) && AllMatch(Encode(m[i].1), ParamValueChars)
      ensures ToParams(m)[i].name == m[i].0 && ToParams(m)[i].value == m[i].1
    {
      NameOfIsName(args[i].0);
      SameWordIsName(NameOf(args[i].0), m[i].0);
      ArgumentIsRead(args[i].0, args[i].1);
      NamesAreKept(m[i].0);
      NamesAreKept(m[i].1);
      NameIsValue(m[i].1);
      ToParamsAt(m, i);
    }
  }

  lemma NameIsValue(s: string)
    requires AllMatch(s, NameChars)
    ensures AllMatch(s, ParamValueChars)
  {
  }

  lemma InRangeIsBuiltIn(p: EParameter, v: Value)
    requires InRange(p, v)
    ensures BuiltIn(p)
  {
  }

  // Arguments under distinct names are acceptable to a request that holds none,
  // and storing them is holding each of them.
  lemma CarriedIsAcceptable(m: Entries, args: seq<(EParameter, Value)>, req: RequestFields)
    requires |args| == |m| && forall i :: 0 <= i < |m| ==> Carries(m[i], args[i].0, args[i].1)
    requires Sorted(m) && forall p :: Held(req, p).None?
    ensures Acceptable(req, ToParams(m))
    ensures forall i :: 0 <= i < |m| ==> NameAt(ToParams(m), i) == args[i].0
  {
    hide CaseEqual, ArgumentText, InRange, NameOf, Encode, Held, Parse, ParameterOf, AllMatch, Less;
    CarriedIsSendable(m, args);
    var ps := ToParams(m);
    forall i | 0 <= i < |m| ensures NameAt(ps, i) == args[i].0 {
      InRangeIsBuiltIn(args[i].0, args[i].1);
      ParameterIsNamed(m[i].0, args[i].0);
    }
    forall i | 0 <= i < |ps| && BuiltIn(NameAt(ps, i))
      ensures Parse(NameAt(ps, i), ps[i].value).Some?
      ensures forall j :: 0 <= j < i ==> NameAt(ps, j) != NameAt(ps, i)
    {
      ArgumentIsRead(args[i].0, args[i].1);
      forall j | 0 <= j < i ensures NameAt(ps, j) != NameAt(ps, i) {
        if args[j].0 == args[i].0 {
          SameWords(NameOf(args[i].0), m[j].0, m[i].0);
          SortedIsDistinct(m, j, i);
        }
      }
    }
  }

  lemma SameWords(a: string, b: string, c: string)
    requires CaseEqual(a, b) && CaseEqual(a, c)
    ensures CaseEqual(b, c)
  {
  }

  // What a request holds once it has been given arguments: each of them, and
  // nothing for any other parameter.
  ghost predicate Holds(req: RequestFields, args: seq<(EParameter, Value)>) {
    && (forall i :: 0 <= i < |args| ==> Held(req, args[i].0) == Some(args[i].1))
    && (forall p :: (forall i :: 0 <= i < |args| ==> args[i].0 != p) ==> Held(req, p) == None)
  }

  lemma {:induction false} StoredIsHeld(m: Entries, args: seq<(EParameter, Value)>, req: RequestFields, req': RequestFields)
    requires |args| == |m| && forall i :: 0 <= i < |m| ==> Carries(m[i], args[i].0, args[i].1)
    requires forall p :: Held(req, p).None?
    requires Stored(req, ToParams(m), req') && forall i :: 0 <= i < |m| ==> NameAt(ToParams(m), i) == args[i].0
    ensures Holds(req', args)
  {
    hide CaseEqual, ArgumentText, InRange, NameOf, Encode, Held, Parse, ParameterOf, AllMatch;
    var ps := ToParams(m);
    CarriedIsSendable(m, args);
    forall i | 0 <= i < |args| ensures Held(req', args[i].0) == Some(args[i].1) {
      InRangeIsBuiltIn(args[i].0, args[i].1);
      ArgumentIsRead(args[i].0, args[i].1);
      assert BuiltIn(NameAt(ps, i));
    }
    forall p | forall i :: 0 <= i < |args| ==> args[i].0 != p ensures Held(req', p) == None {
      assert forall i :: 0 <= i < |ps| ==> NameAt(ps, i) != p;
    }
  }

  // ------------------------------------------------------------------ The theorem

  function DevicePathOf(deviceType: string, n: uint32, operation: string): Path {
    DevicePath("api", deviceType, Decimal(n), operation)
  }

  lemma ReadDevicePath(req: RequestFields, deviceType: string, n: uint32, operation: string, t: EDeviceType, m: EDeviceMethod)
    requires MatchDeviceType(deviceType) == Some(t) && MatchDeviceMethod(DeviceGroup, t, operation) == Some(m)
    ensures ReadPath(req, DevicePathOf(deviceType, n, operation)) ==
      Some(req.(apiGroup := DeviceGroup, api := DeviceApi, deviceType := t, deviceNumber := n, deviceMethod := m))
  {
    Uint32RoundTrip(n);
    assert MatchApiGroup("api") == Some(DeviceGroup);
    hide MatchDeviceType, MatchDeviceMethod, MatchApiGroup, ToUint32, Decimal;
  }

  // The request was for this, and nothing else.
  ghost predicate Asks(req: RequestFields, httpMethod: EHttpMethod, t: EDeviceType, n: uint32, m: EDeviceMethod) {
    req.httpMethod == httpMethod && req.apiGroup == DeviceGroup && req.api == DeviceApi
    && req.deviceType == t && req.deviceNumber == n && req.deviceMethod == m
  }

  // A request for a method of a device of some type, of any number, with any
  // arguments under names that differ.
  ghost predicate IsDeviceRequest(h: Contents, deviceType: string, n: uint32, operation: string, t: EDeviceType,
                                  m: EDeviceMethod, args: seq<(EParameter, Value)>) {
    && MatchDeviceType(deviceType) == Some(t) && MatchDeviceMethod(DeviceGroup, t, operation) == Some(m)
    && (h.verb == "GET" || h.verb == "PUT")
    && h.path == "/" + PathText(DevicePathOf(deviceType, n, operation)) && h.version == "HTTP/1.1"
    && (forall i :: 0 <= i < |h.headers| ==> Harmless(h.headers[i]))
    && Sorted(h.parameters) && |args| == |h.parameters|
    && (forall i :: 0 <= i < |args| ==> Carries(h.parameters[i], args[i].0, args[i].1))
    && (h.verb == "PUT" ==> |Join(h.parameters)| <= MAX_UINT16)
  }

  // Exactly its text is consumed, and the request decoded asks for exactly that.
  ghost predicate IsAnswerable(h: Contents, n: uint32, t: EDeviceType, m: EDeviceMethod,
                               args: seq<(EParameter, Value)>, s: DecoderState, o: Outcome) {
    && o.status.HttpOk? && o.used == |RequestText(h)|
    && Asks(o.state.request, if h.verb == "GET" then GET else PUT, t, n, m)
    && o.state.request.doClose == s.request.doClose
    && Holds(o.state.request, args)
  }

  lemma DeviceRequestIsServable(h: Contents, deviceType: string, n: uint32, operation: string, t: EDeviceType,
                                m: EDeviceMethod, args: seq<(EParameter, Value)>, s: DecoderState)
    requires IsDeviceRequest(h, deviceType, n, operation, t, m, args) && forall p :: Held(s.request, p).None?
    ensures var p := DevicePathOf(deviceType, n, operation);
      && Servable(h, p, s.request)
      && Acceptable(ReadPath(WithMethod(s.request, h), p).value, ToParams(h.parameters))
      && forall o :: IsServed(h, p, s, o) ==> IsAnswerable(h, n, t, m, args, s, o)
  {
    hide MatchDeviceType, MatchDeviceMethod, Held, Harmless, Sorted, Carries, Join, RequestText, PathText,
         Sendable, Acceptable, Stored, ReadPath, ToParams, Holds, PathOk, NameAt;
    var p, req0 := DevicePathOf(deviceType, n, operation), WithMethod(s.request, h);
    ReadDevicePath(req0, deviceType, n, operation, t, m);
    DevicePathIsOk(deviceType, n, operation, t, m);
    var req1 := ReadPath(req0, p).value;
    forall q ensures Held(req1, q).None? {
      PathIsNoParam(s.request, req1, q);
    }
    CarriedIsSendable(h.parameters, args);
    CarriedIsAcceptable(h.parameters, args, req1);
    forall o | IsServed(h, p, s, o) ensures IsAnswerable(h, n, t, m, args, s, o) {
      StoredIsHeld(h.parameters, args, req1, o.state.request);
    }
  }

  // The round trip: a view that starts with the text of the request is decoded
  // into just what was asked, and exactly that text is consumed; but if the
  // request has a body, and something follows it in view, it is too large.
  lemma DeviceRequestRoundTrip(h: Contents, deviceType: string, n: uint32, operation: string, t: EDeviceType,
                               m: EDeviceMethod, args: seq<(EParameter, Value)>, s: DecoderState, v: string,
                               full: bool, atEnd: bool)
    requires AtBeginning(s) && forall p :: Held(s.request, p).None?
    requires IsDeviceRequest(h, deviceType, n, operation, t, m, args) && RequestText(h) <= v
    ensures var o := DecodeBuffer(s, v, full, atEnd);
      if HasBody(h) && v != RequestText(h) then o.status.HttpPayloadTooLarge?
      else IsAnswerable(h, n, t, m, args, s, o)
  {
    hide *;
    DeviceRequestIsServable(h, deviceType, n, operation, t, m, args, s);
    RequestDecodes(h, DevicePathOf(deviceType, n, operation), s, v, full, atEnd);
  }

  // And so it is when it arrives in pieces of whatever sizes, if one of them ends
  // where its body does.
  lemma DeviceRequestRoundTripFed(h: Contents, deviceType: string, n: uint32, operation: string, t: EDeviceType,
                                  m: EDeviceMethod, args: seq<(EParameter, Value)>, s: DecoderState,
                                  chunks: seq<string>)
    requires AtBeginning(s) && forall p :: Held(s.request, p).None?
    requires IsDeviceRequest(h, deviceType, n, operation, t, m, args) && RequestText(h) <= Concat(chunks)
    requires HasBody(h) ==> EndsWithPiece(RequestText(h), chunks)
    ensures IsAnswerable(h, n, t, m, args, s, Feed(s, "", chunks))
  {
    hide *;
    DeviceRequestIsServable(h, deviceType, n, operation, t, m, args, s);
    RequestDecodesFed(h, DevicePathOf(deviceType, n, operation), s, chunks);
  }

  lemma PathIsNoParam(req: RequestFields, req1: RequestFields, q: EParameter)
    requires req1 == req.(httpMethod := req1.httpMethod, apiGroup := req1.apiGroup, api := req1.api,
                          deviceType := req1.deviceType, deviceNumber := req1.deviceNumber,
                          deviceMethod := req1.deviceMethod)
    ensures Held(req1, q) == Held(req, q)
  {
  }

  // -------------------------------------------------------- Names in the tables

  ghost predicate AllNames<T>(table: seq<(string, T)>) {
    forall i :: 0 <= i < |table| ==> AllMatch(table[i].0, NameChars)
  }

  lemma {:induction false} EntryIsName<T>(table: seq<(string, T)>, text: string)
    requires AllNames(table) && MatchExactly(table, text).Some?
    ensures AllMatch(text, NameChars)
  {
    hide AllMatch;
    MatchIsEntry(table, text);
  }

  lemma DeviceTypeWordsOne()
    ensures AllMatch("camera", NameChars) && AllMatch("covercalibrator", NameChars)
    ensures AllMatch("dome", NameChars) && AllMatch("filterwheel", NameChars) && AllMatch("focuser", NameChars)
  {
  }

  lemma DeviceTypeWordsTwo()
    ensures AllMatch("observingconditions", NameChars) && AllMatch("rotator", NameChars)
    ensures AllMatch("safetymonitor", NameChars) && AllMatch("switch", NameChars)
    ensures AllMatch("telescope", NameChars)
  {
  }

  lemma DeviceTypesAreNames()
    ensures AllNames(DeviceTypes())
  {
    hide AllMatch;
    DeviceTypeWordsOne();
    DeviceTypeWordsTwo();
    assert |DeviceTypes()| == 10;
  }

  lemma CommonDeviceWords()
    ensures AllMatch("connected", NameChars) && AllMatch("description", NameChars)
    ensures AllMatch("driverinfo", NameChars) && AllMatch("driverversion", NameChars)
    ensures AllMatch("interfaceversion", NameChars) && AllMatch("name", NameChars)
    ensures AllMatch("supportedactions", NameChars)
  {
  }

  lemma CommonDeviceMethodsAreNames()
    ensures AllNames(CommonDeviceMethods())
  {
    hide AllMatch;
    CommonDeviceWords();
    assert |CommonDeviceMethods()| == 7;
  }

  lemma CoverCalibratorWordsOne()
    ensures AllMatch("brightness", NameChars) && AllMatch("calibratoroff", NameChars)
    ensures AllMatch("calibratoron", NameChars) && AllMatch("calibratorstate", NameChars)
    ensures AllMatch("closecover", NameChars)
  {
  }

  lemma CoverCalibratorWordsTwo()
    ensures AllMatch("coverstate", NameChars) && AllMatch("haltcover", NameChars)
    ensures AllMatch("maxbrightness", NameChars) && AllMatch("opencover", NameChars)
  {
  }

  lemma CoverCalibratorMethodsAreNames()
    ensures AllNames(CoverCalibratorMethods())
  {
    hide AllMatch;
    CoverCalibratorWordsOne();
    CoverCalibratorWordsTwo();
    assert |CoverCalibratorMethods()| == 9;
  }

  lemma ObservingConditionsWordsOne()
    ensures AllMatch("averageperiod", NameChars) && AllMatch("cloudcover", NameChars)
    ensures AllMatch("dewpoint", NameChars) && AllMatch("humidity", NameChars)
    ensures AllMatch("pressure", NameChars) && AllMatch("rainrate", NameChars)
  {
  }

  lemma ObservingConditionsWordsTwo()
    ensures AllMatch("refresh", NameChars) && AllMatch("sensordescription", NameChars)
    ensures AllMatch("skybrightness", NameChars) && AllMatch("skyquality", NameChars)
    ensures AllMatch("skytemperature", NameChars) && AllMatch("starfullwidthhalfmax", NameChars)
  {
  }

  lemma ObservingConditionsWordsThree()
    ensures AllMatch("temperature", NameChars) && AllMatch("timesincelastupdate", NameChars)
    ensures AllMatch("winddirection", NameChars) && AllMatch("windgust", NameChars)
    ensures AllMatch("windspeed", NameChars)
  {
  }

  lemma ObservingConditionsMethodsAreNames()
    ensures AllNames(ObservingConditionsMethods())
  {
    hide AllMatch;
    ObservingConditionsWordsOne();
    ObservingConditionsWordsTwo();
    ObservingConditionsWordsThree();
    assert |ObservingConditionsMethods()| == 17;
  }

  lemma SafetyMonitorMethodsAreNames()
    ensures AllNames(SafetyMonitorMethods())
  {
  }

  lemma SwitchWordsOne()
    ensures AllMatch("canwrite", NameChars) && AllMatch("getswitch", NameChars)
    ensures AllMatch("getswitchdescription", NameChars) && AllMatch("getswitchname", NameChars)
    ensures AllMatch("getswitchvalue", NameChars) && AllMatch("maxswitch", NameChars)
  {
  }

  lemma SwitchWordsTwo()
    ensures AllMatch("maxswitchvalue", NameChars) && AllMatch("minswitchvalue", NameChars)
    ensures AllMatch("setswitch", NameChars) && AllMatch("setswitchname", NameChars)
    ensures AllMatch("setswitchvalue", NameChars) && AllMatch("switchstep", NameChars)
  {
  }

  lemma SwitchMethodsAreNames()
    ensures AllNames(SwitchMethods())
  {
    hide AllMatch;
    SwitchWordsOne();
    SwitchWordsTwo();
    assert |SwitchMethods()| == 12;
  }

  lemma DeviceMethodIsName(t: EDeviceType, text: string)
    requires MatchDeviceMethod(DeviceGroup, t, text).Some?
    ensures AllMatch(text, NameChars)
  {
    hide AllNames, AllMatch, MatchExactly, CommonDeviceMethods, CoverCalibratorMethods, ObservingConditionsMethods,
         SwitchMethods, SafetyMonitorMethods;
    CommonDeviceMethodsAreNames();
    CoverCalibratorMethodsAreNames();
    ObservingConditionsMethodsAreNames();
    SafetyMonitorMethodsAreNames();
    SwitchMethodsAreNames();
    if MatchCommonDeviceMethod(text).Some? {
      EntryIsName(CommonDeviceMethods(), text);
    } else {
      match t
      case CoverCalibrator => EntryIsName(CoverCalibratorMethods(), text);
      case ObservingConditions => EntryIsName(ObservingConditionsMethods(), text);
      case SafetyMonitor => EntryIsName(SafetyMonitorMethods(), text);
      case _ => EntryIsName(SwitchMethods(), text);
    }
  }

  lemma DevicePathIsOk(deviceType: string, n: uint32, operation: string, t: EDeviceType, m: EDeviceMethod)
    requires MatchDeviceType(deviceType) == Some(t) && MatchDeviceMethod(DeviceGroup, t, operation) == Some(m)
    ensures PathOk(DevicePathOf(deviceType, n, operation))
  {
    hide MatchDeviceMethod, DeviceTypes, AllMatch, Decimal, MatchExactly;
    DeviceTypesAreNames();
    EntryIsName(DeviceTypes(), deviceType);
    DeviceMethodIsName(t, operation);
    DigitsAreNames(n);
    ApiIsName();
  }

  lemma DigitsAreNames(n: nat)
    ensures AllMatch(Decimal(n), NameChars)
  {
    hide Decimal;
  }

  lemma ApiIsName()
    ensures AllMatch("api", NameChars)
  {
  }
}
