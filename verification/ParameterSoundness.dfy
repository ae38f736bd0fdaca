// Each built-in parameter is stored exactly when it is sent, exactly once, with
// a value that can be read.

module ParameterSoundness {
  import opened Ints
  import opened Wrappers
  import opened Text
  import opened Protocol
  import opened AlpacaRequests
  import opened DecoderSpec
  import opened Fragmentation
  import opened RequestGrammar
  import GrammarTheorems
  import opened DecodedRequests

  datatype Value = Number(n: int) | Real(x: real) | Flag(b: bool) | Sensor(name: ESensorName)

  predicate BuiltIn(p: EParameter) {
    p.ClientIdParam? || p.ClientTransactionIdParam? || p.IdParam? || p.BrightnessParam? || p.ValueParam?
    || p.AveragePeriodParam? || p.ConnectedParam? || p.StateParam? || p.SensorNameParam?
  }

  // The value of a parameter that a request holds, if it is flagged as having one.
  function Held(req: RequestFields, p: EParameter): Option<Value> {
    match p
    case ClientIdParam => if req.haveClientId then Some(Number(req.clientId)) else None
    case ClientTransactionIdParam =>
      if req.haveClientTransactionId then Some(Number(req.clientTransactionId)) else None
    case IdParam => if req.haveId then Some(Number(req.id)) else None
    case BrightnessParam => if req.haveBrightness then Some(Number(req.brightness)) else None
    case ValueParam => if req.haveValue then Some(Real(req.value)) else None
    case AveragePeriodParam => if req.haveAveragePeriod then Some(Real(req.averagePeriod)) else None
    case ConnectedParam => if req.haveConnected then Some(Flag(req.connected)) else None
    case StateParam => if req.haveState then Some(Flag(req.state)) else None
    case SensorNameParam => if req.sensorName != UnknownSensor then Some(Sensor(req.sensorName)) else None
    case _ => None
  }

  // The value that a text denotes for a parameter. An Id is narrowed to 32 signed bits.
  function Parse(p: EParameter, text: string): Option<Value> {
    match p
    case ClientIdParam | ClientTransactionIdParam =>
      var n := ToUint32(text);
      if n.Some? then Some(Number(n.value)) else None
    case IdParam =>
      var n := ToUint32(text);
      if n.Some? then Some(Number(AsInt32(n.value))) else None
    case BrightnessParam =>
      var n := ToInt32(text);
      if n.Some? then Some(Number(n.value)) else None
    case ValueParam | AveragePeriodParam =>
      var x := ToReal(text);
      if x.Some? then Some(Real(x.value)) else None
    case ConnectedParam | StateParam =>
      var b := ToBool(text);
      if b.Some? then Some(Flag(b.value)) else None
    case SensorNameParam =>
      var sensor := MatchSensorName(text);
      if sensor.Some? then Some(Sensor(sensor.value)) else None
    case _ => None
  }

  // ------------------------------------------------------- One parameter stored

  lemma SensorIsKnown(text: string)
    ensures MatchSensorName(text) != Some(UnknownSensor)
  {
    var r := MatchSensorName(text);
    if r.Some? {
      MatchIsCaselessEntry(SensorNames(), text);
    }
  }

  lemma StoreOne(req: RequestFields, p: EParameter, text: string)
    ensures var r := StoreParameter(req, p, text);
      r.Some? <==> (BuiltIn(p) ==> Held(req, p).None? && Parse(p, text).Some?)
  {
    hide ToUint32, ToInt32, ToReal, ToBool, MatchSensorName, AsInt32;
  }

  lemma StoredOne(req: RequestFields, p: EParameter, text: string, q: EParameter)
    requires StoreParameter(req, p, text).Some?
    ensures var r := StoreParameter(req, p, text).value;
      Held(r, q) == if BuiltIn(p) && q == p then Parse(p, text) else Held(req, q)
  {
    SensorIsKnown(text);
    hide ToUint32, ToInt32, ToReal, ToBool, MatchSensorName, AsInt32;
  }

  // ----------------------------------------------------- All parameters stored

  function NameAt(ps: seq<Param>, i: nat): EParameter
    requires i < |ps|
  {
    ParameterOf(ps[i].name)
  }

  // Every built-in parameter among ps can be read, occurs once, and is not held yet.
  ghost predicate Acceptable(req: RequestFields, ps: seq<Param>) {
    forall i :: 0 <= i < |ps| && BuiltIn(NameAt(ps, i)) ==>
      && Held(req, NameAt(ps, i)).None?
      && Parse(NameAt(ps, i), ps[i].value).Some?
      && forall j :: 0 <= j < i ==> NameAt(ps, j) != NameAt(ps, i)
  }

  // After ps, a request holds the value of each built-in parameter among them,
  // and otherwise what it held before.
  ghost predicate Stored(req: RequestFields, ps: seq<Param>, req': RequestFields) {
    && (forall i :: 0 <= i < |ps| && BuiltIn(NameAt(ps, i)) ==>
          Held(req', NameAt(ps, i)) == Parse(NameAt(ps, i), ps[i].value))
    && (forall p :: (forall i :: 0 <= i < |ps| ==> NameAt(ps, i) != p) ==> Held(req', p) == Held(req, p))
  }

  lemma AcceptableRest(req: RequestFields, ps: seq<Param>, req1: RequestFields)
    requires ps != [] && Some(req1) == StoreParameter(req, NameAt(ps, 0), ps[0].value)
    ensures Acceptable(req, ps) <==> Acceptable(req1, ps[1..])
  {
    hide Parse, Held, StoreParameter, ParameterOf;
    var rest := ps[1..];
    StoreOne(req, NameAt(ps, 0), ps[0].value);
    forall p ensures Held(req1, p) == if BuiltIn(NameAt(ps, 0)) && p == NameAt(ps, 0)
                                      then Parse(p, ps[0].value) else Held(req, p) {
      StoredOne(req, NameAt(ps, 0), ps[0].value, p);
    }
    assert forall i :: 0 <= i < |rest| ==> NameAt(rest, i) == NameAt(ps, i + 1) && rest[i].value == ps[i + 1].value;
    if Acceptable(req, ps) {
      forall i | 0 <= i < |rest| && BuiltIn(NameAt(rest, i))
        ensures Held(req1, NameAt(rest, i)).None? && Parse(NameAt(rest, i), rest[i].value).Some?
        ensures forall j :: 0 <= j < i ==> NameAt(rest, j) != NameAt(rest, i)
      {
        assert NameAt(ps, i + 1) != NameAt(ps, 0);
        assert forall j :: 0 <= j < i ==> NameAt(rest, j) == NameAt(ps, j + 1);
      }
    }
    if Acceptable(req1, rest) {
      forall i | 0 <= i < |ps| && BuiltIn(NameAt(ps, i))
        ensures Held(req, NameAt(ps, i)).None? && Parse(NameAt(ps, i), ps[i].value).Some?
        ensures forall j :: 0 <= j < i ==> NameAt(ps, j) != NameAt(ps, i)
      {
        if i > 0 {
          assert NameAt(rest, i - 1) == NameAt(ps, i);
          assert forall j :: 0 < j < i ==> NameAt(ps, j) == NameAt(rest, j - 1);
        }
      }
    }
  }

  lemma StoredRest(req: RequestFields, ps: seq<Param>, req1: RequestFields, req': RequestFields)
    requires ps != [] && Some(req1) == StoreParameter(req, NameAt(ps, 0), ps[0].value)
    requires Acceptable(req, ps) && Stored(req1, ps[1..], req')
    ensures Stored(req, ps, req')
  {
    hide Parse, Held, StoreParameter, ParameterOf;
    var rest := ps[1..];
    forall p ensures Held(req1, p) == if BuiltIn(NameAt(ps, 0)) && p == NameAt(ps, 0)
                                      then Parse(p, ps[0].value) else Held(req, p) {
      StoredOne(req, NameAt(ps, 0), ps[0].value, p);
    }
    assert forall i :: 0 <= i < |rest| ==> NameAt(rest, i) == NameAt(ps, i + 1) && rest[i].value == ps[i + 1].value;
    forall i | 0 <= i < |ps| && BuiltIn(NameAt(ps, i))
      ensures Held(req', NameAt(ps, i)) == Parse(NameAt(ps, i), ps[i].value)
    {
      if i == 0 {
        assert forall k :: 0 <= k < |rest| ==> NameAt(rest, k) == NameAt(ps, 0) ==> BuiltIn(NameAt(ps, k + 1));
      } else {
        assert NameAt(rest, i - 1) == NameAt(ps, i);
      }
    }
    forall p | forall i :: 0 <= i < |ps| ==> NameAt(ps, i) != p
      ensures Held(req', p) == Held(req, p)
    {
      assert NameAt(ps, 0) != p;
    }
  }

  // Parameters are accepted exactly when the built-in ones among them can be
  // read and do not repeat, and then each one's value is what its text denotes.
  lemma {:induction false} StoreParamsIs(req: RequestFields, ps: seq<Param>)
    ensures StoreParams(req, ps).Some? <==> Acceptable(req, ps)
    ensures StoreParams(req, ps).Some? ==> Stored(req, ps, StoreParams(req, ps).value)
    decreases |ps|
  {
    if ps != [] {
      hide Parse, Held, StoreParameter, ParameterOf, Acceptable, Stored;
      StoreOne(req, NameAt(ps, 0), ps[0].value);
      var r := StoreParameter(req, NameAt(ps, 0), ps[0].value);
      if r.Some? {
        StoreParamsIs(r.value, ps[1..]);
        AcceptableRest(req, ps, r.value);
        if Acceptable(req, ps) {
          StoredRest(req, ps, r.value, StoreParams(req, ps).value);
        }
      } else {
        FirstUnacceptable(req, ps);
      }
    }
  }

  lemma FirstUnacceptable(req: RequestFields, ps: seq<Param>)
    requires ps != [] && BuiltIn(NameAt(ps, 0))
    requires Held(req, NameAt(ps, 0)).Some? || Parse(NameAt(ps, 0), ps[0].value).None?
    ensures !Acceptable(req, ps)
  {
    hide Parse, Held, ParameterOf;
  }

  // Storing some parameters and then others is storing them all: the second lot
  // is acceptable after the first exactly when the two together are.
  lemma StoredBoth(req: RequestFields, ps: seq<Param>, req1: RequestFields, qs: seq<Param>)
    requires Acceptable(req, ps) && Stored(req, ps, req1)
    ensures Acceptable(req, ps + qs) <==> Acceptable(req1, qs)
    ensures forall req2 :: Acceptable(req1, qs) && Stored(req1, qs, req2) ==> Stored(req, ps + qs, req2)
  {
    hide Parse, Held, ParameterOf;
    var all := ps + qs;
    assert forall i :: 0 <= i < |ps| ==> NameAt(all, i) == NameAt(ps, i) && all[i].value == ps[i].value;
    assert forall i :: |ps| <= i < |all| ==>
      NameAt(all, i) == NameAt(qs, i - |ps|) && all[i].value == qs[i - |ps|].value;
    AcceptableBoth(req, ps, req1, qs);
    forall req2 | Acceptable(req1, qs) && Stored(req1, qs, req2) ensures Stored(req, all, req2) {
      forall i | 0 <= i < |all| && BuiltIn(NameAt(all, i))
        ensures Held(req2, NameAt(all, i)) == Parse(NameAt(all, i), all[i].value)
      {
        if i < |ps| {
          assert forall k :: 0 <= k < |qs| ==> NameAt(qs, k) == NameAt(all, |ps| + k);
        } else {
          assert NameAt(all, i) == NameAt(qs, i - |ps|);
        }
      }
      forall p | forall i :: 0 <= i < |all| ==> NameAt(all, i) != p
        ensures Held(req2, p) == Held(req, p)
      {
        assert forall i :: 0 <= i < |ps| ==> NameAt(ps, i) == NameAt(all, i);
        assert forall i :: 0 <= i < |qs| ==> NameAt(qs, i) == NameAt(all, |ps| + i);
      }
    }
  }

  lemma AcceptableBoth(req: RequestFields, ps: seq<Param>, req1: RequestFields, qs: seq<Param>)
    requires Acceptable(req, ps) && Stored(req, ps, req1)
    ensures Acceptable(req, ps + qs) <==> Acceptable(req1, qs)
  {
    hide Parse, Held, ParameterOf;
    var all := ps + qs;
    assert forall i :: 0 <= i < |ps| ==> NameAt(all, i) == NameAt(ps, i) && all[i].value == ps[i].value;
    assert forall i :: 0 <= i < |qs| ==>
      NameAt(all, |ps| + i) == NameAt(qs, i) && all[|ps| + i].value == qs[i].value;
    if Acceptable(req, all) {
      forall i | 0 <= i < |qs| && BuiltIn(NameAt(qs, i))
        ensures Held(req1, NameAt(qs, i)).None? && Parse(NameAt(qs, i), qs[i].value).Some?
        ensures forall j :: 0 <= j < i ==> NameAt(qs, j) != NameAt(qs, i)
      {
        var k := |ps| + i;
        assert NameAt(all, k) == NameAt(qs, i);
        assert forall j :: 0 <= j < |ps| ==> NameAt(ps, j) == NameAt(all, j);
      }
    }
    if Acceptable(req1, qs) {
      forall i | 0 <= i < |all| && BuiltIn(NameAt(all, i))
        ensures Held(req, NameAt(all, i)).None? && Parse(NameAt(all, i), all[i].value).Some?
        ensures forall j :: 0 <= j < i ==> NameAt(all, j) != NameAt(all, i)
      {
        if i < |ps| {
          assert NameAt(all, i) == NameAt(ps, i);
        } else {
          AcceptableLater(req, ps, req1, qs, i - |ps|);
          forall j | 0 <= j < i ensures NameAt(all, j) != NameAt(all, i) {
            assert j >= |ps| ==> NameAt(all, j) == NameAt(qs, j - |ps|);
          }
        }
      }
    }
  }

  // What the second lot finds unheld was neither held before the first nor in it.
  lemma AcceptableLater(req: RequestFields, ps: seq<Param>, req1: RequestFields, qs: seq<Param>, i: nat)
    requires Acceptable(req, ps) && Stored(req, ps, req1) && Acceptable(req1, qs)
    requires i < |qs| && BuiltIn(NameAt(qs, i))
    ensures Held(req, NameAt(qs, i)).None? && Parse(NameAt(qs, i), qs[i].value).Some?
    ensures forall j :: 0 <= j < |ps| ==> NameAt(ps, j) != NameAt(qs, i)
    ensures forall j :: 0 <= j < i ==> NameAt(qs, j) != NameAt(qs, i)
  {
    hide Parse, Held, ParameterOf;
    forall j | 0 <= j < |ps| ensures NameAt(ps, j) != NameAt(qs, i) {
      assert BuiltIn(NameAt(ps, j)) ==> Held(req1, NameAt(ps, j)).Some?;
    }
  }

  // ------------------------------------------------------------ Whole requests

  // Two requests that differ in other things than their parameters.
  ghost predicate SameParams(a: RequestFields, b: RequestFields) {
    forall p :: Held(a, p) == Held(b, p)
  }

  lemma AcceptableSame(a: RequestFields, b: RequestFields, ps: seq<Param>, req': RequestFields)
    requires SameParams(a, b)
    ensures Acceptable(a, ps) == Acceptable(b, ps)
    ensures Stored(a, ps, req') == Stored(b, ps, req')
  {
    hide Held, Parse, ParameterOf;
  }

  lemma ReadPathSameParams(req: RequestFields, p: Path)
    requires ReadPath(req, p).Some?
    ensures SameParams(ReadPath(req, p).value, req)
  {
    hide MatchManagementMethod, MatchApiGroup, MatchDeviceType, MatchDeviceMethod, ToUint32, SameParams;
    var r := ReadPath(req, p).value;
    assert r == req.(apiGroup := r.apiGroup, api := r.api, deviceType := r.deviceType, deviceNumber := r.deviceNumber,
                     deviceMethod := r.deviceMethod);
    PathIsSameParams(req, r);
  }

  lemma PathIsSameParams(req: RequestFields, r: RequestFields)
    requires r == req.(apiGroup := r.apiGroup, api := r.api, deviceType := r.deviceType, deviceNumber := r.deviceNumber,
                       deviceMethod := r.deviceMethod)
    ensures SameParams(r, req)
  {
  }

  lemma MethodIsNoParam(req: RequestFields, m: EHttpMethod)
    ensures SameParams(req.(httpMethod := m), req)
  {
  }

  lemma CloseIsNoParam(req: RequestFields, close: bool)
    ensures SameParams(req.(doClose := close), req)
  {
  }

  lemma SameParamsTransitive(a: RequestFields, b: RequestFields, c: RequestFields)
    requires SameParams(a, b) && SameParams(b, c)
    ensures SameParams(a, c)
  {
    hide Held;
  }

  lemma NoParamsStored(req: RequestFields)
    ensures StoreParams(req, []) == Some(req)
  {
  }

  // What a request leaves stored is what the parameters of its query and body,
  // taken together, say; and they must be acceptable together.
  lemma MeaningStores(req: RequestFields, r: Message)
    requires Meaning(req, r).Some?
    ensures Acceptable(req, r.query + r.body) && Stored(req, r.query + r.body, Meaning(req, r).value)
  {
    hide Held, Acceptable, Stored, StoreParams, ReadPath, ReadLines, ParamsText, MatchHttpMethod;
    var (req3, length) := HeaderMeaning(req, r).value;
    var req0 := req.(httpMethod := MatchHttpMethod(r.verb).value);
    var req1 := ReadPath(req0, r.path).value;
    var req2 := StoreParams(req1, r.query).value;
    var got := Meaning(req, r).value;
    ReadPathSameParams(req0, r.path);
    MethodIsNoParam(req, req0.httpMethod);
    StoreParamsIs(req1, r.query);
    CloseIsNoParam(req2, req3.doClose);
    SameParamsTransitive(req1, req0, req);
    AcceptableSame(req1, req, r.query, req2);
    assert StoreParams(req3, []) == Some(req3) by { NoParamsStored(req3); }
    StoreParamsIs(req3, r.body);
    AcceptableSame(req3, req2, r.body, got);
    StoredBoth(req, r.query, req2, r.body);
  }

  // The parts of a request that are not parameters mean something.
  ghost predicate MeansSomething(req: RequestFields, r: Message) {
    var m := MatchHttpMethod(r.verb);
    && m.Some? && ReadPath(req.(httpMethod := m.value), r.path).Some?
    && var facts := ReadLines(m.value, HeaderFacts(None, req.doClose), r.headers);
    && facts.Some?
    && (if m.value == GET then r.body == [] else m.value == PUT && facts.value.length == Some(|ParamsText(r.body)|))
  }

  lemma AcceptableFirst(req: RequestFields, ps: seq<Param>, qs: seq<Param>)
    requires Acceptable(req, ps + qs)
    ensures Acceptable(req, ps)
  {
    hide Held, Parse, ParameterOf;
    assert forall i :: 0 <= i < |ps| ==> NameAt(ps + qs, i) == NameAt(ps, i) && (ps + qs)[i].value == ps[i].value;
  }

  // A request is acceptable exactly if the rest of it means something and its
  // parameters, taken together, are acceptable.
  lemma MeaningExactly(req: RequestFields, r: Message)
    ensures Meaning(req, r).Some? <==> MeansSomething(req, r) && Acceptable(req, r.query + r.body)
  {
    hide Held, Acceptable, Stored, StoreParams, ReadPath, ReadLines, ParamsText, MatchHttpMethod;
    var m := MatchHttpMethod(r.verb);
    if m.Some? && ReadPath(req.(httpMethod := m.value), r.path).Some? {
      var req0 := req.(httpMethod := m.value);
      var req1 := ReadPath(req0, r.path).value;
      GrammarTheorems.ReadPathKeeps(req0, r.path);
      ReadPathSameParams(req0, r.path);
      MethodIsNoParam(req, m.value);
      SameParamsTransitive(req1, req0, req);
      StoreParamsIs(req1, r.query);
      AcceptableSame(req1, req, r.query, req1);
      if StoreParams(req1, r.query).Some? {
        BodyIsAcceptable(req, r, req1);
      } else if Acceptable(req, r.query + r.body) {
        AcceptableFirst(req, r.query, r.body);
      }
    }
  }

  // Given a query that is acceptable, the body is if both together are.
  lemma BodyIsAcceptable(req: RequestFields, r: Message, req1: RequestFields)
    requires SameParams(req1, req) && StoreParams(req1, r.query).Some?
    ensures var req2 := StoreParams(req1, r.query).value;
      && req2.httpMethod == req1.httpMethod && req2.doClose == req1.doClose
      && (r.body == [] ==> Acceptable(req, r.query + r.body))
      && forall close :: StoreParams(req2.(doClose := close), r.body).Some? <==> Acceptable(req, r.query + r.body)
  {
    hide Held, Acceptable, Stored, StoreParams;
    var req2 := StoreParams(req1, r.query).value;
    GrammarTheorems.StoreParamsKeeps(req1, r.query);
    StoreParamsIs(req1, r.query);
    AcceptableSame(req1, req, r.query, req2);
    StoredBoth(req, r.query, req2, r.body);
    forall close ensures StoreParams(req2.(doClose := close), r.body).Some? <==> Acceptable(req, r.query + r.body) {
      var req3 := req2.(doClose := close);
      CloseIsNoParam(req2, close);
      StoreParamsIs(req3, r.body);
      AcceptableSame(req3, req2, r.body, req3);
    }
    if r.body == [] {
      NoParamsStored(req2.(doClose := req2.doClose));
    }
  }

  // --------------------------------------------------------------------- Names

  function NameOf(p: EParameter): string {
    match p
    case ClientIdParam => "ClientID"
    case ClientTransactionIdParam => "ClientTransactionID"
    case IdParam => "Id"
    case BrightnessParam => "brightness"
    case ValueParam => "Value"
    case AveragePeriodParam => "AveragePeriod"
    case ConnectedParam => "Connected"
    case StateParam => "State"
    case SensorNameParam => "SensorName"
    case _ => ""
  }

  // Where the name of a parameter is in the table of names.
  function IndexOfName(p: EParameter): (i: nat)
    requires BuiltIn(p)
    ensures |ParameterNames()| == 14 && i < 14 && ParameterNames()[i] == (NameOf(p), p)
    ensures forall j :: 0 <= j < 14 && ParameterNames()[j].1 == p ==> j == i
  {
    match p
    case BrightnessParam => 1
    case ClientIdParam => 2
    case ClientTransactionIdParam => 3
    case ConnectedParam => 5
    case IdParam => 6
    case SensorNameParam => 10
    case StateParam => 11
    case ValueParam => 12
    case _ => 13
  }

  lemma DifferentWords(a: string, b: string, k: nat)
    requires |a| != |b| || (k < |a| && Lower(a[k]) != Lower(b[k]))
    ensures !CaseEqual(a, b)
  {
    if |a| == |b| {
      assert ToLower(a)[k] != ToLower(b)[k];
    }
  }

  // No two names are the same word.
  lemma NamesDiffer(j: nat, i: nat)
    requires |ParameterNames()| == 14 && j < i < 14
    ensures !CaseEqual(ParameterNames()[j].0, ParameterNames()[i].0)
  {
    hide CaseEqual;
    DifferentWords(ParameterNames()[j].0, ParameterNames()[i].0, 0);
  }

  // A built-in parameter is recognised exactly by its name, whatever the case of letters.
  lemma ParameterIsNamed(name: string, p: EParameter)
    requires BuiltIn(p)
    ensures ParameterOf(name) == p <==> CaseEqual(NameOf(p), name)
  {
    var table, i := ParameterNames(), IndexOfName(p);
    assert MatchParameter(name) == MatchCaseInsensitively(table, name);
    hide MatchParameter, ParameterNames, NameOf;
    MatchIsCaselessEntry(table, name);
    if CaseEqual(NameOf(p), name) {
      forall j | 0 <= j < i ensures !CaseEqual(table[j].0, name) {
        NamesDiffer(j, i);
      }
      MatchFinds(table, name, i);
    }
  }

  // ---------------------------------------------------------- The main results

  // What a request holds of a parameter is what the only one of that name says.
  ghost predicate SoundFor(req: RequestFields, ps: seq<Param>, p: EParameter) {
    && (Held(req, p).Some? <==> exists i :: 0 <= i < |ps| && CaseEqual(NameOf(p), ps[i].name))
    && (forall i :: 0 <= i < |ps| && CaseEqual(NameOf(p), ps[i].name) ==>
          && Held(req, p) == Parse(p, ps[i].value)
          && forall j :: 0 <= j < |ps| && CaseEqual(NameOf(p), ps[j].name) ==> j == i)
  }

  lemma StoredIsSound(req: RequestFields, ps: seq<Param>, req': RequestFields, p: EParameter)
    requires Acceptable(req, ps) && Stored(req, ps, req') && Held(req, p).None? && BuiltIn(p)
    ensures SoundFor(req', ps, p)
  {
    hide Held, Parse, ParameterOf, NameOf, CaseEqual;
    forall i | 0 <= i < |ps| ensures NameAt(ps, i) == p <==> CaseEqual(NameOf(p), ps[i].name) {
      ParameterIsNamed(ps[i].name, p);
    }
  }

  lemma DecodedIsSound(s: DecoderState, r: Message, o: Outcome)
    requires Understood(s, r) && IsDecoded(s, r, o) && forall p :: Held(s.request, p).None?
    ensures forall p :: BuiltIn(p) ==> SoundFor(o.state.request, r.query + r.body, p)
  {
    hide Meaning, MessageText, MessageOk, Held, Acceptable, Stored, SoundFor;
    MeaningStores(s.request, r);
    forall p | BuiltIn(p) ensures SoundFor(o.state.request, r.query + r.body, p) {
      StoredIsSound(s.request, r.query + r.body, o.state.request, p);
    }
  }

  // Whatever text is decoded into a request that holds no parameters: for each
  // built-in parameter, the request holds a value exactly if its name occurs in
  // the query or the body; then it occurs once, and the value is what that
  // occurrence says.
  lemma ParametersAreSound(s: DecoderState, v: string, full: bool, atEnd: bool) returns (r: Message)
    requires AtBeginning(s) && DecodeBuffer(s, v, full, atEnd).status.HttpOk?
    requires forall p :: Held(s.request, p).None?
    ensures Decodable(s, r, v) && IsDecoded(s, r, DecodeBuffer(s, v, full, atEnd))
    ensures forall p :: BuiltIn(p) ==> SoundFor(DecodeBuffer(s, v, full, atEnd).state.request, r.query + r.body, p)
  {
    hide DecodeBuffer, Held, SoundFor, Meaning, MessageText, MessageOk, AtBeginning;
    DecodedExactly(s, v, full, atEnd);
    r :| Decodable(s, r, v);
    DecodedIsSound(s, r, DecodeBuffer(s, v, full, atEnd));
  }

  // The same of a text that arrives in pieces.
  lemma ParametersAreSoundFed(s: DecoderState, chunks: seq<string>) returns (r: Message)
    requires AtBeginning(s) && Feed(s, "", chunks).status.HttpOk?
    requires forall p :: Held(s.request, p).None?
    ensures DecodableFed(s, r, chunks) && IsDecoded(s, r, Feed(s, "", chunks))
    ensures forall p :: BuiltIn(p) ==> SoundFor(Feed(s, "", chunks).state.request, r.query + r.body, p)
  {
    hide Feed, Held, SoundFor, Meaning, MessageText, MessageOk, AtBeginning, EndsWithPiece;
    DecodedExactlyFed(s, chunks);
    r :| DecodableFed(s, r, chunks);
    DecodedIsSound(s, r, Feed(s, "", chunks));
  }

  // Between requests every parameter is forgotten but AveragePeriod.
  lemma ResetForgets(req: RequestFields, p: EParameter)
    ensures Held(req.AfterReset(), p) == if p == AveragePeriodParam then Held(req, p) else None
  {
  }

  // Parameters are refused after a reset exactly when they would be refused at
  // the start, or AveragePeriod is held and among them.
  lemma AcceptableAfterReset(req: RequestFields, fresh0: RequestFields, ps: seq<Param>)
    requires forall p :: Held(fresh0, p).None?
    ensures Acceptable(req.AfterReset(), ps) <==>
      && Acceptable(fresh0, ps)
      && (Held(req, AveragePeriodParam).Some? ==>
            forall i :: 0 <= i < |ps| ==> !CaseEqual("AveragePeriod", ps[i].name))
  {
    hide Held, Parse, ParameterOf, CaseEqual;
    forall p ensures Held(req.AfterReset(), p) == if p == AveragePeriodParam then Held(req, p) else None {
      ResetForgets(req, p);
    }
    forall i | 0 <= i < |ps| ensures NameAt(ps, i) == AveragePeriodParam <==> CaseEqual("AveragePeriod", ps[i].name) {
      ParameterIsNamed(ps[i].name, AveragePeriodParam);
    }
  }

  // An Id is read as an unsigned number but kept as a signed one: the number
  // kept is the one sent exactly if it is below 2^31.
  lemma IdIsNarrowed(n: uint32)
    ensures Parse(IdParam, Decimal(n)).Some?
    ensures Parse(IdParam, Decimal(n)) == Some(Number(n)) <==> n < 0x8000_0000
  {
    Uint32RoundTrip(n);
  }
}
