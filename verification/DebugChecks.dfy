// The one check of a debug build of the decoder that can fail: in the loop over a
// body, that a decode function to which nothing is in view does not continue. Here
// is exactly which requests make it fail.

module DebugChecks {
  import opened Ints
  import opened Wrappers
  import opened Text
  import opened Protocol
  import opened AlpacaRequests
  import opened DecoderSpec
  import opened Fragmentation
  import opened RequestGrammar
  import opened GrammarSteps
  import opened GrammarParameters
  import opened GrammarTheorems
  import opened DecodedRequests
  import opened ParameterSoundness
  import opened HttpRequests
  import opened RequestRoundTrip
  import opened DeviceRequests

  // The last parameter of a body ends it with a name that is not built in, and '='.
  ghost predicate EndsBare(ps: seq<Param>) {
    ps != [] && var p := ps[|ps| - 1]; p.value == "" && p.separators == 0 && !BuiltIn(ParameterOf(p.name))
  }

  // -------------------------------------------------------------- One iteration

  // An empty value is stored, which leaves the request alone, only if nothing is
  // to be done with the parameter.
  lemma EmptyValueIsStored(req: RequestFields, p: EParameter)
    ensures StoreParameter(req, p, "").Some? <==> !BuiltIn(p)
  {
    NothingIsRead();
    hide ToUint32, ToInt32, ToReal, MatchSensorName, ToBool;
  }

  lemma NothingIsRead()
    ensures ToUint32("").None? && ToInt32("").None? && ToReal("").None? && ToBool("").None?
    ensures MatchSensorName("").None?
  {
    hide SensorNames;
    assert ToBool("").None? by {
      hide *;
      NotSameWord("False");
      NotSameWord("True");
      ToBoolIs("");
    }
    assert MatchSensorName("").None? by {
      MatchIsCaselessEntry(SensorNames(), "");
      SensorsAreNamed();
      hide CaseEqual;
      forall i | 0 <= i < |SensorNames()| ensures !CaseEqual(SensorNames()[i].0, "") {
        NotSameWord(SensorNames()[i].0);
      }
    }
  }

  lemma NotSameWord(a: string)
    ensures a != "" ==> !CaseEqual(a, "") && !CaseEqual("", a)
  {
    assert |ToLower(a)| == |a| && |ToLower("")| == 0;
  }

  lemma ToBoolIs(value: string)
    ensures !CaseEqual(value, "False") && !CaseEqual(value, "True") ==> ToBool(value).None?
  {
  }

  lemma SensorsAreNamed()
    ensures forall i :: 0 <= i < |SensorNames()| ==> SensorNames()[i].0 != ""
  {
  }

  // The decode function of a body that continues with nothing in view is the one
  // for a value, at the end of the body, of a parameter that is not built in.
  lemma ContinuesWithNothing(s: DecoderState)
    requires Ready(s, "") && !s.isDecodingHeader
    ensures Step(s, "").status.ContinueDecoding? <==>
      s.decodeFunction.DecodeParamValue? && s.isFinalInput && !BuiltIn(s.currentParameter)
  {
    EmptyValueIsStored(s.request, s.currentParameter);
    hide StoreParameter, ProcessName, BuiltIn;
    assert Span("", NameChars) == 0 && Span("", ParamValueChars) == 0 && Span("", ParamSeparators) == 0;
  }

  // Before the end of the body is in view the check does not fail.
  lemma {:induction false} HoldsBeforeTheEnd(s: DecoderState, v: string)
    requires Ready(s, v) && !s.isDecodingHeader && !s.isFinalInput && |v| <= s.remaining
    ensures !CheckFails(s, v)
    decreases |v|, Rank(s.decodeFunction)
  {
    hide Step, Advance;
    AdvanceKeeps(s, v);
    var r := Advance(s, v);
    if r.status.ContinueDecoding? {
      if v == "" {
        ContinuesWithNothing(s);
        AdvanceIsStep(s, v);
      } else {
        HoldsBeforeTheEnd(r.state, v[r.used..]);
      }
    }
  }

  lemma AdvanceIsStep(s: DecoderState, v: string)
    ensures Advance(s, v).status == Step(s, v).status && Advance(s, v).used == Step(s, v).used
  {
    hide Step;
  }

  // Where it fails the request is accepted.
  lemma {:induction false} FailingIsAccepted(s: DecoderState, v: string)
    requires Ready(s, v) && !s.isDecodingHeader && |v| == s.remaining && CheckFails(s, v)
    ensures Loop(s, v).status.HttpOk? && Loop(s, v).used == |v|
    decreases |v|, Rank(s.decodeFunction)
  {
    hide Step, Advance;
    AdvanceKeeps(s, v);
    LoopUnfolds(s, v);
    var r := Advance(s, v);
    if v == "" {
      ContinuesWithNothing(s);
      AdvanceIsStep(s, v);
      EndsWithNothing(s);
    } else {
      FailingIsAccepted(r.state, v[r.used..]);
    }
  }

  lemma EndsWithNothing(s: DecoderState)
    requires Ready(s, "") && !s.isDecodingHeader && s.isFinalInput && s.decodeFunction.DecodeParamValue?
    requires Step(s, "").status.ContinueDecoding?
    ensures Loop(s, "").status.HttpOk? && Loop(s, "").used == 0
  {
    hide StepName, StoreParameter;
    var a := Advance(s, "");
    assert a.state.decodeFunction.DecodeParamSeparator? && a.used == 0;
    assert Step(a.state, "").status.HttpOk? && Step(a.state, "").used == 0;
    hide Step;
    LoopUnfolds(s, "");
    LoopUnfolds(a.state, "");
  }

  // ------------------------------------------------------- Bodies and requests

  // An iteration that continues, with something in view.
  lemma Continues(s: DecoderState, v: string, s': DecoderState, used: nat)
    requires v != "" && Advance(s, v) == Outcome(ContinueDecoding, s', used)
    ensures used <= |v| && (CheckFails(s, v) <==> CheckFails(s', v[used..]))
  {
    hide Advance;
    CheckUnfolds(s, v);
  }

  // In the loop over all of a body that is acceptable the check fails exactly if
  // the body ends with a bare name.
  lemma {:induction false} BodyChecks(s: DecoderState, ps: seq<Param>)
    requires s.decodeFunction.DecodeParamName? && !s.isDecodingHeader && s.isFinalInput
    requires ps != [] && ParamsOk(ps) && StoreParams(s.request, ps).Some?
    ensures CheckFails(s, ParamsText(ps)) <==> EndsBare(ps)
    decreases |ps|
  {
    hide Loop, Advance, StoreParameter, ParamsText, Separators, CheckFails, Moved, Passes, BuiltIn;
    var p, more := ps[0], ps[1..];
    var v, next, seps := ParamsText(ps), ParamsText(more), Separators(p.separators);
    var rest := seps + next;
    ParamsParts(ps, "");
    assert v + "" == v && next + "" == next;
    BodyGoesOn(s, p, more);
    var req1 := StoreParameter(s.request, ParameterOf(p.name), p.value).value;
    assert v == p.name + "=" + (p.value + rest);
    var s1 := PassParamName(s, p.name, p.value + rest);
    WhereTo(s, s1, DecodeParamValue, s.request);
    Continues(s, v, s1, |p.name| + 1);
    assert v[|p.name| + 1..] == p.value + rest;
    var s2 := PassParamValue(s1, p.value, rest, req1);
    WhereTo(s1, s2, DecodeParamSeparator, req1);
    CheckUnfolds(s1, p.value + rest);
    assert (p.value + rest)[|p.value|..] == rest;
    NoSeparators(p.separators);
    if more == [] {
      NoParams();
      assert rest == seps;
      EndOfBody(s2, p.separators);
      CheckUnfolds(s2, rest);
      if p.value == "" {
        EmptyValueIsStored(s.request, ParameterOf(p.name));
      }
    } else {
      var s3 := PassSeparators(s2, p.separators, next);
      WhereTo(s2, s3, DecodeParamName, req1);
      Continues(s2, rest, s3, p.separators);
      assert rest[p.separators..] == next;
      BodyChecks(s3, more);
      assert more[|more| - 1] == ps[|ps| - 1];
    }
  }

  lemma NoSeparators(k: nat)
    ensures |Separators(k)| == k
  {
  }

  // A call of DecodeBuffer on a request that is understood, with nothing after
  // its body if it has one.
  lemma CallChecks(s: DecoderState, r: Message, w: string, atEnd: bool)
    requires AtBeginning(s) && Understood(s, r) && (r.body == [] || w == "")
    ensures CheckFailsInCall(s, MessageText(r) + w, atEnd) <==> EndsBare(r.body)
  {
    hide Loop, HeaderMeaning, StoreParams, ParamsText, LinesText, StartText, MessageText, MessageOk, BodyAlone,
         CheckFails, EndsBare;
    var v := MessageText(r) + w;
    var (req, length) := HeaderMeaning(s.request, r).value;
    MessageParts(r, w);
    var s1 := HeaderEnds(Started(s), v, r, ParamsText(r.body) + w, req, length);
    EmptyBody(s.request, r);
    Complete(Started(s), r, w);
    var o := Loop(Started(s), v);
    if r.body != [] {
      assert o.status.NeedMoreInput?;
      assert ParamsText(r.body) + w == ParamsText(r.body);
      assert ParamsOk(r.body) by { BodyIsOk(r); }
      BodyChecks(Final(o.state, true), r.body);
    } else {
      assert !EndsBare(r.body) by { NothingIsBare(); }
    }
  }

  lemma BodyIsOk(r: Message)
    requires MessageOk(r)
    ensures ParamsOk(r.body)
  {
  }

  lemma NothingIsBare()
    ensures !EndsBare([])
  {
  }

  // Whatever is in view: the check fails in a call exactly if the view is a
  // request that is understood, and whose body ends with a bare name.
  lemma CheckFailsExactly(s: DecoderState, v: string, atEnd: bool)
    requires AtBeginning(s)
    ensures CheckFailsInCall(s, v, atEnd) <==> exists r :: Understood(s, r) && EndsBare(r.body) && MessageText(r) == v
  {
    hide CheckFailsInCall, DecodeBuffer, Understood, MessageText, EndsBare, AtRest, AtBeginning;
    BeginningIsAtRest(s);
    NothingIsBare();
    forall r | Understood(s, r) && EndsBare(r.body) && MessageText(r) == v ensures CheckFailsInCall(s, v, atEnd) {
      assert MessageText(r) + "" == v;
      CallChecks(s, r, "", atEnd);
    }
    if CheckFailsInCall(s, v, atEnd) {
      FailingCallIsAccepted(s, v, atEnd);
      DecodedExactly(s, v, false, false);
      var r :| Decodable(s, r, v);
      var w := v[|MessageText(r)|..];
      assert v == MessageText(r) + w;
      CallChecks(s, r, w, atEnd);
    }
  }

  lemma FailingCallIsAccepted(s: DecoderState, v: string, atEnd: bool)
    requires AtRest(s) && CheckFailsInCall(s, v, atEnd)
    ensures Decode(s, v).status.HttpOk? && Decode(s, v).used == |v|
  {
    hide Loop, CheckFails;
    var s1 := Started(s);
    if s1.isDecodingHeader {
      LoopKeeps(s1, v);
      var r := Loop(s1, v);
      FailingBodyIsAccepted(r.state, v[r.used..], atEnd);
    } else {
      FailingBodyIsAccepted(s1, v, atEnd);
    }
  }

  lemma FailingBodyIsAccepted(s: DecoderState, v: string, atEnd: bool)
    requires WellFormed(s) && !s.isDecodingHeader && !s.isFinalInput && CheckFailsInBody(s, v, atEnd)
    ensures |v| == s.remaining && CheckFails(Final(s, true), v)
    ensures Loop(Final(s, true), v).status.HttpOk? && Loop(Final(s, true), v).used == |v|
  {
    hide Loop, CheckFails;
    if |v| < s.remaining {
      HoldsBeforeTheEnd(s, v);
    } else {
      FailingIsAccepted(Final(s, true), v);
    }
  }

  // ------------------------------------------------------------ Fed in pieces

  // The check fails in some call of a feeding.
  ghost predicate CheckFailsFed(s: DecoderState, held: string, chunks: seq<string>)
    decreases |chunks|
  {
    chunks != [] &&
    var view := held + chunks[0];
    var r := Decode(s, view);
    CheckFailsInCall(s, view, false)
    || (!r.status.IsFinal() && CheckFailsFed(r.state, view[r.used..], chunks[1..]))
  }

  // More text does not make the loop of the body fail sooner: what it stopped at
  // goes on to fail, or not, as if all the text had been there at first.
  lemma {:induction false} LoopFailsLater(s: DecoderState, v: string, w: string)
    requires Ready(s, v) && !s.isDecodingHeader && !s.isFinalInput && |v| <= s.remaining
    requires Loop(s, v).status.NeedMoreInput?
    ensures var r := Loop(s, v);
      CheckFails(Final(s, true), v + w) <==> CheckFails(Final(r.state, true), v[r.used..] + w)
    decreases |v|, Rank(s.decodeFunction)
  {
    hide Step, Advance, CheckFails;
    AdvanceKeeps(s, v);
    LoopUnfolds(s, v);
    AdvanceExtend(s, v, w, true);
    var a := Advance(s, v);
    if a.status.ContinueDecoding? {
      if v == "" {
        ContinuesWithNothing(s);
        AdvanceIsStep(s, v);
      }
      CheckUnfolds(Final(s, true), v + w);
      assert (v + w)[a.used..] == v[a.used..] + w;
      LoopFailsLater(a.state, v[a.used..], w);
      var q := Loop(a.state, v[a.used..]);
      assert v[a.used..][q.used..] == v[a.used + q.used..];
    } else {
      AdvanceIsStep(s, v);
      StopsShort(s, v);
      var rest := v[a.used..] + w;
      CheckUnfolds(Final(s, true), v + w);
      CheckUnfolds(Final(a.state, true), rest);
      var again := Advance(Final(a.state, true), rest);
      assert rest[again.used..] == (v + w)[a.used + again.used..];
    }
  }

  // A decode function of a body that needs more leaves something in view, if
  // there was anything.
  lemma StopsShort(s: DecoderState, v: string)
    requires Ready(s, v) && !s.isDecodingHeader && Step(s, v).status.NeedMoreInput?
    ensures Step(s, v).used == 0 || Step(s, v).used < |v|
  {
    hide MatchParameter, StoreParameter, Span;
  }

  lemma BodyFailsLater(s: DecoderState, v: string, w: string)
    requires WellFormed(s) && !s.isDecodingHeader && !s.isFinalInput && s.remaining > 0
    requires DecodeMessageBody(s, v, false).status.NeedMoreInput?
    ensures var r := DecodeMessageBody(s, v, false);
      CheckFailsInBody(s, v + w, false) <==> CheckFailsInBody(r.state, v[r.used..] + w, false)
  {
    hide Loop, CheckFails;
    BodyKeeps(s, v, false);
    var r := DecodeMessageBody(s, v, false);
    var rest := v[r.used..] + w;
    if |v + w| == s.remaining {
      LoopFailsLater(s, v, w);
    } else if |v + w| < s.remaining {
      HoldsBeforeTheEnd(s, v + w);
      HoldsBeforeTheEnd(r.state, rest);
    }
  }

  lemma HeaderFailsLater(s: DecoderState, v: string, w: string)
    requires Ready(s, v) && s.isDecodingHeader && s.decoderStatus == Decoding
    requires Loop(s, v).status.NeedMoreInput? && Loop(s, v).state.isDecodingHeader
    ensures var r := Loop(s, v); CheckFailsInCall(s, v + w, false) <==> CheckFailsInCall(r.state, v[r.used..] + w, false)
  {
    hide Loop, CheckFailsInBody;
    LoopKeeps(s, v);
    LoopExtend(s, v, w, false);
    var r := Loop(s, v);
    assert Final(s, false) == s && Final(r.state, false) == r.state;
    var rest := v[r.used..] + w;
    var again := Loop(r.state, rest);
    assert (v + w)[r.used + again.used..] == rest[again.used..];
  }

  // The same for a call.
  lemma CallFailsLater(s: DecoderState, v: string, w: string)
    requires AtRest(s) && Decode(s, v).status.NeedMoreInput?
    ensures var o := Decode(s, v); CheckFailsInCall(s, v + w, false) <==> CheckFailsInCall(o.state, v[o.used..] + w, false)
  {
    hide Loop, CheckFails, CheckFailsInBody, DecodeMessageBody;
    var s1 := Started(s);
    if s1.isDecodingHeader {
      LoopKeeps(s1, v);
      var r := Loop(s1, v);
      if r.state.isDecodingHeader {
        HeaderFailsLater(s1, v, w);
      } else {
        LoopExtend(s1, v, w, false);
        assert Final(s1, false) == s1 && Final(r.state, false) == r.state;
        BodyFailsLater(r.state, v[r.used..], w);
        BodyKeeps(r.state, v[r.used..], false);
        assert (v + w)[r.used..] == v[r.used..] + w;
        var q := DecodeMessageBody(r.state, v[r.used..], false);
        assert v[r.used..][q.used..] == v[r.used + q.used..];
      }
    } else {
      BodyFailsLater(s1, v, w);
      BodyKeeps(s1, v, false);
    }
  }

  // Nor do calls that end the decoding and do not fail.
  lemma FinalCallFails(s: DecoderState, v: string, w: string)
    requires AtRest(s) && Decode(s, v).status.IsFinal() && CheckFailsInCall(s, v + w, false)
    ensures w == ""
  {
    hide Decode, Reference, RunsPastBody, CheckFailsInCall;
    FailingCallIsAccepted(s, v + w, false);
    OnlyRunningPastBodyMatters(s, v + w);
    DecodeIsReference(s, v + w);
    PrefixDoesNotRunPastBody(s, v, w);
    BufferExtend(s, v, w);
  }

  // In a feeding the check fails exactly if it fails in one call on some of the
  // pieces, from the first on.
  lemma {:induction false} FedIsOnePrefix(s: DecoderState, held: string, chunks: seq<string>)
    requires AtRest(s)
    ensures CheckFailsFed(s, held, chunks) <==>
      exists n :: 0 < n <= |chunks| && CheckFailsInCall(s, held + Concat(chunks[..n]), false)
    decreases |chunks|
  {
    hide Decode, CheckFailsInCall, AtRest;
    if chunks != [] {
      var view, more, r := held + chunks[0], chunks[1..], Decode(s, held + chunks[0]);
      forall n | 0 < n <= |chunks| ensures held + Concat(chunks[..n]) == view + Concat(more[..n - 1]) {
        assert chunks[..n][0] == chunks[0] && chunks[..n][1..] == more[..n - 1];
      }
      StillAtRest(s, view);
      if r.status.IsFinal() {
        forall n | 0 < n <= |chunks| && CheckFailsInCall(s, held + Concat(chunks[..n]), false)
          ensures CheckFailsInCall(s, view, false)
        {
          FinalCallFails(s, view, Concat(more[..n - 1]));
          assert view + "" == view;
        }
      } else {
        var rest := view[r.used..];
        FedIsOnePrefix(r.state, rest, more);
        forall n | 0 < n <= |chunks|
          ensures CheckFailsInCall(s, held + Concat(chunks[..n]), false) <==>
                  CheckFailsInCall(r.state, rest + Concat(more[..n - 1]), false)
        {
          CallFailsLater(s, view, Concat(more[..n - 1]));
        }
        if CheckFailsInCall(s, view, false) {
          FailingCallIsAccepted(s, view, false);
        }
        forall n | 0 < n <= |chunks| && CheckFailsInCall(s, held + Concat(chunks[..n]), false) ensures n > 1 {
          if n == 1 {
            OnePiece(chunks);
          }
        }
        forall m | 0 < m <= |more| && CheckFailsInCall(r.state, rest + Concat(more[..m]), false)
          ensures CheckFailsInCall(s, held + Concat(chunks[..m + 1]), false)
        {
          assert more[..(m + 1) - 1] == more[..m];
        }
      }
      OnePiece(chunks);
    }
  }

  lemma OnePiece(chunks: seq<string>)
    requires chunks != []
    ensures Concat(chunks[..1]) == chunks[0]
  {
    assert chunks[..1][1..] == [];
  }

  lemma StillAtRest(s: DecoderState, v: string)
    requires AtRest(s)
    ensures !Decode(s, v).status.ContinueDecoding?
    ensures !Decode(s, v).status.IsFinal() ==> Decode(s, v).status.NeedMoreInput? && AtRest(Decode(s, v).state)
  {
    hide DecodeMessage;
    BufferKeeps(s, v, false, false);
  }

  // However a request is fed to the decoder: the check fails exactly if the pieces
  // begin with a request that is understood, whose body ends with a bare name, and
  // one of the pieces ends where it does.
  lemma CheckFailsFedExactly(s: DecoderState, chunks: seq<string>)
    requires AtBeginning(s)
    ensures CheckFailsFed(s, "", chunks) <==>
      exists r :: Understood(s, r) && EndsBare(r.body) && EndsWithPiece(MessageText(r), chunks)
  {
    hide CheckFailsInCall, CheckFailsFed, Understood, MessageText, EndsBare, AtRest, AtBeginning;
    BeginningIsAtRest(s);
    FedIsOnePrefix(s, "", chunks);
    forall n | 0 <= n <= |chunks| ensures "" + Concat(chunks[..n]) == Concat(chunks[..n]) {
    }
    if CheckFailsFed(s, "", chunks) {
      var n :| 0 < n <= |chunks| && CheckFailsInCall(s, "" + Concat(chunks[..n]), false);
      CheckFailsExactly(s, Concat(chunks[..n]), false);
    }
    forall r | Understood(s, r) && EndsBare(r.body) && EndsWithPiece(MessageText(r), chunks)
      ensures CheckFailsFed(s, "", chunks)
    {
      var n :| 0 <= n <= |chunks| && Concat(chunks[..n]) == MessageText(r);
      MessageIsNotEmpty(r);
      CheckFailsExactly(s, Concat(chunks[..n]), false);
    }
  }

  // ------------------------------------------------------------------ A request

  // For any method of any device: the request that the tests' writer makes of it
  // with an empty parameter of an unknown name.
  function BareRequest(deviceType: string, n: uint32, operation: string): Contents {
    Contents("PUT", "/" + PathText(DevicePathOf(deviceType, n, operation)), "HTTP/1.1", [], [("x", "")])
  }

  lemma ShortIsUnknown()
    ensures ParameterOf("x") == UnknownParameter
  {
    hide ParameterNames;
    MatchIsCaselessEntry(ParameterNames(), "x");
    NamesAreLonger();
    forall i | 0 <= i < |ParameterNames()| ensures !CaseEqual(ParameterNames()[i].0, "x") {
      assert |ToLower(ParameterNames()[i].0)| > 1 && |ToLower("x")| == 1;
    }
  }

  lemma NamesAreLonger()
    ensures forall i :: 0 <= i < |ParameterNames()| ==> |ParameterNames()[i].0| > 1
  {
  }

  lemma BareParams()
    ensures ToParams([("x", "")]) == [Param("x", "", 0)] && Join([("x", "")]) == "x="
    ensures Sendable([("x", "")]) && EndsBare([Param("x", "", 0)])
  {
    ShortIsUnknown();
    hide ParameterOf;
    assert Encode("") == "" && Encode("x") == "x" by {
      assert "x"[..0] == "";
    }
    hide Encode;
  }

  lemma BareIsServable(deviceType: string, n: uint32, operation: string, t: EDeviceType, m: EDeviceMethod,
                       req: RequestFields)
    requires MatchDeviceType(deviceType) == Some(t) && MatchDeviceMethod(DeviceGroup, t, operation) == Some(m)
    ensures var h, p := BareRequest(deviceType, n, operation), DevicePathOf(deviceType, n, operation);
      && Servable(h, p, req)
      && Acceptable(ReadPath(WithMethod(req, h), p).value, ToParams(h.parameters))
      && EndsBare(ToMessage(h, p).body)
  {
    hide MatchDeviceType, MatchDeviceMethod, ToParams, ToLines, Join, Sendable, Encode, PathText, ReadPath, PathOk,
         EndsBare, FinalHeaders, ParameterOf;
    var h, p := BareRequest(deviceType, n, operation), DevicePathOf(deviceType, n, operation);
    ReadDevicePath(WithMethod(req, h), deviceType, n, operation, t, m);
    DevicePathIsOk(deviceType, n, operation, t, m);
    BareParams();
    ShortIsUnknown();
  }

  // The release build accepts it, and the debug build stops at it.
  lemma BareRequestStopsADebugBuild(deviceType: string, n: uint32, operation: string, t: EDeviceType, m: EDeviceMethod,
                                    s: DecoderState, atEnd: bool)
    requires AtBeginning(s)
    requires MatchDeviceType(deviceType) == Some(t) && MatchDeviceMethod(DeviceGroup, t, operation) == Some(m)
    ensures var v := RequestText(BareRequest(deviceType, n, operation));
      Decode(s, v).status.HttpOk? && CheckFailsInCall(s, v, atEnd)
  {
    hide *;
    var h, p := BareRequest(deviceType, n, operation), DevicePathOf(deviceType, n, operation);
    BareIsServable(deviceType, n, operation, t, m, s.request);
    RequestIsUnderstood(h, p, s);
    CheckFailsExactly(s, RequestText(h), atEnd);
    BeginningIsAtRest(s);
    FailingCallIsAccepted(s, RequestText(h), atEnd);
  }
}
