// Decoding the parameters of a query or of a body, and taking apart what was decoded.
// A query ends with a space, and a body with the text in view; in both, any number
// of separators may stand between two parameters, and at the end. The lemmas about
// what passes go through parameters from the left; those about what was decoded
// find, in a text that is decoded with success, a first parameter, and then the
// parameters that are left.

module GrammarParameters {
  import opened Wrappers
  import opened Text
  import opened Protocol
  import opened AlpacaRequests
  import opened DecoderSpec
  import opened RequestGrammar
  import opened GrammarSteps

  // A name and its terminator.
  lemma NameThen(s: DecoderState, name: string, w: string)
    requires TakesTerminatedName(s.decodeFunction) && ConsumesTerminator(s.decodeFunction)
    requires AllMatch(name, NameChars)
    ensures var t := Terminators(s.decodeFunction);
      Step(s, name + t + w) == ProcessName(s, name, t[0], |name| + 1)
  {
    hide ProcessName, Span;
    var t := Terminators(s.decodeFunction);
    var v := name + t + w;
    assert v == name + (t + w);
    SpanOf(name, t + w, NameChars);
    assert v[..|name|] == name && v[|name|] == t[0];
  }

  // A name at the start of a view in which a step of this kind succeeds.
  lemma NameIn(s: DecoderState, v: string) returns (name: string, w: string)
    requires TakesTerminatedName(s.decodeFunction) && ConsumesTerminator(s.decodeFunction)
    requires Step(s, v).status.ContinueDecoding?
    ensures AllMatch(name, NameChars) && v == name + Terminators(s.decodeFunction) + w
  {
    hide ProcessName, Span;
    var n := Span(v, NameChars);
    SpanIsLongest(v, NameChars);
    name, w := v[..n], v[n + 1..];
    assert v == v[..n] + [v[n]] + v[n + 1..];
  }

  // A view in which the value of a parameter ends: at a character that cannot
  // be part of it, or at the end of the body.
  ghost predicate EndsValue(s: DecoderState, w: string) {
    if w == "" then !s.isDecodingHeader && s.isFinalInput else !Matches(ParamValueChars, w[0])
  }

  lemma PassParamName(s: DecoderState, name: string, w: string) returns (s': DecoderState)
    requires s.decodeFunction.DecodeParamName? && AllMatch(name, NameChars)
    ensures Moved(s, s', DecodeParamValue, s.request) && s'.currentParameter == ParameterOf(name)
    ensures Passes(s, name + "=" + w, s', |name| + 1)
    ensures Advance(s, name + "=" + w) == Outcome(ContinueDecoding, s', |name| + 1)
  {
    hide Loop, Step;
    assert Step(s, name + "=" + w) == ProcessParamName(s, name, |name| + 1) by {
      NameThen(s, name, w);
    }
    s' := Goes(s, name + "=" + w);
  }

  lemma PassParamValue(s: DecoderState, value: string, w: string, req: RequestFields) returns (s': DecoderState)
    requires s.decodeFunction.DecodeParamValue? && AllMatch(value, ParamValueChars)
    requires EndsValue(s, w)
    requires StoreParameter(s.request, s.currentParameter, value) == Some(req)
    ensures Moved(s, s', DecodeParamSeparator, req)
    ensures Passes(s, value + w, s', |value|)
    ensures Advance(s, value + w) == Outcome(ContinueDecoding, s', |value|)
  {
    hide Loop, StoreParameter;
    SpanOf(value, w, ParamValueChars);
    assert (value + w)[..|value|] == value;
    assert Step(s, value + w) == ProcessParamValue(s, value, |value|) by {
      hide StepName;
      hide Span;
    }
    hide Step;
    s' := Goes(s, value + w);
  }

  lemma PassParam(s: DecoderState, p: Param, w: string, req: RequestFields) returns (s': DecoderState)
    requires s.decodeFunction.DecodeParamName? && ParamOk(p) && EndsValue(s, w)
    requires StoreParameter(s.request, ParameterOf(p.name), p.value) == Some(req)
    ensures Moved(s, s', DecodeParamSeparator, req)
    ensures Passes(s, p.name + "=" + p.value + w, s', |p.name| + 1 + |p.value|)
  {
    hide Loop, StoreParameter;
    var v := p.name + "=" + p.value + w;
    assert v == p.name + "=" + (p.value + w);
    var s1 := PassParamName(s, p.name, p.value + w);
    s' := PassParamValue(s1, p.value, w, req);
    assert v[|p.name| + 1..] == p.value + w;
    PassesTransitive(s, v, s1, |p.name| + 1, s', |p.value|);
  }

  lemma SeparatorsSpan(k: nat, w: string)
    requires w == "" || w[0] != '&'
    ensures Span(Separators(k) + w, ParamSeparators) == k
    ensures AllMatch(Separators(k), ParamSeparators)
  {
    SeparatorsMatch(k);
    SpanOf(Separators(k), w, ParamSeparators);
  }

  lemma {:induction false} SeparatorsMatch(k: nat)
    ensures AllMatch(Separators(k), ParamSeparators)
  {
    if k > 0 {
      SeparatorsMatch(k - 1);
    }
  }

  // Separators, and then another parameter.
  lemma PassSeparators(s: DecoderState, k: nat, w: string) returns (s': DecoderState)
    requires s.decodeFunction.DecodeParamSeparator?
    requires w != "" && w[0] != '&' && w[0] != ' '
    ensures Moved(s, s', DecodeParamName, s.request)
    ensures Passes(s, Separators(k) + w, s', k)
    ensures Advance(s, Separators(k) + w) == Outcome(ContinueDecoding, s', k)
  {
    hide Loop;
    SeparatorsSpan(k, w);
    assert (Separators(k) + w)[k] == w[0];
    assert Step(s, Separators(k) + w) == GoTo(s, DecodeParamName, k) by {
      hide StepName, Span;
    }
    hide Step;
    s' := Goes(s, Separators(k) + w);
  }

  // Separators, and then the end of the query.
  lemma PassLastSeparators(s: DecoderState, k: nat, w: string) returns (s': DecoderState)
    requires s.decodeFunction.DecodeParamSeparator? && s.isDecodingHeader
    ensures Moved(s, s', MatchHttpVersion, s.request)
    ensures Passes(s, Separators(k) + " " + w, s', k + 1)
  {
    hide Loop;
    var v := Separators(k) + " " + w;
    assert v == Separators(k) + (" " + w);
    SeparatorsSpan(k, " " + w);
    assert Step(s, v) == GoTo(s, MatchHttpVersion, k + 1) by {
      hide StepName, Span;
    }
    hide Step;
    s' := Goes(s, v);
  }

  lemma SplitAt(a: string, b: string)
    ensures (a + b)[|a|..] == b
  {
  }

  // The text of the first of some parameters, and the text after its value.
  lemma ParamsParts(ps: seq<Param>, end: string)
    requires ps != []
    ensures var p, next := ps[0], ParamsText(ps[1..]) + end;
      var value := p.name + "=" + p.value;
      && |value| == |p.name| + 1 + |p.value|
      && ParamsText(ps) + end == value + (Separators(p.separators) + next)
      && |ParamsText(ps)| == |value| + p.separators + |ParamsText(ps[1..])|
  {
    var p := ps[0];
    Associative(p.name + "=" + p.value, Separators(p.separators), ParamsText(ps[1..]), end);
  }

  lemma Associative(a: string, b: string, c: string, d: string)
    ensures a + b + c + d == a + (b + (c + d))
  {
  }

  // The parameters of a query.
  lemma {:induction false} PassQuery(s: DecoderState, ps: seq<Param>, w: string, req: RequestFields)
    returns (s': DecoderState)
    requires s.decodeFunction.DecodeParamName? && s.isDecodingHeader
    requires ps != [] && ParamsOk(ps) && StoreParams(s.request, ps) == Some(req)
    ensures Moved(s, s', MatchHttpVersion, req)
    ensures Passes(s, ParamsText(ps) + (" " + w), s', |ParamsText(ps)| + 1)
    decreases |ps|
  {
    hide Loop, StoreParameter, ParamsText, Separators, Passes, Moved;
    var p, more := ps[0], ps[1..];
    var v, next, seps := ParamsText(ps) + (" " + w), ParamsText(more) + (" " + w), Separators(p.separators);
    var value := p.name + "=" + p.value;
    ParamsParts(ps, " " + w);
    QueryGoesOn(p, more, w);
    SplitAt(value, seps + next);
    var req1 := StoreParameter(s.request, ParameterOf(p.name), p.value).value;
    var s1 := PassParam(s, p, seps + next, req1);
    WhereTo(s, s1, DecodeParamSeparator, req1);
    if more == [] {
      EmptyParams(w, seps);
      s' := PassLastSeparators(s1, p.separators, w);
      MovedOn(s, s1, s', DecodeParamSeparator, req1, MatchHttpVersion, req);
      PassesTransitive(s, v, s1, |value|, s', p.separators + 1);
    } else {
      var s2 := PassSeparators(s1, p.separators, next);
      WhereTo(s1, s2, DecodeParamName, req1);
      PassesTransitive(s, v, s1, |value|, s2, p.separators);
      SplitAt(seps, next);
      SplitTwice(v, |value|, p.separators);
      s' := PassQuery(s2, more, w, req);
      MovedOn(s, s1, s2, DecodeParamSeparator, req1, DecodeParamName, req1);
      MovedOn(s, s2, s', DecodeParamName, req1, MatchHttpVersion, req);
      PassesTransitive(s, v, s2, |value| + p.separators, s', |ParamsText(more)| + 1);
    }
  }

  lemma SplitTwice(v: string, m: nat, n: nat)
    requires m + n <= |v|
    ensures v[m..][n..] == v[m + n..]
  {
  }

  lemma EmptyParams(w: string, seps: string)
    ensures ParamsText([]) == "" && seps + (ParamsText([]) + (" " + w)) == seps + " " + w
  {
    assert ParamsText([]) + (" " + w) == " " + w;
  }

  // What follows the value of a parameter in a query does not look like more of it.
  lemma QueryGoesOn(p: Param, more: seq<Param>, w: string)
    requires ParamsOk(more) && (more != [] ==> p.separators > 0)
    ensures var next := ParamsText(more) + (" " + w);
      && next != "" && !Matches(ParamValueChars, (Separators(p.separators) + next)[0])
      && (more != [] ==> next[0] != '&' && next[0] != ' ')
  {
    if more != [] {
      var q := more[0];
      var next := ParamsText(more) + (" " + w);
      assert next[0] == (q.name + "=")[0];
    }
  }

  // The parameters of a body, all of which is in view.
  lemma {:induction false} PassBody(s: DecoderState, ps: seq<Param>, req: RequestFields)
    requires s.decodeFunction.DecodeParamName? && !s.isDecodingHeader && s.isFinalInput
    requires ps != [] && ParamsOk(ps) && StoreParams(s.request, ps) == Some(req)
    ensures var r := Loop(s, ParamsText(ps));
      r.status.HttpOk? && r.used == |ParamsText(ps)| && r.state.request == req
    decreases |ps|
  {
    hide Loop, StoreParameter, ParamsText, Separators;
    var p, more := ps[0], ps[1..];
    var v, next, seps := ParamsText(ps), ParamsText(more), Separators(p.separators);
    var value := p.name + "=" + p.value;
    ParamsParts(ps, "");
    assert v + "" == v && next + "" == next;
    BodyGoesOn(s, p, more);
    SplitAt(value, seps + next);
    var req1 := StoreParameter(s.request, ParameterOf(p.name), p.value).value;
    var s1 := PassParam(s, p, seps + next, req1);
    if more == [] {
      NoParams();
      assert seps + next == seps;
      EndOfBody(s1, p.separators);
    } else {
      var s2 := PassSeparators(s1, p.separators, next);
      PassesTransitive(s, v, s1, |value|, s2, p.separators);
      SplitAt(seps, next);
      SplitTwice(v, |value|, p.separators);
      PassBody(s2, more, req);
    }
  }

  lemma NoParams()
    ensures ParamsText([]) == ""
  {
  }

  lemma BodyGoesOn(s: DecoderState, p: Param, more: seq<Param>)
    requires !s.isDecodingHeader && s.isFinalInput
    requires ParamsOk(more) && (more != [] ==> p.separators > 0)
    ensures var next := ParamsText(more);
      && EndsValue(s, Separators(p.separators) + next)
      && (more != [] ==> next != "" && next[0] != '&' && next[0] != ' ')
  {
    if more != [] {
      assert ParamsText(more)[0] == (more[0].name + "=")[0];
    }
  }

  lemma EndOfBody(s: DecoderState, k: nat)
    requires s.decodeFunction.DecodeParamSeparator? && !s.isDecodingHeader && s.isFinalInput
    ensures var r := Loop(s, Separators(k));
      r.status.HttpOk? && r.used == k && r.state.request == s.request
    ensures Advance(s, Separators(k)).status.HttpOk?
  {
    var v := Separators(k);
    SeparatorsSpan(k, "");
    assert v + "" == v;
    assert Step(s, v) == Outcome(HttpOk, s, k) by {
      hide StepName, Span;
    }
    hide Step;
  }

  // ------------------------------------- Taking apart what the decoder accepts

  // Decoding v is successful: a whole request, or the header of one with a body.
  ghost predicate Succeeds(s: DecoderState, v: string) {
    var r := Loop(s, v);
    r.status.HttpOk? || (s.isDecodingHeader && r.status.NeedMoreInput? && !r.state.isDecodingHeader)
  }

  // The step does not end a successful decoding.
  ghost predicate DoesNotEnd(s: DecoderState, v: string) {
    var r := Step(s, v);
    !r.status.HttpOk? && (r.status.NeedMoreInput? ==> r.state.isDecodingHeader == s.isDecodingHeader)
  }

  lemma NamesDoNotEnd(s: DecoderState, v: string)
    requires TakesTerminatedName(s.decodeFunction) || TakesAnyName(s.decodeFunction)
    ensures DoesNotEnd(s, v)
  {
    hide Span, MatchHttpMethod, MatchApiGroup, MatchDeviceType, MatchDeviceMethod, MatchManagementMethod,
         MatchHttpHeader, MatchParameter, ToUint32, StepDecodeParamValue, StepDecodeHeaderValue;
  }

  lemma ValuesDoNotEnd(s: DecoderState, v: string)
    requires s.decodeFunction.DecodeParamValue? || s.decodeFunction.DecodeHeaderValue?
    ensures DoesNotEnd(s, v)
  {
    hide Span, StepName, StoreParameter, ToUint32, TrimTrailing, CaseEqual;
  }

  lemma LinesDoNotEnd(s: DecoderState, v: string)
    requires !TakesTerminatedName(s.decodeFunction) && !TakesAnyName(s.decodeFunction)
    requires !s.decodeFunction.DecodeParamValue? && !s.decodeFunction.DecodeHeaderValue?
    requires s.isDecodingHeader && !s.decodeFunction.DecodeHeaderLines?
    ensures DoesNotEnd(s, v)
  {
    hide Span, StepName, StepDecodeParamValue, StepDecodeHeaderValue, IndexOf;
  }

  // Only the end of the header, or of the body, ends a successful decoding.
  lemma OnlyEndsSucceed(s: DecoderState, v: string)
    requires s.isDecodingHeader ==> !s.decodeFunction.DecodeHeaderLines?
    requires !s.isDecodingHeader ==> DecodesParameters(s.decodeFunction) && !s.decodeFunction.DecodeParamSeparator?
    ensures DoesNotEnd(s, v)
  {
    hide DoesNotEnd, Step;
    if TakesTerminatedName(s.decodeFunction) || TakesAnyName(s.decodeFunction) {
      NamesDoNotEnd(s, v);
    } else if s.decodeFunction.DecodeParamValue? || s.decodeFunction.DecodeHeaderValue? {
      ValuesDoNotEnd(s, v);
    } else {
      LinesDoNotEnd(s, v);
    }
  }

  // So until then each step of a successful decoding goes on, to another success.
  lemma MustGoOn(s: DecoderState, v: string)
    requires Succeeds(s, v)
    requires s.isDecodingHeader ==> !s.decodeFunction.DecodeHeaderLines?
    requires !s.isDecodingHeader ==> DecodesParameters(s.decodeFunction) && !s.decodeFunction.DecodeParamSeparator?
    ensures Step(s, v).status.ContinueDecoding?
  {
    hide Step;
    OnlyEndsSucceed(s, v);
    LoopUnfolds(s, v);
  }

  lemma StillSucceeds(s: DecoderState, v: string, s': DecoderState, used: nat)
    requires Passes(s, v, s', used) && s.isDecodingHeader == s'.isDecodingHeader
    ensures Succeeds(s, v) <==> Succeeds(s', v[used..])
  {
    hide Loop;
  }

  lemma ValueIn(s: DecoderState, v: string) returns (value: string, w: string, req: RequestFields)
    requires s.decodeFunction.DecodeParamValue? && Step(s, v).status.ContinueDecoding?
    ensures v == value + w && AllMatch(value, ParamValueChars) && EndsValue(s, w)
    ensures StoreParameter(s.request, s.currentParameter, value) == Some(req)
  {
    var n := Span(v, ParamValueChars);
    SpanIsLongest(v, ParamValueChars);
    value, w := v[..n], v[n..];
    req := Step(s, v).state.request;
    hide StoreParameter, Span, StepName;
  }

  // The name and the value of a parameter, at the start of a view.
  lemma ParamIn(s: DecoderState, v: string) returns (p: Param, w: string, req: RequestFields)
    requires s.decodeFunction.DecodeParamName? && Succeeds(s, v)
    ensures v == p.name + "=" + p.value + w && ParamOk(p) && EndsValue(s, w)
    ensures StoreParameter(s.request, ParameterOf(p.name), p.value) == Some(req)
  {
    hide Loop, Step, StoreParameter;
    MustGoOn(s, v);
    var name, rest := NameIn(s, v);
    var s1 := PassParamName(s, name, rest);
    SplitAt(name + "=", rest);
    StillSucceeds(s, v, s1, |name| + 1);
    MustGoOn(s1, rest);
    var value;
    value, w, req := ValueIn(s1, rest);
    p := Param(name, value, 0);
    assert v == name + "=" + value + w;
  }

  lemma {:induction false} AllSeparators(t: string)
    requires AllMatch(t, ParamSeparators)
    ensures t == Separators(|t|)
  {
    if t != "" {
      AllSeparators(t[1..]);
      assert t == [t[0]] + t[1..];
    }
  }

  lemma SeparatorsIn(v: string) returns (k: nat, w: string)
    ensures v == Separators(k) + w && (w == "" || w[0] != '&')
  {
    k := Span(v, ParamSeparators);
    w := v[k..];
    SpanIsLongest(v, ParamSeparators);
    AllSeparators(v[..k]);
  }

  // At the end of a parameter: a space ends the query, and nothing ends the
  // body; otherwise there is another parameter.
  lemma AfterParam(s: DecoderState, k: nat, w: string)
    requires s.decodeFunction.DecodeParamSeparator? && Succeeds(s, Separators(k) + w)
    requires w == "" || w[0] != '&'
    ensures w == "" ==> !s.isDecodingHeader
    ensures w != "" && w[0] == ' ' ==> s.isDecodingHeader
  {
    var v := Separators(k) + w;
    SeparatorsSpan(k, w);
    assert w != "" ==> v[k] == w[0];
    assert w == "" ==> s.isDecodingHeader ==> Step(s, v).status.NeedMoreInput? && Step(s, v).state == s by {
      hide Span, StepName;
    }
    assert w != "" && w[0] == ' ' ==> !s.isDecodingHeader ==> Step(s, v).status.HttpBadRequest? by {
      hide Span, StepName;
    }
    hide Step;
    LoopUnfolds(s, v);
  }

  // The parameters at the start of a view, to the end of the query or of the body.
  lemma {:induction false} ParamsIn(s: DecoderState, v: string)
    returns (ps: seq<Param>, end: string, req: RequestFields)
    requires s.decodeFunction.DecodeParamName? && Succeeds(s, v)
    requires !s.isDecodingHeader ==> s.isFinalInput
    ensures ps != [] && ParamsOk(ps) && StoreParams(s.request, ps) == Some(req)
    ensures v == ParamsText(ps) + end
    ensures if s.isDecodingHeader then end != "" && end[0] == ' ' else end == ""
    decreases |v|
  {
    hide Loop, StoreParameter, ParamsText, Separators, Moved;
    var p, w, req1 := ParamIn(s, v);
    var s1 := PassParam(s, p, w, req1);
    WhereTo(s, s1, DecodeParamSeparator, req1);
    var value := p.name + "=" + p.value;
    SplitAt(value, w);
    StillSucceeds(s, v, s1, |value|);
    var k, rest := SeparatorsIn(w);
    AfterParam(s1, k, rest);
    p := Param(p.name, p.value, k);
    if rest == "" || rest[0] == ' ' {
      ps, end, req := [p], rest, req1;
      ParamsParts(ps, end);
      NoParams();
      assert "" + end == end;
    } else {
      var s2 := PassSeparators(s1, k, rest);
      WhereTo(s1, s2, DecodeParamName, req1);
      SplitAt(Separators(k), rest);
      StillSucceeds(s1, w, s2, k);
      var more;
      more, end, req := ParamsIn(s2, rest);
      ps := [p] + more;
      assert ps[1..] == more;
      ParamsParts(ps, end);
      if k == 0 {
        NeedsSeparator(s2, rest);
      }
    }
  }

  // A parameter name does not start with a character that ends a value.
  lemma NeedsSeparator(s: DecoderState, v: string)
    requires s.decodeFunction.DecodeParamName? && Succeeds(s, v)
    ensures v != "" && Matches(ParamValueChars, v[0]) && Separators(0) == ""
  {
    hide Loop, Step;
    MustGoOn(s, v);
    var name, rest := NameIn(s, v);
    assert v[0] == if name == "" then '=' else name[0];
  }
}
