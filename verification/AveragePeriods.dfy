// AveragePeriod, once a request has set it, stays set: no later request on the
// same server connection can set it again, whichever client sends it.

module AveragePeriods {
  import opened Ints
  import opened Wrappers
  import opened Text
  import opened Protocol
  import opened AlpacaRequests
  import opened DecoderSpec
  import opened Fragmentation
  import opened RequestGrammar
  import opened DecodedRequests
  import opened ParameterSoundness
  import ConnectionSpec
  import SocketSpec

  // Once it is set in a it is the same in b.
  ghost predicate Sticks(a: RequestFields, b: RequestFields) {
    a.haveAveragePeriod ==> b.haveAveragePeriod && b.averagePeriod == a.averagePeriod
  }

  // ------------------------------------------------------------------ The decoder

  lemma StoreSticks(req: RequestFields, p: EParameter, value: string)
    ensures var r := StoreParameter(req, p, value); r.Some? ==> Sticks(req, r.value)
  {
    hide ToUint32, ToInt32, ToReal, ToBool, MatchSensorName;
  }

  lemma SticksOn(a: RequestFields, b: RequestFields, c: RequestFields)
    requires Sticks(a, b) && Sticks(b, c)
    ensures Sticks(a, c)
  {
  }

  lemma ContinueSticks(s: DecoderState, group: EApiGroup, used: nat)
    ensures Sticks(s.request, ContinueGroup(s, group, used).state.request)
  {
  }

  lemma EndSticks(s: DecoderState, group: EApiGroup, used: nat)
    ensures Sticks(s.request, EndGroup(s, group, used).state.request)
  {
  }

  lemma ApiGroupSticks(req: RequestFields, group: EApiGroup)
    ensures Sticks(req, req.(apiGroup := group)) && Sticks(req, req)
  {
  }

  lemma GroupSticks(s: DecoderState, text: string, next: char, used: nat)
    ensures Sticks(s.request, ProcessApiGroup(s, text, next, used).state.request)
  {
    hide MatchApiGroup, ContinueGroup, EndGroup, Sticks;
    var r := ProcessApiGroup(s, text, next, used);
    var group := MatchApiGroup(text);
    if group.Some? {
      var s1 := s.(request := s.request.(apiGroup := group.value));
      ApiGroupSticks(s.request, group.value);
      ContinueSticks(s1, group.value, used + 1);
      EndSticks(s1, group.value, used);
      SticksOn(s.request, s1.request, r.state.request);
    } else {
      ApiGroupSticks(s.request, s.request.apiGroup);
    }
  }

  lemma DeviceSticks(s: DecoderState, text: string, used: nat)
    ensures Sticks(s.request, ProcessDeviceType(s, text, used).state.request)
    ensures Sticks(s.request, ProcessDeviceNumber(s, text, used).state.request)
    ensures Sticks(s.request, ProcessDeviceMethod(s, text, used).state.request)
  {
    hide MatchDeviceType, MatchDeviceMethod, ToUint32;
  }

  lemma ManagementSticks(s: DecoderState, text: string, next: char, used: nat)
    ensures Sticks(s.request, ProcessManagementType(s, text, next, used).state.request)
    ensures Sticks(s.request, ProcessManagementMethod(s, text, used).state.request)
  {
    hide MatchManagementMethod;
  }

  lemma OtherNameSticks(s: DecoderState, text: string, used: nat)
    ensures Sticks(s.request, ProcessHttpMethod(s, text, used).state.request)
    ensures Sticks(s.request, ProcessApiVersion(s, text, used).state.request)
    ensures Sticks(s.request, ProcessHeaderName(s, text, used).state.request)
    ensures Sticks(s.request, ProcessParamName(s, text, used).state.request)
  {
    hide MatchHttpMethod, MatchHttpHeader, MatchParameter;
  }

  lemma NameSticks(s: DecoderState, text: string, next: char, used: nat)
    ensures Sticks(s.request, ProcessName(s, text, next, used).state.request)
  {
    hide Sticks, ProcessApiGroup, ProcessDeviceType, ProcessDeviceNumber, ProcessDeviceMethod, ProcessManagementType,
         ProcessManagementMethod, ProcessHttpMethod, ProcessApiVersion, ProcessHeaderName, ProcessParamName;
    GroupSticks(s, text, next, used);
    DeviceSticks(s, text, used);
    ManagementSticks(s, text, next, used);
    OtherNameSticks(s, text, used);
  }

  lemma StepNameSticks(s: DecoderState, v: string)
    ensures Sticks(s.request, StepName(s, v).state.request)
  {
    hide ProcessName, Span, Terminators;
    var n := Span(v, NameChars);
    if n < |v| {
      NameSticks(s, v[..n], v[n], n);
      NameSticks(s, v[..n], v[n], n + 1);
    }
  }

  lemma ValueSticks(s: DecoderState, v: string)
    ensures Sticks(s.request, StepDecodeParamValue(s, v).state.request)
  {
    hide StoreParameter, Span, Sticks;
    ApiGroupSticks(s.request, s.request.apiGroup);
    StoreSticks(s.request, s.currentParameter, v[..Span(v, ParamValueChars)]);
  }

  lemma ApplySticks(s: DecoderState, value: string)
    ensures Sticks(s.request, ApplyHeader(s, value).1.request)
  {
    hide ToUint32, CaseEqual;
  }

  lemma HeaderValueSticks(s: DecoderState, v: string)
    ensures Sticks(s.request, StepDecodeHeaderValue(s, v).state.request)
  {
    hide ApplyHeader, Span, TrimTrailing, Sticks;
    var m := Span(v, OptionalWhitespace);
    ApiGroupSticks(s.request, s.request.apiGroup);
    ApplySticks(s, TrimTrailing(v[m..m + Span(v[m..], FieldContent)]));
  }

  lemma LineSticks(s: DecoderState, v: string)
    requires s.decodeFunction.NoFunction? || s.decodeFunction.MatchStartOfPath? || s.decodeFunction.DecodeEndOfPath?
             || s.decodeFunction.MatchHttpVersion? || s.decodeFunction.DecodeHeaderLines?
             || s.decodeFunction.SkipHeaderValue? || s.decodeFunction.DecodeHeaderLineEnd?
             || s.decodeFunction.DecodeParamSeparator?
    ensures Step(s, v).state.request == s.request
  {
    hide StepName, StepDecodeParamValue, StepDecodeHeaderValue, Span, IndexOf;
  }

  lemma StepSticks(s: DecoderState, v: string)
    ensures Sticks(s.request, Step(s, v).state.request)
  {
    hide StepName, StepDecodeParamValue, StepDecodeHeaderValue, StepDecodeParamSeparator, StepDecodeHeaderLines,
         StepSkipHeaderValue, StepDecodeHeaderLineEnd, StepMatchStartOfPath, StepDecodeEndOfPath,
         StepMatchHttpVersion, Sticks;
    match s.decodeFunction
    case DecodeParamValue => ValueSticks(s, v);
    case DecodeHeaderValue => HeaderValueSticks(s, v);
    case NoFunction | MatchStartOfPath | DecodeEndOfPath | MatchHttpVersion | DecodeHeaderLines | SkipHeaderValue
       | DecodeHeaderLineEnd | DecodeParamSeparator =>
      LineSticks(s, v);
      ApiGroupSticks(s.request, s.request.apiGroup);
      assert s.request.(apiGroup := s.request.apiGroup) == s.request;
    case _ => StepNameSticks(s, v);
  }

  lemma {:induction false} LoopSticks(s: DecoderState, v: string)
    ensures Sticks(s.request, Loop(s, v).state.request)
    decreases |v|, Rank(s.decodeFunction)
  {
    hide Step;
    StepProgress(s, v);
    StepSticks(s, v);
    LoopUnfolds(s, v);
    var r := Advance(s, v);
    if r.status.ContinueDecoding? {
      LoopSticks(r.state, v[r.used..]);
    }
  }

  lemma BodySticks(s: DecoderState, v: string, atEnd: bool)
    requires !s.isDecodingHeader
    ensures Sticks(s.request, DecodeMessageBody(s, v, atEnd).state.request)
  {
    hide Loop;
    LoopSticks(if |v| == s.remaining then s.(isFinalInput := true) else s, v);
  }

  lemma MessageSticks(s: DecoderState, v: string, atEnd: bool)
    ensures Sticks(s.request, DecodeMessage(s, v, atEnd).state.request)
  {
    hide Loop, DecodeMessageBody;
    var s1 := Started(s);
    if s1.isDecodingHeader {
      LoopSticks(s1, v);
      var r := Loop(s1, v);
      if r.status.NeedMoreInput? && !r.state.isDecodingHeader {
        BodySticks(r.state, v[r.used..], atEnd);
      }
    } else {
      BodySticks(s1, v, atEnd);
    }
  }

  // Whatever a call of DecodeBuffer finds, accepts or refuses, and so a Reset.
  lemma BufferSticks(s: DecoderState, v: string, full: bool, atEnd: bool)
    ensures Sticks(s.request, DecodeBuffer(s, v, full, atEnd).state.request)
    ensures Sticks(s.request, ResetState(s).request)
  {
    hide DecodeMessage;
    MessageSticks(s, v, atEnd);
  }

  lemma {:induction false} FeedSticks(s: DecoderState, held: string, chunks: seq<string>)
    ensures Sticks(s.request, Feed(s, held, chunks).state.request)
    decreases |chunks|
  {
    hide DecodeBuffer;
    if chunks != [] {
      var view := held + chunks[0];
      BufferSticks(s, view, false, false);
      var r := Decode(s, view);
      if !r.status.IsFinal() {
        FeedSticks(r.state, view[r.used..], chunks[1..]);
      }
    }
  }

  // --------------------------------------------------------- Refused from then on

  ghost predicate NamesAveragePeriod(r: Message) {
    exists i :: 0 <= i < |r.query + r.body| && CaseEqual("AveragePeriod", (r.query + r.body)[i].name)
  }

  // The same request, but for the flag.
  function Cleared(req: RequestFields): RequestFields { req.(haveAveragePeriod := false) }

  lemma ClearedHolds(req: RequestFields, p: EParameter)
    ensures Held(Cleared(req), p) == if p == AveragePeriodParam then None else Held(req, p)
  {
  }

  lemma ClearedAccepts(req: RequestFields, ps: seq<Param>)
    requires req.haveAveragePeriod
    ensures Acceptable(req, ps) <==>
      Acceptable(Cleared(req), ps) && forall i :: 0 <= i < |ps| ==> !CaseEqual("AveragePeriod", ps[i].name)
  {
    assert Held(req, AveragePeriodParam).Some?;
    hide Held, Parse, ParameterOf, CaseEqual, Cleared;
    forall p ensures Held(Cleared(req), p) == if p == AveragePeriodParam then None else Held(req, p) {
      ClearedHolds(req, p);
    }
    forall i | 0 <= i < |ps| ensures NameAt(ps, i) == AveragePeriodParam <==> CaseEqual("AveragePeriod", ps[i].name) {
      ParameterIsNamed(ps[i].name, AveragePeriodParam);
    }
  }

  lemma ClearedPath(req: RequestFields, m: EHttpMethod, p: Path)
    ensures ReadPath(Cleared(req).(httpMethod := m), p).Some? <==> ReadPath(req.(httpMethod := m), p).Some?
  {
    hide MatchManagementMethod, MatchApiGroup, MatchDeviceType, MatchDeviceMethod, ToUint32;
  }

  lemma ClearedCloses(req: RequestFields)
    ensures Cleared(req).doClose == req.doClose
  {
  }

  function Without(s: DecoderState): DecoderState { s.(request := Cleared(s.request)) }

  // A decoder in which it is set understands the requests that one in which it is
  // not set understands, if they do not name it.
  lemma UnderstoodWithout(s: DecoderState, r: Message)
    requires s.request.haveAveragePeriod
    ensures Understood(s, r) <==> Understood(Without(s), r) && !NamesAveragePeriod(r)
  {
    hide Meaning, MessageOk, Acceptable, ReadPath, ReadLines, ParamsText, MatchHttpMethod, CaseEqual, Cleared;
    var req := s.request;
    MeaningExactly(req, r);
    MeaningExactly(Cleared(req), r);
    ClearedAccepts(req, r.query + r.body);
    ClearedCloses(req);
    if MatchHttpMethod(r.verb).Some? {
      ClearedPath(req, MatchHttpMethod(r.verb).value, r.path);
    }
  }

  // Such a decoder sets it exactly if they do.
  lemma SetIfNamed(req: RequestFields, r: Message)
    requires Meaning(Cleared(req), r).Some?
    ensures Meaning(Cleared(req), r).value.haveAveragePeriod <==> NamesAveragePeriod(r)
  {
    hide Meaning, CaseEqual, ParameterOf, Parse;
    var ps, got := r.query + r.body, Meaning(Cleared(req), r).value;
    MeaningStores(Cleared(req), r);
    forall i | 0 <= i < |ps| ensures NameAt(ps, i) == AveragePeriodParam <==> CaseEqual("AveragePeriod", ps[i].name) {
      ParameterIsNamed(ps[i].name, AveragePeriodParam);
    }
    assert Held(got, AveragePeriodParam).Some? <==> got.haveAveragePeriod;
    assert Held(Cleared(req), AveragePeriodParam).None?;
  }

  lemma BothUnderstand(s: DecoderState)
    requires AtBeginning(s) && s.request.haveAveragePeriod
    ensures AtBeginning(Without(s))
    ensures forall r :: Understood(s, r) <==> Understood(Without(s), r) && !NamesAveragePeriod(r)
    ensures forall r :: Understood(Without(s), r) ==>
      (Meaning(Without(s).request, r).value.haveAveragePeriod <==> NamesAveragePeriod(r))
  {
    assert AtBeginning(Without(s));
    hide MessageOk, Meaning, NamesAveragePeriod, Cleared, AtBeginning;
    forall r
      ensures Understood(s, r) <==> Understood(Without(s), r) && !NamesAveragePeriod(r)
      ensures Understood(Without(s), r) ==>
        (Meaning(Without(s).request, r).value.haveAveragePeriod <==> NamesAveragePeriod(r))
    {
      UnderstoodWithout(s, r);
      if Understood(Without(s), r) {
        SetIfNamed(s.request, r);
      }
    }
  }

  // So it accepts exactly what the other accepts and sets no period by, in one
  // view or in pieces.
  lemma AcceptedWithout(s: DecoderState, v: string, full: bool, atEnd: bool)
    requires AtBeginning(s) && s.request.haveAveragePeriod
    ensures var q := DecodeBuffer(Without(s), v, full, atEnd);
      DecodeBuffer(s, v, full, atEnd).status.HttpOk? <==> q.status.HttpOk? && !q.state.request.haveAveragePeriod
    ensures forall r :: Decodable(s, r, v) ==> !NamesAveragePeriod(r)
  {
    hide DecodeBuffer, AtBeginning, MessageText, Understood, Meaning, NamesAveragePeriod, Without;
    BothUnderstand(s);
    DecodedExactly(s, v, full, atEnd);
    DecodedExactly(Without(s), v, full, atEnd);
    forall r ensures Decodable(s, r, v) <==> Decodable(Without(s), r, v) && !NamesAveragePeriod(r) {
    }
    if DecodeBuffer(Without(s), v, full, atEnd).status.HttpOk? {
      var r :| Decodable(Without(s), r, v);
      assert IsDecoded(Without(s), r, DecodeBuffer(Without(s), v, full, atEnd));
    }
  }

  lemma AcceptedWithoutFed(s: DecoderState, chunks: seq<string>)
    requires AtBeginning(s) && s.request.haveAveragePeriod
    ensures var q := Feed(Without(s), "", chunks);
      Feed(s, "", chunks).status.HttpOk? <==> q.status.HttpOk? && !q.state.request.haveAveragePeriod
    ensures forall r :: DecodableFed(s, r, chunks) ==> !NamesAveragePeriod(r)
  {
    hide Feed, AtBeginning, MessageText, Understood, Meaning, NamesAveragePeriod, EndsWithPiece, Without;
    BothUnderstand(s);
    DecodedExactlyFed(s, chunks);
    DecodedExactlyFed(Without(s), chunks);
    forall r ensures DecodableFed(s, r, chunks) <==> DecodableFed(Without(s), r, chunks) && !NamesAveragePeriod(r) {
    }
    if Feed(Without(s), "", chunks).status.HttpOk? {
      var r :| DecodableFed(Without(s), r, chunks);
      assert IsDecoded(Without(s), r, Feed(Without(s), "", chunks));
    }
  }

  // ------------------------------------------------------------ Every connection

  // Whatever an event says of a request.
  ghost predicate EventSticks(a: RequestFields, e: ConnectionSpec.Event) {
    match e
    case StartDecoding(_) => true
    case RequestDecoded(request) => Sticks(a, request)
    case DecodingError(request, _) => Sticks(a, request)
  }

  ghost predicate EventsStick(a: RequestFields, events: seq<ConnectionSpec.Event>) {
    forall i :: 0 <= i < |events| ==> EventSticks(a, events[i])
  }

  lemma BeginSticks(d: DecoderState, id: uint32)
    ensures Sticks(d.request, ConnectionSpec.Begin(d, id).request)
    ensures EventsStick(d.request, ConnectionSpec.BeginEvents(d, id))
  {
  }

  lemma InputSticks(c: ConnectionSpec.ConnectionState, id: uint32, keepOpen: bool)
    ensures var r := ConnectionSpec.DecodeInput(c, id, keepOpen);
      Sticks(c.decoder.request, r.state.decoder.request) && EventsStick(c.decoder.request, r.events)
  {
    hide DecodeBuffer, Sticks, ConnectionSpec.Begin, ConnectionSpec.BeginEvents, ResetState;
    var d := ConnectionSpec.Begin(c.decoder, id);
    var full := |c.buffer| == ConnectionSpec.INPUT_BUFFER_SIZE;
    var r := DecodeBuffer(d, c.buffer, full, false);
    BeginSticks(c.decoder, id);
    BufferSticks(d, c.buffer, full, false);
    BufferSticks(r.state, c.buffer, full, false);
    SticksOn(c.decoder.request, d.request, r.state.request);
    SticksOn(c.decoder.request, r.state.request, ResetState(r.state).request);
  }

  lemma CanReadSticks(c: ConnectionSpec.ConnectionState, got: string, id: uint32, keepOpen: bool)
    ensures var r := ConnectionSpec.CanRead(c, got, id, keepOpen);
      Sticks(c.decoder.request, r.state.decoder.request) && EventsStick(c.decoder.request, r.events)
  {
    hide ConnectionSpec.DecodeInput;
    var c1 := if got != "" then c.(buffer := c.buffer + got, betweenRequests := false) else c;
    InputSticks(c1, id, keepOpen);
  }

  // A call of PerformIO, in any state of the socket and whatever it sees: with
  // its callbacks, of which OnConnect starts a new connection.
  lemma PerformIOSticks(s: SocketSpec.System, e: SocketSpec.Seen)
    ensures var t := SocketSpec.PerformIO(s, e); var a := s.connection.decoder.request;
      Sticks(a, t.system.connection.decoder.request) && EventsStick(a, t.events)
  {
    hide ConnectionSpec.CanRead, Sticks, ResetState, ConnectionSpec.Closes;
    var c, a := s.connection, s.connection.decoder.request;
    CanReadSticks(c, e.got, e.id, e.keepOpen);
    BufferSticks(c.decoder, "", false, false);
    ApiGroupSticks(a, a.apiGroup);
  }

  lemma EventsStickBoth(a: RequestFields, b: RequestFields, x: seq<ConnectionSpec.Event>, y: seq<ConnectionSpec.Event>)
    requires Sticks(a, b) && EventsStick(a, x) && EventsStick(b, y)
    ensures EventsStick(a, x + y)
  {
    forall i | 0 <= i < |x + y| ensures EventSticks(a, (x + y)[i]) {
      if i >= |x| {
        assert EventSticks(b, y[i - |x|]);
      }
    }
  }

  // In every run of the server socket, over all its connections: once the period
  // is set, by a request that was accepted or refused, every request that the
  // listener is told of has that same period.
  lemma {:induction false} PeriodIsSetOnce(s: SocketSpec.System, es: seq<SocketSpec.Seen>)
    ensures var t := SocketSpec.Run(s, es); var a := s.connection.decoder.request;
      Sticks(a, t.system.connection.decoder.request) && EventsStick(a, t.events)
    decreases |es|
  {
    hide SocketSpec.PerformIO, Sticks, EventSticks;
    var a := s.connection.decoder.request;
    if es == [] {
      ApiGroupSticks(a, a.apiGroup);
    } else {
      var t := SocketSpec.PerformIO(s, es[0]);
      PerformIOSticks(s, es[0]);
      PeriodIsSetOnce(t.system, es[1..]);
      var q := SocketSpec.Run(t.system, es[1..]);
      var b := t.system.connection.decoder.request;
      SticksOn(a, b, q.system.connection.decoder.request);
      EventsStickBoth(a, b, t.events, q.events);
    }
  }
}
