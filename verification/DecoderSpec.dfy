// The request decoder as a function: what each decode function does to the
// decoder's state and to the text in view, and what repeating them does.
// Module RequestDecoders holds the methods that are proved to compute this.

module DecoderSpec {
  import opened Ints
  import opened Wrappers
  import opened Text
  import opened Protocol
  import opened AlpacaRequests

  datatype DecodeFunction =
    | NoFunction
    | DecodeHttpMethod | MatchStartOfPath | DecodeApiGroup | DecodeApiVersion | DecodeDeviceType
    | DecodeDeviceNumber | DecodeDeviceMethod | DecodeManagementType | DecodeManagementMethod
    | DecodeEndOfPath | MatchHttpVersion | DecodeHeaderLines | DecodeHeaderName | DecodeHeaderValue
    | SkipHeaderValue | DecodeHeaderLineEnd | DecodeParamName | DecodeParamValue | DecodeParamSeparator

  datatype DecoderState = DecoderState(
    decodeFunction: DecodeFunction,
    currentParameter: EParameter,
    currentHeader: EHttpHeader,
    remaining: uint16,
    isDecodingHeader: bool,
    isDecodingStartLine: bool,
    isFinalInput: bool,
    foundContentLength: bool,
    decoderStatus: RequestDecoderStatus,
    request: RequestFields)

  // What a call of a decode function returns, the state it leaves behind, and
  // how many characters it consumes from the front of the view.
  datatype Outcome = Outcome(status: EHttpStatusCode, state: DecoderState, used: nat)

  function GoTo(s: DecoderState, next: DecodeFunction, used: nat): Outcome {
    Outcome(ContinueDecoding, s.(decodeFunction := next), used)
  }

  // ------------------------------------------------------------ Request line

  function ProcessHttpMethod(s: DecoderState, text: string, used: nat): Outcome {
    match MatchHttpMethod(text)
    case Some(m) => GoTo(s.(request := s.request.(httpMethod := m)), MatchStartOfPath, used)
    case None => Outcome(HttpMethodNotImplemented, s, used)
  }

  function StepMatchStartOfPath(s: DecoderState, v: string): Outcome {
    if v == "" then Outcome(NeedMoreInput, s, 0)
    else if v[0] == '/' then GoTo(s, DecodeApiGroup, 1)
    else Outcome(HttpBadRequest, s, 0)
  }

  predicate MethodIsRead(m: EHttpMethod) { m == GET || m == HEAD }

  // The path goes on after the name of a group.
  function ContinueGroup(s: DecoderState, group: EApiGroup, used: nat): Outcome {
    if !MethodIsRead(s.request.httpMethod) && group != DeviceGroup then
      Outcome(HttpMethodNotAllowed, s, used)
    else if group == ManagementGroup then
      GoTo(s, DecodeManagementType, used)
    else
      var api := if group == SetupGroup then DeviceSetup else DeviceApi;
      GoTo(s.(request := s.request.(api := api)), DecodeApiVersion, used)
  }

  // The path ends with it.
  function EndGroup(s: DecoderState, group: EApiGroup, used: nat): Outcome {
    if group != SetupGroup then
      Outcome(HttpBadRequest, s, used)
    else
      var s := s.(request := s.request.(api := ServerSetup));
      if !MethodIsRead(s.request.httpMethod) then Outcome(HttpMethodNotAllowed, s, used)
      else GoTo(s, DecodeEndOfPath, used)
  }

  // The character after the name decides whether the path continues.
  function ProcessApiGroup(s: DecoderState, text: string, next: char, used: nat): Outcome {
    match MatchApiGroup(text)
    case None => Outcome(HttpBadRequest, s, used)
    case Some(group) =>
      var s := s.(request := s.request.(apiGroup := group));
      if next == '/' then ContinueGroup(s, group, used + 1) else EndGroup(s, group, used)
  }

  function ProcessApiVersion(s: DecoderState, text: string, used: nat): Outcome {
    if text == "v1" then GoTo(s, DecodeDeviceType, used) else Outcome(HttpBadRequest, s, used)
  }

  function ProcessDeviceType(s: DecoderState, text: string, used: nat): Outcome {
    match MatchDeviceType(text)
    case Some(t) => GoTo(s.(request := s.request.(deviceType := t)), DecodeDeviceNumber, used)
    case None => Outcome(HttpBadRequest, s, used)
  }

  function ProcessDeviceNumber(s: DecoderState, text: string, used: nat): Outcome {
    match ToUint32(text)
    case Some(n) => GoTo(s.(request := s.request.(deviceNumber := n)), DecodeDeviceMethod, used)
    case None => Outcome(HttpBadRequest, s, used)
  }

  function ProcessDeviceMethod(s: DecoderState, text: string, used: nat): Outcome {
    match MatchDeviceMethod(s.request.apiGroup, s.request.deviceType, text)
    case Some(m) => GoTo(s.(request := s.request.(deviceMethod := m)), DecodeEndOfPath, used)
    case None => Outcome(HttpBadRequest, s, used)
  }

  function ProcessManagementType(s: DecoderState, text: string, next: char, used: nat): Outcome {
    if text == "v1" then
      if next == '/' then GoTo(s, DecodeManagementMethod, used + 1) else Outcome(HttpBadRequest, s, used)
    else if text == "apiversions" then
      GoTo(s.(request := s.request.(api := ManagementApiVersions)), DecodeEndOfPath, used)
    else
      Outcome(HttpBadRequest, s, used)
  }

  function ProcessManagementMethod(s: DecoderState, text: string, used: nat): Outcome {
    match MatchManagementMethod(text)
    case None => Outcome(HttpBadRequest, s, used)
    case Some(m) =>
      var api := if m == ManagementDescriptionMethod then ManagementDescription else ManagementConfiguredDevices;
      GoTo(s.(request := s.request.(api := api)), DecodeEndOfPath, used)
  }

  function StepDecodeEndOfPath(s: DecoderState, v: string): Outcome {
    if v != "" && v[0] == '?' then GoTo(s, DecodeParamName, 1)
    else if v != "" && v[0] == ' ' then GoTo(s, MatchHttpVersion, 1)
    else Outcome(HttpBadRequest, s, 0)
  }

  function StepMatchHttpVersion(s: DecoderState, v: string): Outcome {
    if HTTP_VERSION_END_OF_LINE <= v then
      GoTo(s.(isDecodingStartLine := false), DecodeHeaderLines, |HTTP_VERSION_END_OF_LINE|)
    else if |v| < |HTTP_VERSION_END_OF_LINE| then
      Outcome(NeedMoreInput, s, 0)
    else
      Outcome(HttpVersionNotSupported, s, 0)
  }

  // -------------------------------------------------------------- Parameters

  function ProcessParamName(s: DecoderState, text: string, used: nat): Outcome {
    var parameter := match MatchParameter(text) case Some(p) => p case None => UnknownParameter;
    GoTo(s.(currentParameter := parameter), DecodeParamValue, used)
  }

  // The request with the value of a parameter stored, or None for a value that
  // is malformed or repeats a parameter.
  function StoreParameter(req: RequestFields, parameter: EParameter, value: string): Option<RequestFields> {
    match parameter
    case ClientIdParam =>
      var n := ToUint32(value);
      if req.haveClientId || n.None? then None
      else Some(req.(clientId := n.value, haveClientId := true))
    case ClientTransactionIdParam =>
      var n := ToUint32(value);
      if req.haveClientTransactionId || n.None? then None
      else Some(req.(clientTransactionId := n.value, haveClientTransactionId := true))
    case IdParam =>
      // The unsigned number is passed to a setter that takes an int32_t.
      var n := ToUint32(value);
      if req.haveId || n.None? then None
      else Some(req.(id := AsInt32(n.value), haveId := true))
    case BrightnessParam =>
      var n := ToInt32(value);
      if req.haveBrightness || n.None? then None
      else Some(req.(brightness := n.value, haveBrightness := true))
    case ValueParam =>
      var x := ToReal(value);
      if req.haveValue || x.None? then None
      else Some(req.(value := x.value, haveValue := true))
    case AveragePeriodParam =>
      var x := ToReal(value);
      if req.haveAveragePeriod || x.None? then None
      else Some(req.(averagePeriod := x.value, haveAveragePeriod := true))
    case ConnectedParam =>
      var b := ToBool(value);
      if req.haveConnected || b.None? then None
      else Some(req.(connected := b.value, haveConnected := true))
    case StateParam =>
      var b := ToBool(value);
      if req.haveState || b.None? then None
      else Some(req.(state := b.value, haveState := true))
    case SensorNameParam =>
      var sensor := MatchSensorName(value);
      if req.sensorName != UnknownSensor || sensor.None? then None
      else Some(req.(sensorName := sensor.value))
    case _ => Some(req)
  }

  function ToBool(value: string): Option<bool> {
    if CaseEqual(value, "False") then Some(false)
    else if CaseEqual(value, "True") then Some(true)
    else None
  }

  function ProcessParamValue(s: DecoderState, value: string, used: nat): Outcome {
    match StoreParameter(s.request, s.currentParameter, value)
    case Some(req) => GoTo(s.(request := req), DecodeParamSeparator, used)
    case None => Outcome(HttpBadRequest, s, used)
  }

  // A value may be empty, and the end of the body ends the last one.
  function StepDecodeParamValue(s: DecoderState, v: string): Outcome {
    var n := Span(v, ParamValueChars);
    if n == |v| && (s.isDecodingHeader || !s.isFinalInput) then Outcome(NeedMoreInput, s, 0)
    else ProcessParamValue(s, v[..n], n)
  }

  function StepDecodeParamSeparator(s: DecoderState, v: string): Outcome {
    var n := Span(v, ParamSeparators);
    if n == |v| then
      if !s.isDecodingHeader && s.isFinalInput then Outcome(HttpOk, s, n)
      // All but one of the separators are dropped while waiting for more.
      else Outcome(NeedMoreInput, s, if n > 1 then n - 1 else 0)
    else if v[n] == ' ' then
      if s.isDecodingHeader then GoTo(s, MatchHttpVersion, n + 1) else Outcome(HttpBadRequest, s, n)
    else
      GoTo(s, DecodeParamName, n)
  }

  // ------------------------------------------------------------ Header lines

  function StepDecodeHeaderLines(s: DecoderState, v: string): Outcome {
    if END_OF_HEADER_LINE <= v then
      if s.request.httpMethod == GET then Outcome(HttpOk, s, 2)
      else if s.request.httpMethod != PUT then Outcome(HttpInternalServerError, s, 2)
      else if !s.foundContentLength then Outcome(HttpLengthRequired, s, 2)
      else if s.remaining == 0 then Outcome(HttpOk, s, 2)
      else Outcome(NeedMoreInput, s.(isDecodingHeader := false, decodeFunction := DecodeParamName), 2)
    else if v <= END_OF_HEADER_LINE then
      Outcome(NeedMoreInput, s, 0)
    else
      GoTo(s, DecodeHeaderName, 0)
  }

  function ProcessHeaderName(s: DecoderState, text: string, used: nat): Outcome {
    match MatchHttpHeader(text)
    case Some(h) => GoTo(s.(currentHeader := h), DecodeHeaderValue, used)
    case None => GoTo(s.(currentHeader := UnknownHeader), SkipHeaderValue, used)
  }

  // The effect of a header whose value matters: an error, or the new state.
  function ApplyHeader(s: DecoderState, value: string): (EHttpStatusCode, DecoderState) {
    match s.currentHeader
    case ContentLengthHeader =>
      var n := ToUint32(value);
      if s.foundContentLength || n.None? || n.value > MAX_UINT16 then
        (if n.Some? && n.value > 0 then HttpPayloadTooLarge else HttpBadRequest, s)
      else if n.value > 0 && s.request.httpMethod != PUT then
        (HttpBadRequest, s)
      else
        (ContinueDecoding, s.(remaining := n.value, foundContentLength := true))
    case ContentTypeHeader =>
      (if s.request.httpMethod == PUT && value != MIME_TYPE_WWW_FORM_URL_ENCODED
       then HttpUnsupportedMediaType else ContinueDecoding, s)
    case ConnectionHeader =>
      (ContinueDecoding, if CaseEqual("close", value) then s.(request := s.request.(doClose := true)) else s)
    case _ => (ContinueDecoding, s)
  }

  function ProcessHeaderValue(s: DecoderState, raw: string, used: nat): Outcome {
    var (status, s) := ApplyHeader(s, TrimTrailing(raw));
    if status == ContinueDecoding then GoTo(s, DecodeHeaderLineEnd, used) else Outcome(status, s, used)
  }

  function StepDecodeHeaderValue(s: DecoderState, v: string): Outcome {
    var m := Span(v, OptionalWhitespace);
    var n := Span(v[m..], FieldContent);
    if m + n == |v| then Outcome(NeedMoreInput, s, m) else ProcessHeaderValue(s, v[m..m + n], m + n)
  }

  function StepSkipHeaderValue(s: DecoderState, v: string): Outcome {
    var n := IndexOf(v, '\r');
    if n == |v| then Outcome(NeedMoreInput, s, n) else GoTo(s, DecodeHeaderLineEnd, n)
  }

  function StepDecodeHeaderLineEnd(s: DecoderState, v: string): Outcome {
    if END_OF_HEADER_LINE <= v then GoTo(s, DecodeHeaderLines, 2)
    else if v <= END_OF_HEADER_LINE then Outcome(NeedMoreInput, s, 0)
    else Outcome(HttpBadRequest, s, 0)
  }

  // --------------------------------------------------------------- One step

  // Which characters may end the name that a decode function takes, and
  // whether it consumes the one that does.
  function Terminators(f: DecodeFunction): string {
    match f
    case DecodeHttpMethod => " "
    case DecodeDeviceMethod => "? "
    case DecodeHeaderName => ":"
    case DecodeParamName => "="
    case _ => "/"
  }

  predicate ConsumesTerminator(f: DecodeFunction) { f != DecodeDeviceMethod }

  // The decode functions that take a name with a required terminator.
  predicate TakesTerminatedName(f: DecodeFunction) {
    f.DecodeHttpMethod? || f.DecodeApiVersion? || f.DecodeDeviceType? || f.DecodeDeviceNumber?
    || f.DecodeDeviceMethod? || f.DecodeHeaderName? || f.DecodeParamName?
  }

  predicate TakesAnyName(f: DecodeFunction) {
    f.DecodeApiGroup? || f.DecodeManagementType? || f.DecodeManagementMethod?
  }

  // What is done with a name that ends at the character next, when used
  // characters have been consumed.
  function ProcessName(s: DecoderState, text: string, next: char, used: nat): Outcome {
    match s.decodeFunction
    case DecodeHttpMethod => ProcessHttpMethod(s, text, used)
    case DecodeApiGroup => ProcessApiGroup(s, text, next, used)
    case DecodeApiVersion => ProcessApiVersion(s, text, used)
    case DecodeDeviceType => ProcessDeviceType(s, text, used)
    case DecodeDeviceNumber => ProcessDeviceNumber(s, text, used)
    case DecodeDeviceMethod => ProcessDeviceMethod(s, text, used)
    case DecodeManagementType => ProcessManagementType(s, text, next, used)
    case DecodeManagementMethod => ProcessManagementMethod(s, text, used)
    case DecodeHeaderName => ProcessHeaderName(s, text, used)
    case _ => ProcessParamName(s, text, used)
  }

  // ExtractAndProcessName, in both its forms.
  function StepName(s: DecoderState, v: string): Outcome {
    var f, n := s.decodeFunction, Span(v, NameChars);
    if n == |v| then Outcome(NeedMoreInput, s, 0)
    else if TakesAnyName(f) then ProcessName(s, v[..n], v[n], n)
    else if v[n] !in Terminators(f) then Outcome(HttpBadRequest, s, n)
    else ProcessName(s, v[..n], v[n], if ConsumesTerminator(f) then n + 1 else n)
  }

  // One call of the current decode function. (No function is ever called when
  // there is none; DecodeBuffer reports this status before it comes to that.)
  function Step(s: DecoderState, v: string): Outcome {
    match s.decodeFunction
    case NoFunction => Outcome(HttpInternalServerError, s, 0)
    case MatchStartOfPath => StepMatchStartOfPath(s, v)
    case DecodeEndOfPath => StepDecodeEndOfPath(s, v)
    case MatchHttpVersion => StepMatchHttpVersion(s, v)
    case DecodeHeaderLines => StepDecodeHeaderLines(s, v)
    case DecodeHeaderValue => StepDecodeHeaderValue(s, v)
    case SkipHeaderValue => StepSkipHeaderValue(s, v)
    case DecodeHeaderLineEnd => StepDecodeHeaderLineEnd(s, v)
    case DecodeParamValue => StepDecodeParamValue(s, v)
    case DecodeParamSeparator => StepDecodeParamSeparator(s, v)
    case _ => StepName(s, v)
  }

  // ---------------------------------------------- Invariant and termination

  predicate NeedsApiGroup(f: DecodeFunction) {
    f.DecodeApiVersion? || f.DecodeDeviceType? || f.DecodeDeviceNumber? || f.DecodeDeviceMethod?
  }

  predicate DecodesParameters(f: DecodeFunction) {
    f.DecodeParamName? || f.DecodeParamValue? || f.DecodeParamSeparator?
  }

  // The path is that of a device, and the api is the one that its first word says.
  predicate IsDevicePath(req: RequestFields) {
    (req.apiGroup == DeviceGroup && req.api == DeviceApi) || (req.apiGroup == SetupGroup && req.api == DeviceSetup)
  }

  // Holds of the state whenever a decode function is about to be called.
  ghost predicate WellFormed(s: DecoderState) {
    && s.decodeFunction != NoFunction
    && (NeedsApiGroup(s.decodeFunction) ==> IsDevicePath(s.request))
    && (s.isDecodingHeader ==> !s.isFinalInput)
    && (!s.isDecodingHeader ==>
          && DecodesParameters(s.decodeFunction)
          && s.foundContentLength && s.request.httpMethod == PUT)
  }

  // Drops at every step that consumes no input but changes the decode function.
  function Rank(f: DecodeFunction): nat {
    match f
    case DecodeHeaderValue | SkipHeaderValue | DecodeParamValue => 2
    case DecodeHeaderLineEnd | DecodeHeaderLines | DecodeParamSeparator => 1
    case DecodeDeviceMethod | DecodeApiGroup | DecodeManagementType | DecodeManagementMethod => 1
    case _ => 0
  }

  // A step consumes part of the view. One that continues either consumes some
  // of it or drops to a function of lower rank, and never back to itself.
  ghost predicate MakesProgress(s: DecoderState, r: Outcome) {
    && r.state.isFinalInput == s.isFinalInput
    && r.state.decoderStatus == s.decoderStatus
    && (r.status.ContinueDecoding? ==>
          && r.state.decodeFunction != s.decodeFunction
          && r.state.isDecodingHeader == s.isDecodingHeader
          && (r.used > 0 || Rank(r.state.decodeFunction) < Rank(s.decodeFunction)))
  }

  lemma ProcessTerminatedNameProgress(s: DecoderState, text: string, next: char, used: nat)
    requires TakesTerminatedName(s.decodeFunction)
    requires used > 0 || !ConsumesTerminator(s.decodeFunction)
    ensures var r := ProcessName(s, text, next, used); r.used == used && MakesProgress(s, r)
  {
    hide MatchHttpMethod, MatchDeviceType, MatchDeviceMethod, MatchHttpHeader, MatchParameter, ToUint32,
         ProcessApiGroup, ProcessManagementType, ProcessManagementMethod;
  }

  lemma ApiGroupProgress(s: DecoderState, text: string, next: char, used: nat)
    requires s.decodeFunction.DecodeApiGroup?
    ensures var r := ProcessApiGroup(s, text, next, used); r.used <= used + 1 && MakesProgress(s, r)
  {
    hide MatchApiGroup;
  }

  lemma ManagementProgress(s: DecoderState, text: string, next: char, used: nat)
    ensures s.decodeFunction.DecodeManagementType? ==>
      var r := ProcessManagementType(s, text, next, used); r.used <= used + 1 && MakesProgress(s, r)
    ensures s.decodeFunction.DecodeManagementMethod? ==>
      var r := ProcessManagementMethod(s, text, used); r.used <= used + 1 && MakesProgress(s, r)
  {
    hide MatchManagementMethod;
  }

  lemma ProcessAnyNameProgress(s: DecoderState, text: string, next: char, used: nat)
    requires TakesAnyName(s.decodeFunction)
    ensures var r := ProcessName(s, text, next, used); r.used <= used + 1 && MakesProgress(s, r)
  {
    hide ProcessApiGroup, ProcessManagementType, ProcessManagementMethod, ProcessHttpMethod, ProcessApiVersion,
         ProcessDeviceType, ProcessDeviceNumber, ProcessDeviceMethod, ProcessHeaderName, ProcessParamName,
         MakesProgress;
    if s.decodeFunction.DecodeApiGroup? {
      ApiGroupProgress(s, text, next, used);
    } else {
      ManagementProgress(s, text, next, used);
    }
  }

  lemma StepNameProgress(s: DecoderState, v: string)
    requires TakesTerminatedName(s.decodeFunction) || TakesAnyName(s.decodeFunction)
    ensures Step(s, v).used <= |v| && MakesProgress(s, Step(s, v))
  {
    hide ProcessName;
    var f, n := s.decodeFunction, Span(v, NameChars);
    if n == |v| {
    } else if TakesAnyName(f) {
      ProcessAnyNameProgress(s, v[..n], v[n], n);
    } else {
      ProcessTerminatedNameProgress(s, v[..n], v[n], if ConsumesTerminator(f) then n + 1 else n);
    }
  }

  lemma StepLineProgress(s: DecoderState, v: string)
    requires !TakesTerminatedName(s.decodeFunction) && !TakesAnyName(s.decodeFunction)
    requires !s.decodeFunction.DecodeHeaderValue? && !DecodesParameters(s.decodeFunction)
    ensures Step(s, v).used <= |v| && MakesProgress(s, Step(s, v))
  {
    hide StepName, StepDecodeHeaderValue, StepDecodeParamValue, StepDecodeParamSeparator;
  }

  lemma StepHeaderValueProgress(s: DecoderState, v: string)
    requires s.decodeFunction.DecodeHeaderValue?
    ensures Step(s, v).used <= |v| && MakesProgress(s, Step(s, v))
  {
    hide ToUint32, TrimTrailing, CaseEqual;
  }

  lemma StepParamProgress(s: DecoderState, v: string)
    requires s.decodeFunction.DecodeParamValue? || s.decodeFunction.DecodeParamSeparator?
    ensures Step(s, v).used <= |v| && MakesProgress(s, Step(s, v))
  {
    hide StepName, StoreParameter;
  }

  lemma StepProgress(s: DecoderState, v: string)
    ensures Step(s, v).used <= |v| && MakesProgress(s, Step(s, v))
  {
    hide Step, MakesProgress;
    match s.decodeFunction
    case DecodeHeaderValue => StepHeaderValueProgress(s, v);
    case DecodeParamValue => StepParamProgress(s, v);
    case DecodeParamSeparator => StepParamProgress(s, v);
    case NoFunction | MatchStartOfPath | DecodeEndOfPath | MatchHttpVersion | DecodeHeaderLines
       | SkipHeaderValue | DecodeHeaderLineEnd => StepLineProgress(s, v);
    case _ => StepNameProgress(s, v);
  }

  // A decode function may be called: the end of a path is only looked at when
  // the character that ended its last word is still in view.
  ghost predicate Ready(s: DecoderState, v: string) {
    WellFormed(s) && (s.decodeFunction.DecodeEndOfPath? ==> v != "")
  }

  // A request without a body: a GET, or a PUT whose length is announced as zero.
  ghost predicate HeaderIsWhole(s: DecoderState) {
    s.request.httpMethod == GET || (s.request.httpMethod == PUT && s.foundContentLength && s.remaining == 0)
  }

  // What a step preserves: the invariant, and in the body the remaining length
  // and the impossibility of any error but a bad request.
  ghost predicate Keeps(s: DecoderState, v: string, r: Outcome) {
    && r.used <= |v|
    && (r.status.ContinueDecoding? ==> Ready(r.state, v[r.used..]))
    && (r.status.NeedMoreInput? ==>
          && WellFormed(r.state) && !r.state.decodeFunction.DecodeEndOfPath?
          && (s.isDecodingHeader && !r.state.isDecodingHeader ==> r.state.remaining > 0))
    && (s.isDecodingHeader && r.status.HttpOk? ==> r.used == 2 && r.state.isDecodingHeader && HeaderIsWhole(r.state))
    && (!s.isDecodingHeader ==>
          && !r.state.isDecodingHeader && r.state.remaining == s.remaining
          && (r.status.IsFinal() ==> r.status.HttpOk? || r.status.HttpBadRequest?)
          && (r.status.HttpOk? ==> s.isFinalInput && r.used == |v|))
  }

  // Storing a parameter leaves alone what the rest of the decoder decides.
  ghost predicate SamePath(req: RequestFields, req': RequestFields) {
    && req'.httpMethod == req.httpMethod && req'.apiGroup == req.apiGroup && req'.api == req.api
    && req'.deviceType == req.deviceType && req'.deviceNumber == req.deviceNumber
    && req'.deviceMethod == req.deviceMethod && req'.serverTransactionId == req.serverTransactionId
    && req'.haveServerTransactionId == req.haveServerTransactionId && req'.doClose == req.doClose
  }

  lemma StoreParameterKeeps(req: RequestFields, parameter: EParameter, value: string)
    ensures var r := StoreParameter(req, parameter, value); r.Some? ==> SamePath(req, r.value)
  {
    hide StoreParameter;
    match parameter
    case ClientIdParam | ClientTransactionIdParam | IdParam => StoreIdKeeps(req, parameter, value);
    case BrightnessParam => StoreBrightnessKeeps(req, value);
    case ValueParam => StoreValueKeeps(req, value);
    case AveragePeriodParam => StoreAveragePeriodKeeps(req, value);
    case ConnectedParam => StoreConnectedKeeps(req, value);
    case StateParam => StoreStateKeeps(req, value);
    case SensorNameParam => StoreSensorNameKeeps(req, value);
    case _ => StoreNothingKeeps(req, parameter, value);
  }

  lemma StoreNothingKeeps(req: RequestFields, parameter: EParameter, value: string)
    requires parameter.UnknownParameter? || parameter.ActionParam? || parameter.CommandParam? || parameter.NameParam?
             || parameter.ParametersParam? || parameter.RawParam?
    ensures var r := StoreParameter(req, parameter, value); r.Some? ==> SamePath(req, r.value)
  {
    hide ToUint32, ToInt32, ToReal, ToBool, MatchSensorName, AsInt32;
  }

  lemma StoreIdKeeps(req: RequestFields, parameter: EParameter, value: string)
    requires parameter.ClientIdParam? || parameter.ClientTransactionIdParam? || parameter.IdParam?
    ensures var r := StoreParameter(req, parameter, value); r.Some? ==> SamePath(req, r.value)
  {
    hide ToUint32, ToInt32, ToReal, ToBool, MatchSensorName, AsInt32;
  }

  lemma StoreBrightnessKeeps(req: RequestFields, value: string)
    ensures var r := StoreParameter(req, BrightnessParam, value); r.Some? ==> SamePath(req, r.value)
  {
    hide ToUint32, ToInt32, ToReal, ToBool, MatchSensorName, AsInt32;
  }

  lemma StoreValueKeeps(req: RequestFields, value: string)
    ensures var r := StoreParameter(req, ValueParam, value); r.Some? ==> SamePath(req, r.value)
  {
    hide ToUint32, ToInt32, ToReal, ToBool, MatchSensorName, AsInt32;
  }

  lemma StoreAveragePeriodKeeps(req: RequestFields, value: string)
    ensures var r := StoreParameter(req, AveragePeriodParam, value); r.Some? ==> SamePath(req, r.value)
  {
    hide ToUint32, ToInt32, ToReal, ToBool, MatchSensorName, AsInt32;
  }

  lemma StoreConnectedKeeps(req: RequestFields, value: string)
    ensures var r := StoreParameter(req, ConnectedParam, value); r.Some? ==> SamePath(req, r.value)
  {
    hide ToUint32, ToInt32, ToReal, ToBool, MatchSensorName, AsInt32;
  }

  lemma StoreStateKeeps(req: RequestFields, value: string)
    ensures var r := StoreParameter(req, StateParam, value); r.Some? ==> SamePath(req, r.value)
  {
    hide ToUint32, ToInt32, ToReal, ToBool, MatchSensorName, AsInt32;
  }

  lemma StoreSensorNameKeeps(req: RequestFields, value: string)
    ensures var r := StoreParameter(req, SensorNameParam, value); r.Some? ==> SamePath(req, r.value)
  {
    hide ToUint32, ToInt32, ToReal, ToBool, MatchSensorName, AsInt32;
  }

  lemma MatchedGroupIsKnown(text: string)
    ensures MatchApiGroup(text) != Some(UnknownGroup)
  {
    MatchIsEntry([("api", DeviceGroup), ("management", ManagementGroup), ("setup", SetupGroup)], text);
  }

  lemma StepPathNameKeeps(s: DecoderState, v: string)
    requires Ready(s, v)
    requires NeedsApiGroup(s.decodeFunction)
    ensures Keeps(s, v, Step(s, v))
  {
    StepNameProgress(s, v);
    hide MatchDeviceType, MatchDeviceMethod, ToUint32, ProcessApiGroup, ProcessManagementType,
         ProcessManagementMethod, ProcessHttpMethod, ProcessHeaderName, ProcessParamName, Span;
    var n := Span(v, NameChars);
    assert n < |v| ==> v[n..] != "";
  }

  lemma StepFreeNameKeeps(s: DecoderState, v: string)
    requires Ready(s, v)
    requires s.decodeFunction.DecodeHttpMethod? || s.decodeFunction.DecodeHeaderName?
             || s.decodeFunction.DecodeParamName?
    ensures Keeps(s, v, Step(s, v))
  {
    hide MatchHttpMethod, MatchHttpHeader, MatchParameter, ProcessApiGroup, ProcessManagementType,
         ProcessManagementMethod, ProcessDeviceType, ProcessDeviceMethod, ProcessDeviceNumber, Span,
         StepDecodeHeaderLines, StepDecodeHeaderValue, StepSkipHeaderValue, StepDecodeParamValue,
         StepDecodeParamSeparator, ProcessApiVersion;
    StepNameProgress(s, v);
  }

  lemma StepApiGroupKeeps(s: DecoderState, v: string)
    requires Ready(s, v)
    requires s.decodeFunction.DecodeApiGroup?
    ensures Keeps(s, v, Step(s, v))
  {
    StepNameProgress(s, v);
    hide MatchApiGroup, Span;
    var n := Span(v, NameChars);
    assert n < |v| ==> v[n..] != "";
    MatchedGroupIsKnown(v[..n]);
  }

  lemma StepManagementNameKeeps(s: DecoderState, v: string)
    requires Ready(s, v)
    requires s.decodeFunction.DecodeManagementType? || s.decodeFunction.DecodeManagementMethod?
    ensures Keeps(s, v, Step(s, v))
  {
    StepNameProgress(s, v);
    hide MatchManagementMethod, Span;
    var n := Span(v, NameChars);
    assert n < |v| ==> v[n..] != "";
  }

  lemma StepLineKeeps(s: DecoderState, v: string)
    requires Ready(s, v)
    requires !TakesTerminatedName(s.decodeFunction) && !TakesAnyName(s.decodeFunction)
    requires !s.decodeFunction.DecodeHeaderValue? && !DecodesParameters(s.decodeFunction)
    ensures Keeps(s, v, Step(s, v))
  {
    StepLineProgress(s, v);
    hide StepName, StepDecodeHeaderValue, StepDecodeParamValue, StepDecodeParamSeparator;
  }

  lemma StepHeaderValueKeeps(s: DecoderState, v: string)
    requires Ready(s, v)
    requires s.decodeFunction.DecodeHeaderValue?
    ensures Keeps(s, v, Step(s, v))
  {
    StepHeaderValueProgress(s, v);
    hide ToUint32, TrimTrailing, CaseEqual, Span;
  }

  lemma StepParamKeeps(s: DecoderState, v: string)
    requires Ready(s, v)
    requires s.decodeFunction.DecodeParamValue? || s.decodeFunction.DecodeParamSeparator?
    ensures Keeps(s, v, Step(s, v))
  {
    hide StepName, StoreParameter, Span, StepDecodeHeaderLines, StepDecodeHeaderValue, StepSkipHeaderValue,
         StepDecodeHeaderLineEnd;
    StepParamProgress(s, v);
    StoreParameterKeeps(s.request, s.currentParameter, v[..Span(v, ParamValueChars)]);
  }

  lemma StepKeeps(s: DecoderState, v: string)
    requires Ready(s, v)
    ensures Keeps(s, v, Step(s, v))
  {
    hide Step, Keeps;
    match s.decodeFunction
    case DecodeHeaderValue => StepHeaderValueKeeps(s, v);
    case DecodeParamValue => StepParamKeeps(s, v);
    case DecodeParamSeparator => StepParamKeeps(s, v);
    case NoFunction | MatchStartOfPath | DecodeEndOfPath | MatchHttpVersion | DecodeHeaderLines
       | SkipHeaderValue | DecodeHeaderLineEnd => StepLineKeeps(s, v);
    case DecodeApiGroup => StepApiGroupKeeps(s, v);
    case DecodeManagementType | DecodeManagementMethod => StepManagementNameKeeps(s, v);
    case DecodeHttpMethod | DecodeHeaderName | DecodeParamName => StepFreeNameKeeps(s, v);
    case _ => StepPathNameKeeps(s, v);
  }

  // ------------------------------------------------- Repeating decode functions

  // One iteration of the loops of DecodeMessageHeader and DecodeMessageBody. In
  // the body, what is consumed comes off the remaining content length, in
  // 16-bit arithmetic that could wrap around.
  function Advance(s: DecoderState, v: string): (r: Outcome)
    ensures r.used <= |v|
  {
    hide Step;
    StepProgress(s, v);
    var r := Step(s, v);
    if s.isDecodingHeader then r
    else r.(state := r.state.(remaining := (r.state.remaining - r.used) % 0x1_0000))
  }

  // Both loops: decode functions are called until one of them does not continue.
  function Loop(s: DecoderState, v: string): (r: Outcome)
    ensures r.used <= |v| && !r.status.ContinueDecoding?
    decreases |v|, Rank(s.decodeFunction)
  {
    hide Step;
    StepProgress(s, v);
    var r := Advance(s, v);
    if r.status.ContinueDecoding? then
      var q := Loop(r.state, v[r.used..]);
      Outcome(q.status, q.state, r.used + q.used)
    else
      r
  }

  lemma LoopUnfolds(s: DecoderState, v: string)
    ensures Loop(s, v) ==
      var r := Advance(s, v);
      if r.status.ContinueDecoding? then
        var q := Loop(r.state, v[r.used..]);
        Outcome(q.status, q.state, r.used + q.used)
      else r
    ensures s.isDecodingHeader ==> Advance(s, v) == Step(s, v)
  {
    hide Step;
  }

  // In the loop of the body a debug build checks that a decode function to which
  // nothing is in view does not continue. The check fails in some iteration.
  ghost predicate CheckFails(s: DecoderState, v: string)
    decreases |v|, Rank(s.decodeFunction)
  {
    hide Step;
    StepProgress(s, v);
    var r := Advance(s, v);
    r.status.ContinueDecoding? && (v == "" || CheckFails(r.state, v[r.used..]))
  }

  lemma CheckUnfolds(s: DecoderState, v: string)
    ensures var r := Advance(s, v);
      CheckFails(s, v) <==> r.status.ContinueDecoding? && (v == "" || CheckFails(r.state, v[r.used..]))
  {
    hide Step;
  }

  ghost predicate CheckFailsInBody(s: DecoderState, v: string, atEnd: bool) {
    && |v| <= s.remaining && (|v| == s.remaining || !(atEnd || s.isFinalInput))
    && CheckFails(if |v| == s.remaining then s.(isFinalInput := true) else s, v)
  }

  // The check fails in a call of DecodeBuffer.
  ghost predicate CheckFailsInCall(s: DecoderState, v: string, atEnd: bool) {
    var s := if s.decoderStatus == Reset then s.(decoderStatus := Decoding) else s;
    s.decodeFunction != NoFunction &&
    if !s.isDecodingHeader then CheckFailsInBody(s, v, atEnd)
    else
      var r := Loop(s, v);
      r.status.NeedMoreInput? && !r.state.isDecodingHeader && CheckFailsInBody(r.state, v[r.used..], atEnd)
  }

  function DecodeMessageBody(s: DecoderState, v: string, atEnd: bool): (r: Outcome)
    requires !s.isDecodingHeader
    ensures r.used <= |v| && !r.status.ContinueDecoding?
  {
    if |v| > s.remaining then
      Outcome(HttpPayloadTooLarge, s, 0)
    else if |v| < s.remaining && (atEnd || s.isFinalInput) then
      Outcome(HttpBadRequest, s, 0)
    else
      var complete := |v| == s.remaining;
      var r := Loop(if complete then s.(isFinalInput := true) else s, v);
      if r.status.NeedMoreInput? && (atEnd || complete) then r.(status := HttpBadRequest) else r
  }

  function DecodeMessageHeader(s: DecoderState, v: string, atEnd: bool): (r: Outcome)
    requires s.isDecodingHeader
    ensures r.used <= |v| && !r.status.ContinueDecoding?
  {
    var r := Loop(s, v);
    if r.status.NeedMoreInput? && !r.state.isDecodingHeader then
      var q := DecodeMessageBody(r.state, v[r.used..], atEnd);
      Outcome(q.status, q.state, r.used + q.used)
    else
      r
  }

  // The decoding that DecodeBuffer does before it considers whether the buffer is full.
  function DecodeMessage(s: DecoderState, v: string, atEnd: bool): (r: Outcome)
    ensures r.used <= |v| && !r.status.ContinueDecoding?
  {
    var s := if s.decoderStatus == Reset then s.(decoderStatus := Decoding) else s;
    if s.isDecodingHeader then DecodeMessageHeader(s, v, atEnd) else DecodeMessageBody(s, v, atEnd)
  }

  function DecodeBuffer(s: DecoderState, v: string, bufferIsFull: bool, atEnd: bool): (r: Outcome)
    ensures r.used <= |v| && !r.status.ContinueDecoding?
  {
    if s.decodeFunction == NoFunction then
      Outcome(HttpInternalServerError, s, 0)
    else
      var r := DecodeMessage(s, v, atEnd);
      var status := if bufferIsFull && r.status.NeedMoreInput? && r.used == 0
                    then HttpRequestHeaderFieldsTooLarge else r.status;
      if status.IsFinal() then
        Outcome(status, r.state.(decodeFunction := NoFunction, decoderStatus := Decoded), r.used)
      else
        Outcome(status, r.state, r.used)
  }

  // The state after RequestDecoderState::Reset. Four fields keep their old values.
  function ResetState(s: DecoderState): DecoderState {
    s.(decodeFunction := DecodeHttpMethod, request := s.request.AfterReset(), isDecodingHeader := true,
       isDecodingStartLine := true, isFinalInput := false, foundContentLength := false, decoderStatus := Reset)
  }

  // ------------------------------------------------------------ Body accounting

  // What running a loop preserves. In the body the remaining content length
  // falls by exactly what is consumed, and success means that all is consumed.
  ghost predicate LoopKept(s: DecoderState, v: string, r: Outcome) {
    && r.state.isFinalInput == s.isFinalInput && r.state.decoderStatus == s.decoderStatus
    && (r.status.NeedMoreInput? ==>
          && WellFormed(r.state) && !r.state.decodeFunction.DecodeEndOfPath?
          && (s.isDecodingHeader && !r.state.isDecodingHeader ==> r.state.remaining > 0))
    && (s.isDecodingHeader && r.status.HttpOk? ==> r.used >= 2 && r.state.isDecodingHeader && HeaderIsWhole(r.state))
    && (!s.isDecodingHeader ==>
          && !r.state.isDecodingHeader && r.state.remaining == s.remaining - r.used
          && (r.status.IsFinal() ==> r.status.HttpOk? || r.status.HttpBadRequest?)
          && (r.status.HttpOk? ==> s.isFinalInput && r.used == |v|))
  }

  lemma AdvanceKeeps(s: DecoderState, v: string)
    requires Ready(s, v) && (!s.isDecodingHeader ==> |v| <= s.remaining)
    ensures var r := Advance(s, v);
      && MakesProgress(s, r) && r.used <= |v|
      && (r.status.ContinueDecoding? ==> Ready(r.state, v[r.used..]))
      && (!r.status.ContinueDecoding? ==> LoopKept(s, v, r))
      && (!s.isDecodingHeader ==> r.state.remaining == s.remaining - r.used)
  {
    hide Step;
    StepKeeps(s, v);
    StepProgress(s, v);
  }

  lemma {:induction false} LoopKeeps(s: DecoderState, v: string)
    requires Ready(s, v) && (!s.isDecodingHeader ==> |v| <= s.remaining)
    ensures LoopKept(s, v, Loop(s, v))
    decreases |v|, Rank(s.decodeFunction)
  {
    hide Step, Advance;
    AdvanceKeeps(s, v);
    var r := Advance(s, v);
    if r.status.ContinueDecoding? {
      LoopKeeps(r.state, v[r.used..]);
    }
  }

  // The state between calls of DecodeBuffer, until the request is decoded.
  ghost predicate AtRest(s: DecoderState) {
    && WellFormed(s) && !s.decodeFunction.DecodeEndOfPath?
    && !s.isFinalInput && s.decoderStatus != Decoded
    && (!s.isDecodingHeader ==> s.remaining > 0)
  }

  // What a call of DecodeBuffer promises. Until the request is decoded the
  // decoder can be called again; in the body the content length has fallen by
  // what was consumed; a full buffer either shrinks or ends the request; and
  // the call that sees the last of the body, or the end of the input in it,
  // gives the final status.
  ghost predicate BufferKept(s: DecoderState, v: string, full: bool, atEnd: bool, r: Outcome) {
    && (r.status.NeedMoreInput? ==>
          && AtRest(r.state) && r.state.decoderStatus == Decoding
          && (full ==> r.used > 0)
          && (!r.state.isDecodingHeader ==> !atEnd && |v| - r.used < r.state.remaining)
          && (!s.isDecodingHeader ==> r.state.remaining == s.remaining - r.used))
    && (r.status.IsFinal() ==> r.state.decodeFunction == NoFunction && r.state.decoderStatus == Decoded)
    && (r.status.HttpOk? ==>
          && r.used > 0
          && (r.state.isDecodingHeader ==> HeaderIsWhole(r.state))
          && (!r.state.isDecodingHeader ==> r.used == |v| && r.state.remaining == 0 && r.state.isFinalInput))
    && (r.status.HttpRequestHeaderFieldsTooLarge? <==>
          full && DecodeMessage(s, v, atEnd).status.NeedMoreInput? && r.used == 0)
  }

  lemma BodyKeeps(s: DecoderState, v: string, atEnd: bool)
    requires WellFormed(s) && !s.isDecodingHeader && !s.isFinalInput && s.remaining > 0
    ensures var r := DecodeMessageBody(s, v, atEnd);
      && (r.status.NeedMoreInput? ==>
            && WellFormed(r.state) && !r.state.decodeFunction.DecodeEndOfPath? && !r.state.isFinalInput
            && r.state.decoderStatus == s.decoderStatus && !r.state.isDecodingHeader
            && !atEnd && |v| - r.used < r.state.remaining == s.remaining - r.used)
      && (r.status.IsFinal() ==>
            r.status.HttpOk? || r.status.HttpBadRequest? || r.status.HttpPayloadTooLarge?)
      && (r.status.HttpOk? ==>
            !r.state.isDecodingHeader && r.used == |v| > 0 && r.state.remaining == 0 && r.state.isFinalInput)
  {
    hide Loop;
    if |v| <= s.remaining {
      LoopKeeps(if |v| == s.remaining then s.(isFinalInput := true) else s, v);
    }
  }

  lemma NoStepReportsFieldsTooLarge(s: DecoderState, v: string)
    ensures !Step(s, v).status.HttpRequestHeaderFieldsTooLarge?
  {
    hide Step;
    if TakesTerminatedName(s.decodeFunction) || TakesAnyName(s.decodeFunction) {
      NoNameStepReports(s, v);
    } else if s.decodeFunction.DecodeHeaderValue? {
      NoHeaderValueStepReports(s, v);
    } else {
      NoOtherStepReports(s, v);
    }
  }

  lemma NoNameStepReports(s: DecoderState, v: string)
    requires TakesTerminatedName(s.decodeFunction) || TakesAnyName(s.decodeFunction)
    ensures !Step(s, v).status.HttpRequestHeaderFieldsTooLarge?
  {
    hide Span, ProcessName;
    var n := Span(v, NameChars);
    if n < |v| {
      NoNameReportsFieldsTooLarge(s, v[..n], v[n], n);
      NoNameReportsFieldsTooLarge(s, v[..n], v[n], n + 1);
    }
  }

  lemma NoHeaderValueStepReports(s: DecoderState, v: string)
    requires s.decodeFunction.DecodeHeaderValue?
    ensures !Step(s, v).status.HttpRequestHeaderFieldsTooLarge?
  {
    hide Span, TrimTrailing, ApplyHeader, StepName;
    var m := Span(v, OptionalWhitespace);
    NoHeaderReportsFieldsTooLarge(s, TrimTrailing(v[m..m + Span(v[m..], FieldContent)]));
  }

  lemma NoOtherStepReports(s: DecoderState, v: string)
    requires !TakesTerminatedName(s.decodeFunction) && !TakesAnyName(s.decodeFunction)
    requires !s.decodeFunction.DecodeHeaderValue?
    ensures !Step(s, v).status.HttpRequestHeaderFieldsTooLarge?
  {
    hide Span, StoreParameter, IndexOf, StepDecodeHeaderValue, StepName;
  }

  lemma NoNameReportsFieldsTooLarge(s: DecoderState, text: string, next: char, used: nat)
    ensures !ProcessName(s, text, next, used).status.HttpRequestHeaderFieldsTooLarge?
  {
    hide MatchHttpMethod, MatchApiGroup, MatchDeviceType, MatchDeviceMethod, MatchManagementMethod,
         MatchHttpHeader, MatchParameter, ToUint32;
  }

  lemma NoHeaderReportsFieldsTooLarge(s: DecoderState, value: string)
    ensures !ApplyHeader(s, value).0.HttpRequestHeaderFieldsTooLarge?
  {
    hide ToUint32, CaseEqual;
  }

  lemma {:induction false} NoLoopReportsFieldsTooLarge(s: DecoderState, v: string)
    ensures !Loop(s, v).status.HttpRequestHeaderFieldsTooLarge?
    decreases |v|, Rank(s.decodeFunction)
  {
    hide Step;
    NoStepReportsFieldsTooLarge(s, v);
    StepProgress(s, v);
    var r := Advance(s, v);
    if r.status.ContinueDecoding? {
      NoLoopReportsFieldsTooLarge(r.state, v[r.used..]);
    }
  }

  lemma BufferKeeps(s: DecoderState, v: string, full: bool, atEnd: bool)
    requires AtRest(s)
    ensures BufferKept(s, v, full, atEnd, DecodeBuffer(s, v, full, atEnd))
  {
    hide Loop, DecodeMessageBody;
    var s1 := if s.decoderStatus == Reset then s.(decoderStatus := Decoding) else s;
    if s.isDecodingHeader {
      LoopKeeps(s1, v);
      NoLoopReportsFieldsTooLarge(s1, v);
      var r := Loop(s1, v);
      if r.status.NeedMoreInput? && !r.state.isDecodingHeader {
        BodyKeeps(r.state, v[r.used..], atEnd);
      }
    } else {
      BodyKeeps(s1, v, atEnd);
    }
  }
}
