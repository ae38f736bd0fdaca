// The language of requests that the decoder accepts, and what they mean, as
// trees. Module GrammarTheorems proves that the decoder accepts exactly the
// texts of these trees and computes their meaning.

module RequestGrammar {
  import opened Ints
  import opened Wrappers
  import opened Text
  import opened Protocol
  import opened AlpacaRequests
  import opened DecoderSpec

  // A parameter, and how many '&' follow it: at least one unless it is the last.
  datatype Param = Param(name: string, value: string, separators: nat)

  // A header line; its value is everything between the colon and the end of the line.
  datatype Line = Line(name: string, value: string)

  datatype Path =
    | ServerSetupPath
    | ApiVersionsPath
    | ManagementPath(operation: string)
    | DevicePath(group: string, deviceType: string, deviceNumber: string, operation: string)

  // A request; one whose query is empty has no '?'.
  datatype Message = Message(verb: string, path: Path, query: seq<Param>, headers: seq<Line>, body: seq<Param>)

  // -------------------------------------------------------------------- Texts

  function Separators(n: nat): (t: string)
    ensures |t| == n
  {
    if n == 0 then "" else "&" + Separators(n - 1)
  }

  function ParamText(p: Param): string { p.name + "=" + p.value + Separators(p.separators) }

  function ParamsText(ps: seq<Param>): string {
    if ps == [] then "" else ParamText(ps[0]) + ParamsText(ps[1..])
  }

  function PathText(p: Path): string {
    match p
    case ServerSetupPath => "setup"
    case ApiVersionsPath => "management/apiversions"
    case ManagementPath(m) => "management/v1/" + m
    case DevicePath(g, t, n, m) => g + "/v1/" + t + "/" + n + "/" + m
  }

  function LineText(l: Line): string { l.name + ":" + l.value + "\r\n" }

  function LinesText(ls: seq<Line>): string {
    if ls == [] then "" else LineText(ls[0]) + LinesText(ls[1..])
  }

  function QueryText(query: seq<Param>): string {
    if query == [] then "" else "?" + ParamsText(query)
  }

  function HeaderText(r: Message): string {
    r.verb + " /" + PathText(r.path) + QueryText(r.query) + " HTTP/1.1\r\n" + LinesText(r.headers) + "\r\n"
  }

  function MessageText(r: Message): string { HeaderText(r) + ParamsText(r.body) }

  // ---------------------------------------------------------- Well-formedness

  ghost predicate ParamOk(p: Param) {
    AllMatch(p.name, NameChars) && AllMatch(p.value, ParamValueChars)
  }

  ghost predicate ParamsOk(ps: seq<Param>) {
    ps == [] || (ParamOk(ps[0]) && (|ps| > 1 ==> ps[0].separators > 0) && ParamsOk(ps[1..]))
  }

  ghost predicate LineOk(l: Line) {
    && AllMatch(l.name, NameChars)
    && if MatchHttpHeader(l.name).Some? then AllMatch(l.value, FieldContent) else '\r' !in l.value
  }

  ghost predicate LinesOk(ls: seq<Line>) {
    ls == [] || (LineOk(ls[0]) && LinesOk(ls[1..]))
  }

  ghost predicate PathOk(p: Path) {
    match p
    case DevicePath(g, t, n, m) =>
      AllMatch(g, NameChars) && AllMatch(t, NameChars) && AllMatch(n, NameChars) && AllMatch(m, NameChars)
    case ManagementPath(m) => AllMatch(m, NameChars)
    case _ => true
  }

  ghost predicate MessageOk(r: Message) {
    && AllMatch(r.verb, NameChars) && PathOk(r.path) && ParamsOk(r.query) && LinesOk(r.headers)
    && ParamsOk(r.body)
  }

  // ------------------------------------------------------------------ Meaning

  function ParameterOf(name: string): EParameter {
    match MatchParameter(name) case Some(p) => p case None => UnknownParameter
  }

  // The request after its parameters are stored from left to right.
  function StoreParams(req: RequestFields, ps: seq<Param>): Option<RequestFields>
    decreases |ps|
  {
    if ps == [] then Some(req)
    else
      match StoreParameter(req, ParameterOf(ps[0].name), ps[0].value)
      case None => None
      case Some(req') => StoreParams(req', ps[1..])
  }

  // What a path means to a request of the given method.
  function ReadPath(req: RequestFields, p: Path): Option<RequestFields> {
    match p
    case ServerSetupPath =>
      if !MethodIsRead(req.httpMethod) then None
      else Some(req.(apiGroup := SetupGroup, api := ServerSetup))
    case ApiVersionsPath =>
      if !MethodIsRead(req.httpMethod) then None
      else Some(req.(apiGroup := ManagementGroup, api := ManagementApiVersions))
    case ManagementPath(m) =>
      var operation := MatchManagementMethod(m);
      if !MethodIsRead(req.httpMethod) || operation.None? then None
      else Some(req.(apiGroup := ManagementGroup,
                     api := if operation.value == ManagementDescriptionMethod then ManagementDescription
                            else ManagementConfiguredDevices))
    case DevicePath(g, t, n, m) =>
      var group, deviceType, number := MatchApiGroup(g), MatchDeviceType(t), ToUint32(n);
      if group.None? || group.value == ManagementGroup || deviceType.None? || number.None? then None
      else if !MethodIsRead(req.httpMethod) && group.value != DeviceGroup then None
      else
        var operation := MatchDeviceMethod(group.value, deviceType.value, m);
        if operation.None? then None
        else Some(req.(apiGroup := group.value,
                       api := if group.value == SetupGroup then DeviceSetup else DeviceApi,
                       deviceType := deviceType.value, deviceNumber := number.value,
                       deviceMethod := operation.value))
  }

  // The value of a header without the whitespace around it.
  function Trimmed(value: string): string { TrimTrailing(value[Span(value, OptionalWhitespace)..]) }

  // What the header lines say: the length of the body, and whether to close.
  datatype HeaderFacts = HeaderFacts(length: Option<uint16>, close: bool)

  function ReadLine(httpMethod: EHttpMethod, facts: HeaderFacts, l: Line): Option<HeaderFacts> {
    var value := Trimmed(l.value);
    match MatchHttpHeader(l.name)
    case Some(ContentLengthHeader) =>
      var n := ToUint32(value);
      if facts.length.Some? || n.None? || n.value > MAX_UINT16 || (n.value > 0 && httpMethod != PUT) then None
      else Some(facts.(length := Some(n.value)))
    case Some(ContentTypeHeader) =>
      if httpMethod == PUT && value != MIME_TYPE_WWW_FORM_URL_ENCODED then None else Some(facts)
    case Some(ConnectionHeader) => Some(facts.(close := facts.close || CaseEqual("close", value)))
    case _ => Some(facts)
  }

  function ReadLines(httpMethod: EHttpMethod, facts: HeaderFacts, ls: seq<Line>): Option<HeaderFacts>
    decreases |ls|
  {
    if ls == [] then Some(facts)
    else
      match ReadLine(httpMethod, facts, ls[0])
      case None => None
      case Some(facts') => ReadLines(httpMethod, facts', ls[1..])
  }

  // What the header of a request says: the fields it sets in an AlpacaRequest
  // that starts as req, and the length of the body. None if it is not acceptable.
  function HeaderMeaning(req: RequestFields, r: Message): Option<(RequestFields, Option<uint16>)> {
    match MatchHttpMethod(r.verb)
    case None => None
    case Some(httpMethod) =>
      match ReadPath(req.(httpMethod := httpMethod), r.path)
      case None => None
      case Some(req) =>
        match StoreParams(req, r.query)
        case None => None
        case Some(req) =>
          match ReadLines(httpMethod, HeaderFacts(None, req.doClose), r.headers)
          case None => None
          case Some(facts) => Some((req.(doClose := facts.close), facts.length))
  }

  // The fields that a request leaves in an AlpacaRequest that starts as req, or
  // None when it is not acceptable. Only a PUT has a body, whose length it announces.
  function Meaning(req: RequestFields, r: Message): Option<RequestFields> {
    match HeaderMeaning(req, r)
    case None => None
    case Some((req, length)) =>
      if req.httpMethod == GET then (if r.body == [] then Some(req) else None)
      else if req.httpMethod == PUT && length == Some(|ParamsText(r.body)|) then StoreParams(req, r.body)
      else None
  }
}
