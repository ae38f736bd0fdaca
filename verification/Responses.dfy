// Writing responses, with a first pass that finds the length of the body, and
// reading them.

module Responses {
  import opened Ints
  import opened Wrappers
  import opened Text
  import opened Protocol
  import opened AlpacaRequests
  import opened RequestGrammar
  import opened OrderedMaps
  import opened JsonSpec
  import opened Prints
  import opened JsonEncoders
  import opened JsonDecoders
  import opened ResponseSpec

  // ------------------------------------------------------------------ Writing

  class HttpResponseHeader {
    var statusCode: nat
    var reasonPhrase: string
    var contentType: EContentType
    var contentLength: uint32
    var doClose: bool

    ghost function State(): ResponseHeader
      reads this
    {
      ResponseHeader(statusCode, reasonPhrase, contentType, contentLength, doClose)
    }

    constructor ()
      ensures State() == ResponseHeader(HttpInternalServerError.Code(), "", ApplicationJson, 0, true)
    {
      statusCode, reasonPhrase, contentType := HttpInternalServerError.Code(), "", ApplicationJson;
      contentLength, doClose := 0, true;
    }

    static method WriteEolHeaderName(name: string, out: Print) returns (count: nat)
      requires out.Valid()
      modifies out
      ensures out.Valid() && out.printed == old(out.printed) + (EOL + name + ": ") && count == |name| + 4
    {
      count := out.PrintText(EOL);
      var n := out.PrintText(name);
      count := count + n;
      n := out.PrintChar(':');
      count := count + n;
      n := out.PrintChar(' ');
      count := count + n;
    }

    method PrintStatusLine(out: Print) returns (count: nat)
      requires out.Valid()
      modifies out
      ensures out.Valid() && out.printed == old(out.printed) + StatusLine(State()) && count == |StatusLine(State())|
    {
      hide Decimal;
      count := out.PrintText("HTTP/1.1");
      var n := out.PrintChar(' ');
      count := count + n;
      n := out.PrintText(Decimal(statusCode));
      count := count + n;
      n := out.PrintChar(' ');
      count := count + n;
      if |reasonPhrase| > 0 {
        n := out.PrintText(reasonPhrase);
        count := count + n;
      }
    }

    static method PrintHeader(e: (string, string), out: Print) returns (count: nat)
      requires out.Valid()
      modifies out
      ensures out.Valid() && out.printed == old(out.printed) + (EOL + HeaderLine(e)) && count == |EOL + HeaderLine(e)|
    {
      count := WriteEolHeaderName(e.0, out);
      var n := out.PrintText(e.1);
      count := count + n;
    }

    method PrintHeaders(out: Print) returns (count: nat)
      requires out.Valid()
      modifies out
      ensures out.Valid() && out.printed == old(out.printed) + HeaderLines(HeadersOf(State()))
      ensures count == |HeaderLines(HeadersOf(State()))|
    {
      hide Decimal, HeaderLine, MimeType, HeaderLines, HeadersOf;
      HeadersText(State());
      count := PrintHeader(("Server", "TinyAlpacaServer"), out);
      var n;
      if doClose {
        n := PrintHeader(("Connection", "close"), out);
        count := count + n;
      }
      n := PrintHeader(("Content-Type", MimeType(contentType)), out);
      count := count + n;
      n := PrintHeader(("Content-Length", Decimal(contentLength)), out);
      count := count + n;
    }

    method PrintTo(out: Print) returns (count: nat)
      requires out.Valid()
      modifies out
      ensures out.Valid() && out.printed == old(out.printed) + ResponseHeaderText(State())
      ensures count == |ResponseHeaderText(State())|
    {
      hide StatusLine, HeaderLines, HeadersOf;
      count := PrintStatusLine(out);
      var n := PrintHeaders(out);
      count := count + n;
      n := out.PrintText(EOL);
      count := count + n;
      // The end of the header is marked by a blank line.
      n := out.PrintText(EOL);
      count := count + n;
    }
  }

  lemma HeadersText(h: ResponseHeader)
    ensures HeaderLines(HeadersOf(h)) ==
      (EOL + HeaderLine(("Server", "TinyAlpacaServer")))
      + (if h.doClose then EOL + HeaderLine(("Connection", "close")) else "")
      + (EOL + HeaderLine(("Content-Type", MimeType(h.contentType))))
      + (EOL + HeaderLine(("Content-Length", Decimal(h.contentLength))))
  {
    hide HeaderLine, Decimal, MimeType;
    var es := HeadersOf(h);
    var a, b := EOL + HeaderLine(("Content-Type", MimeType(h.contentType))),
                EOL + HeaderLine(("Content-Length", Decimal(h.contentLength)));
    var last := es[|es| - 2..];
    assert HeaderLines(last) == a + b by {
      assert last[1..][1..] == [];
      assert b + HeaderLines([]) == b;
    }
    if h.doClose {
      assert es[1..][1..] == last;
    } else {
      assert es[1..] == last;
    }
  }

  // The length that the first pass announces for a JSON body and the end of line after it.
  function AnnouncedLength(source: seq<Property>): uint32 {
    (|JsonText(Object(source))| % 0x1_0000_0000 + 2) % 0x1_0000_0000
  }

  function OkHeader(request: RequestFields, source: seq<Property>): ResponseHeader {
    ResponseHeader(HttpOk.Code(), "OK", ApplicationJson, AnnouncedLength(source), request.doClose)
  }

  function OkText(request: RequestFields, source: seq<Property>): string {
    ResponseHeaderText(OkHeader(request, source)) + if request.httpMethod == HEAD then "" else JsonText(Object(source)) + EOL
  }

  // OkResponse of a JSON object followed by an end of line. The response to a
  // HEAD has no body. Returns whether the connection is to be kept open.
  method OkJsonResponse(request: AlpacaRequest, source: seq<Property>, out: Print) returns (keepOpen: bool)
    requires out.Valid()
    modifies out
    ensures out.Valid() && out.printed == old(out.printed) + OkText(request.fields, source)
    ensures keepOpen == !request.fields.doClose
  {
    hide ResponseHeaderText, JsonText;
    var hrh := new HttpResponseHeader();
    hrh.statusCode := HttpOk.Code();
    hrh.reasonPhrase := "OK";
    hrh.contentType := ApplicationJson;
    hrh.contentLength := EncodedSize(source);
    hrh.contentLength := (hrh.contentLength + 2) % 0x1_0000_0000;
    hrh.doClose := request.fields.doClose;
    var n := hrh.PrintTo(out);
    if request.fields.httpMethod != HEAD {
      EncodeObject(source, out);
      n := out.PrintText(EOL);
    }
    return !request.fields.doClose;
  }

  // The two passes agree: the length announced is that of the body, as long as
  // that fits in 32 bits.
  lemma LengthIsAnnounced(source: seq<Property>)
    ensures AnnouncedLength(source) == |JsonText(Object(source)) + EOL| <==> |JsonText(Object(source)) + EOL| < 0x1_0000_0000
  {
    hide JsonText;
  }

  // A response is read as what was written: status, headers, and the JSON value;
  // with whatever follows the response left over.
  lemma OkResponseIsRead(request: RequestFields, source: seq<Property>, more: string)
    requires request.httpMethod != HEAD && |JsonText(Object(source)) + EOL| < 0x1_0000_0000
    ensures ReadResponse(OkText(request, source) + more) ==
      Some(HttpResponse("HTTP/1.1", 200, "OK", HeadersOf(OkHeader(request, source)), more,
                        Some(JsonSpec.Meaning(Object(source)))))
  {
    hide ResponseHeaderText, JsonText, HeadersOf, JsonSpec.Meaning, ReadResponse, AnnouncedLength;
    LengthIsAnnounced(source);
    var h := OkHeader(request, source);
    ResponseIsRead(h, Object(source), EOL, more);
    assert OkText(request, source) + more == ResponseHeaderText(h) + (JsonText(Object(source)) + EOL + more);
  }

  // ------------------------------------------------------------ Alpaca responses

  // A property that is there or not.
  function Maybe(present: bool, name: string, value: Json): seq<Property> {
    if present then [Property(name, value)] else []
  }

  // JsonMethodResponse and its subclasses: the value, if any; then the transaction
  // ids that the request has; then the error, if there is one.
  function MethodProperties(request: RequestFields, value: Option<Json>, errorNumber: uint32,
                            errorMessage: Option<string>): seq<Property> {
    Maybe(value.Some?, "Value", if value.Some? then value.value else Integer(0))
    + Maybe(request.haveClientTransactionId, "ClientTransactionID", Integer(request.clientTransactionId))
    + Maybe(request.haveServerTransactionId, "ServerTransactionID", Integer(request.serverTransactionId))
    + Maybe(errorNumber != 0, "ErrorNumber", Integer(errorNumber))
    + Maybe(errorMessage.Some?, "ErrorMessage", Text(if errorMessage.Some? then errorMessage.value else ""))
  }

  lemma {:induction false} MembersBoth(ps: seq<Property>, qs: seq<Property>, before: map<string, Value>)
    ensures Members(ps + qs, before) == Members(qs, Members(ps, before))
    decreases |ps|
  {
    hide JsonSpec.Meaning, Strip;
    if ps == [] {
      assert ps + qs == qs;
    } else {
      assert (ps + qs)[1..] == ps[1..] + qs;
      MembersBoth(ps[1..], qs, before[Strip(ps[0].name) := JsonSpec.Meaning(ps[0].value)]);
    }
  }

  lemma {:induction false} OneMember(ps: seq<Property>, present: bool, name: string, value: Json)
    requires Strip(name) == name
    ensures var m, q := Members(ps, map[]), Members(ps + Maybe(present, name, value), map[]);
      q == if present then m[name := JsonSpec.Meaning(value)] else m
  {
    hide JsonSpec.Meaning, Strip;
    MembersBoth(ps, Maybe(present, name, value), map[]);
    assert [Property(name, value)][1..] == [];
  }

  // The names of the properties survive.
  lemma PropertyNames()
    ensures Strip("Value") == "Value" && Strip("ClientTransactionID") == "ClientTransactionID"
    ensures Strip("ServerTransactionID") == "ServerTransactionID"
    ensures Strip("ErrorNumber") == "ErrorNumber" && Strip("ErrorMessage") == "ErrorMessage"
  {
    StripKeeps("Value");
    StripKeeps("ClientTransactionID");
    StripKeeps("ServerTransactionID");
    StripKeeps("ErrorNumber");
    StripKeeps("ErrorMessage");
    hide Strip;
  }

  // What the client reads in a response: the value, the transaction ids of the
  // request, and the error.
  lemma MethodResponseIs(request: RequestFields, value: Option<Json>, errorNumber: uint32, errorMessage: Option<string>)
    ensures var m := Members(MethodProperties(request, value, errorNumber, errorMessage), map[]);
      && ("Value" in m <==> value.Some?)
      && (value.Some? ==> m["Value"] == JsonSpec.Meaning(value.value))
      && ("ClientTransactionID" in m <==> request.haveClientTransactionId)
      && (request.haveClientTransactionId ==> m["ClientTransactionID"] == Number(request.clientTransactionId))
      && ("ServerTransactionID" in m <==> request.haveServerTransactionId)
      && (request.haveServerTransactionId ==> m["ServerTransactionID"] == Number(request.serverTransactionId))
      && ("ErrorNumber" in m <==> errorNumber != 0)
      && (errorNumber != 0 ==> m["ErrorNumber"] == Number(errorNumber))
      && ("ErrorMessage" in m <==> errorMessage.Some?)
      && (errorMessage.Some? ==> m["ErrorMessage"] == String(Strip(errorMessage.value)))
  {
    PropertyNames();
    hide Strip, Members, Maybe;
    var v := if value.Some? then value.value else Integer(0);
    var e := Text(if errorMessage.Some? then errorMessage.value else "");
    var a := Maybe(value.Some?, "Value", v);
    var b := a + Maybe(request.haveClientTransactionId, "ClientTransactionID", Integer(request.clientTransactionId));
    var c := b + Maybe(request.haveServerTransactionId, "ServerTransactionID", Integer(request.serverTransactionId));
    var d := c + Maybe(errorNumber != 0, "ErrorNumber", Integer(errorNumber));
    assert [] + a == a && Members([], map[]) == map[] by { NoMembers(); }
    OneMember([], value.Some?, "Value", v);
    OneMember(a, request.haveClientTransactionId, "ClientTransactionID", Integer(request.clientTransactionId));
    OneMember(b, request.haveServerTransactionId, "ServerTransactionID", Integer(request.serverTransactionId));
    OneMember(c, errorNumber != 0, "ErrorNumber", Integer(errorNumber));
    OneMember(d, errorMessage.Some?, "ErrorMessage", e);
  }

  lemma NoMembers()
    ensures Members([], map[]) == map[]
  {
  }

  // ------------------------------------------------------------------ Reading

  // HttpResponse::Make.
  method MakeResponse(response: string) returns (r: Option<HttpResponse>)
    ensures r == ReadResponse(response)
  {
    hide SplitOnce, Trimmed, ToInt32, Parse, ContentLength, HeaderValues, MimeType;
    var (head, body) := SplitOnce(response, "\r\n\r\n");
    if body.None? || head == "" {
      return None;
    }
    var (statusLine, headerText) := SplitOnce(head, EOL);
    var (version, rest) := SplitOnce(statusLine, " ");
    if rest.None? {
      return None;
    }
    var (code, message) := SplitOnce(rest.value, " ");
    var statusCode := ToInt32(code);
    if statusCode.None? {
      return None;
    }
    var headers: Entries := [];
    if headerText.Some? {
      var headerLines := SplitAll(headerText.value, EOL);
      for i := 0 to |headerLines|
        invariant ReadHeaders(headerLines[..i]) == Some(headers)
      {
        assert headerLines[..i + 1][..i] == headerLines[..i];
        var (name, value) := SplitOnce(headerLines[i], ":");
        if value.None? {
          StaysUnread(headerLines, i + 1);
          return None;
        }
        headers := headers + [(name, Trimmed(value.value))];
      }
      assert headerLines[..|headerLines|] == headerLines;
    }
    var hr := HttpResponse(version, statusCode.value, if message.Some? then message.value else "", headers,
                           body.value, None);
    if MimeType(ApplicationJson) !in HeaderValues(headers, "Content-Type") {
      return Some(hr);
    }
    // If the body cannot be decoded, the response as a whole cannot.
    var contentLength := ContentLength(headers);
    if contentLength.None? || contentLength.value > |hr.bodyAndBeyond| {
      return None;
    }
    var jsonValue := Decode(hr.bodyAndBeyond[..contentLength.value]);
    if jsonValue.None? {
      return None;
    }
    return Some(hr.(bodyAndBeyond := hr.bodyAndBeyond[contentLength.value..], jsonValue := jsonValue));
  }

  // A line that cannot be read makes all the lines unreadable.
  lemma {:induction false} StaysUnread(lines: seq<string>, k: nat)
    requires k <= |lines| && ReadHeaders(lines[..k]).None?
    ensures ReadHeaders(lines).None?
  {
    hide SplitOnce, Trimmed;
    if k == |lines| {
      assert lines[..k] == lines;
    } else {
      var init := lines[..|lines| - 1];
      assert init[..k] == lines[..k];
      StaysUnread(init, k);
    }
  }
}
