// HttpRequest, with which the tests make the text of a request: what the
// decoder makes of that text is what went into it.

module HttpRequests {
  import opened Text
  import opened Protocol
  import opened OrderedMaps

  // --------------------------------------------------------- Percent encoding

  predicate Special(c: char) { c in "!#$%&'()*+,/;=?@[]" }

  predicate Plain(c: char) { ' ' < c <= '~' && !Special(c) }

  function HexDigit(n: nat): char
    requires n < 16
  {
    "0123456789ABCDEF"[n]
  }

  function EncodeChar(c: char): (t: string)
    ensures t != ""
  {
    if Plain(c) then [c] else ['%', HexDigit(c as int / 16 % 16), HexDigit(c as int % 16)]
  }

  function Encode(s: string): string {
    if s == "" then "" else Encode(s[..|s| - 1]) + EncodeChar(s[|s| - 1])
  }

  function PairText(e: (string, string)): string { Encode(e.0) + "=" + Encode(e.1) }

  // The pairs with '&' between them.
  function Join(m: Entries): (t: string)
    ensures t == "" <==> m == []
  {
    if m == [] then "" else if |m| == 1 then PairText(m[0]) else Join(m[..|m| - 1]) + "&" + PairText(m[|m| - 1])
  }

  // ------------------------------------------------------------- The request

  const CONTENT_LENGTH := "Content-Length"
  const CONTENT_TYPE := "Content-Type"

  // The value of an HttpRequest object.
  datatype Contents = Contents(verb: string, path: string, version: string, headers: Entries, parameters: Entries)

  // The headers that ToString adds, unless they are there.
  function FinalHeaders(h: Contents): Entries {
    var text := Join(h.parameters);
    if h.verb != "PUT" then h.headers
    else if text == "" then Insert(h.headers, CONTENT_LENGTH, "0")
    else Insert(Insert(h.headers, CONTENT_TYPE, MIME_TYPE_WWW_FORM_URL_ENCODED), CONTENT_LENGTH, Decimal(|text|))
  }

  // Headers with an empty value are left out.
  function HeaderText(e: (string, string)): string { if e.1 == "" then "" else e.0 + ": " + e.1 + "\r\n" }

  function HeadersText(m: Entries): string {
    if m == [] then "" else HeadersText(m[..|m| - 1]) + HeaderText(m[|m| - 1])
  }

  function StartLineText(h: Contents): string {
    var text := Join(h.parameters);
    h.verb + " " + h.path + (if text != "" && h.verb == "GET" then "?" + text else "") + (" " + h.version + "\r\n")
  }

  function RequestText(h: Contents): string {
    StartLineText(h) + HeadersText(FinalHeaders(h)) + "\r\n" + (if h.verb == "PUT" then Join(h.parameters) else "")
  }

  class HttpRequest {
    var verb: string
    var path: string
    var version: string
    var headers: Entries
    var parameters: Entries

    function State(): Contents
      reads this
    {
      Contents(verb, path, version, headers, parameters)
    }

    constructor (verb: string, path: string)
      ensures State() == Contents(verb, path, "HTTP/1.1", [], [])
    {
      this.verb, this.path, version, headers, parameters := verb, path, "HTTP/1.1", [], [];
    }

    method AddHeaderIfUnset(name: string, value: string)
      modifies this`headers
      ensures headers == Insert(old(headers), name, value)
    {
      headers := Insert(headers, name, value);
    }

    method SetHeader(name: string, value: string)
      modifies this`headers
      ensures headers == InsertOrAssign(old(headers), name, value)
    {
      headers := InsertOrAssign(headers, name, value);
    }

    static method PercentEncodeString(str: string) returns (result: string)
      ensures result == Encode(str)
    {
      hide HexDigit, Special;
      result := "";
      for i := 0 to |str|
        invariant result == Encode(str[..i])
      {
        var c := str[i];
        assert str[..i + 1][..i] == str[..i];
        if ' ' < c <= '~' && !Special(c) {
          result := result + [c];
          continue;
        }
        result := result + ['%'];
        var hi, lo := c as int / 16 % 16, c as int % 16;
        result := result + [HexDigit(hi)];
        result := result + [HexDigit(lo)];
      }
      assert str[..|str|] == str;
    }

    static method PercentEncodePairs(m: Entries) returns (result: string)
      ensures result == Join(m)
    {
      hide Encode;
      result := "";
      for i := 0 to |m|
        invariant result == Join(m[..i])
      {
        if i > 0 {
          result := result + "&";
        }
        var name := PercentEncodeString(m[i].0);
        var value := PercentEncodeString(m[i].1);
        assert m[..i + 1][..i] == m[..i];
        result := result + (name + "=" + value);
      }
      assert m[..|m|] == m;
    }

    // The headers that a PUT of these parameters needs.
    method AddBodyHeaders(parametersString: string)
      requires parametersString == Join(parameters)
      modifies this`headers
      ensures headers == FinalHeaders(old(State()))
    {
      hide Insert, Decimal, Join;
      if verb == "PUT" {
        if parametersString == "" {
          AddHeaderIfUnset(CONTENT_LENGTH, "0");
        } else {
          AddHeaderIfUnset(CONTENT_TYPE, MIME_TYPE_WWW_FORM_URL_ENCODED);
          AddHeaderIfUnset(CONTENT_LENGTH, Decimal(|parametersString|));
        }
      }
    }

    method StartLine(parametersString: string) returns (result: string)
      requires parametersString == Join(parameters)
      ensures result == StartLineText(State())
    {
      hide Join;
      result := verb + " " + path;
      if parametersString != "" && verb == "GET" {
        result := result + "?";
        result := result + parametersString;
      }
      result := result + (" " + version + "\r\n");
    }

    // The text to be sent. The headers that it needs stay added.
    method ToString() returns (result: string)
      modifies this`headers
      ensures result == RequestText(old(State()))
      ensures State() == old(State()).(headers := FinalHeaders(old(State())))
    {
      hide Join, FinalHeaders, StartLineText;
      var parametersString := PercentEncodePairs(parameters);
      result := StartLine(parametersString);
      AddBodyHeaders(parametersString);
      ghost var start := result;
      for i := 0 to |headers|
        invariant result == start + HeadersText(headers[..i])
      {
        assert headers[..i + 1][..i] == headers[..i];
        var (name, value) := headers[i];
        if value != "" {
          result := result + (name + ": " + value + "\r\n");
        }
      }
      assert headers[..|headers|] == headers;
      result := result + "\r\n";
      if verb == "PUT" && parametersString != "" {
        result := result + parametersString;
      }
    }
  }
}
