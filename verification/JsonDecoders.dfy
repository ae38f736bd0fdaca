// The JSON decoder of the test tools: recursive descent over a view of the text.

module JsonDecoders {
  import opened Wrappers
  import opened Text
  import opened JsonSpec

  // std::string_view, as the decoder uses it.
  class TextView {
    var text: string

    constructor (text: string)
      ensures this.text == text
    {
      this.text := text;
    }

    method RemovePrefix(n: nat)
      requires n <= |text|
      modifies this
      ensures text == old(text)[n..]
    {
      text := text[n..];
    }
  }

  // The method returned r and left the view as the outcome p says. After an
  // error the view may be anywhere.
  ghost predicate Returned<T>(r: Option<T>, str: TextView, p: Parsed<T>)
    reads str
  {
    match p
    case Error => r.None?
    case Ok(x, rest) => r == Some(x) && str.text == rest
  }

  method SkipLeadingWhitespace(str: TextView)
    modifies str
    ensures str.text == SkipWhitespace(old(str.text))
  {
    var pos := 0;
    assert str.text[0..] == str.text;
    while pos < |str.text| && IsSpace(str.text[pos])
      invariant pos <= |str.text| && str.text == old(str.text)
      invariant SkipWhitespace(str.text) == SkipWhitespace(str.text[pos..])
    {
      assert str.text[pos..][1..] == str.text[pos + 1..];
      pos := pos + 1;
    }
    str.RemovePrefix(pos);
  }

  method SkipInteriorWhitespace(str: TextView) returns (ok: bool)
    modifies str
    ensures str.text == SkipWhitespace(old(str.text)) && ok == (str.text != "")
  {
    SkipLeadingWhitespace(str);
    return str.text != "";
  }

  method SkipRequiredDelimiter(str: TextView, delimiter: char) returns (ok: bool)
    modifies str
    ensures var r := SkipDelimiter(old(str.text), delimiter); ok == r.Some? && (ok ==> str.text == r.value)
  {
    ok := SkipInteriorWhitespace(str);
    if !ok {
      return false;
    }
    if str.text[0] != delimiter {
      return false;
    }
    str.RemovePrefix(1);
  }

  method SkipRequiredWord(str: TextView, word: string, x: Value) returns (r: Option<Value>)
    requires word != ""
    modifies str
    ensures Returned(r, str, ParseWord(old(str.text), word, x))
  {
    var ok := SkipInteriorWhitespace(str);
    if !ok || !(word <= str.text) {
      return None;
    }
    str.RemovePrefix(|word|);
    return Some(x);
  }

  method DecodeString(str: TextView) returns (r: Option<string>)
    modifies str
    ensures Returned(r, str, ParseString(old(str.text)))
  {
    var ok := SkipRequiredDelimiter(str, '"');
    if !ok {
      return None;
    }
    var result := "";
    ghost var whole := StringRest(str.text);
    assert whole.Ok? ==> "" + whole.value == whole.value;
    while str.text != ""
      invariant whole == Prepend(result, StringRest(str.text))
      decreases |str.text|
    {
      var c := str.text[0];
      str.RemovePrefix(1);
      if !(' ' <= c && c < 127 as char) {
        return None;
      } else if c == '"' {
        assert result + "" == result;
        return Some(result);
      } else if c == '\\' {
        if str.text == "" {
          return None;
        }
        c := str.text[0];
        str.RemovePrefix(1);
        if c == 'u' {
          return None;
        }
        PrependTwice(result, Unescape(c), StringRest(str.text));
        result := result + Unescape(c);
      } else {
        PrependTwice(result, [c], StringRest(str.text));
        result := result + [c];
      }
    }
    return None;
  }

  lemma PrependTwice(a: string, b: string, r: Parsed<string>)
    ensures Prepend(a, Prepend(b, r)) == Prepend(a + b, r)
  {
    if r.Ok? {
      assert a + (b + r.value) == a + b + r.value;
    }
  }

  method DecodeNumber(str: TextView) returns (r: Option<Value>)
    modifies str
    ensures Returned(r, str, ParseNumber(old(str.text)))
  {
    hide Digits, DecimalValue;
    var ok := SkipInteriorWhitespace(str);
    if !ok {
      NoDigits();
      return None;
    }
    var negative := str.text[0] == '-';
    if negative {
      str.RemovePrefix(1);
    }
    var n := Digits(str.text);
    if n == 0 || (n < |str.text| && (str.text[n] == '.' || str.text[n] == 'e' || str.text[n] == 'E')) {
      return None;
    }
    var magnitude: int := DecimalValue(str.text[..n]);
    str.RemovePrefix(n);
    return Some(Number(if negative then -magnitude else magnitude));
  }

  lemma NoDigits()
    ensures Digits("") == 0
  {
  }

  method DecodeValue(str: TextView) returns (r: Option<Value>)
    modifies str
    ensures Returned(r, str, ParseValue(old(str.text)))
    decreases |str.text|, 1
  {
    hide ParseArray, ParseObject, ParseNumber, ParseWord, ParseString;
    var ok := SkipInteriorWhitespace(str);
    if !ok {
      return None;
    }
    var c := str.text[0];
    if c == '[' {
      r := DecodeArray(str);
    } else if c == '{' {
      r := DecodeObject(str);
    } else if c == '"' {
      var s := DecodeString(str);
      r := match s case None => None case Some(t) => Some(String(t));
    } else if c == 'n' {
      r := SkipRequiredWord(str, "null", Null);
    } else if c == 't' {
      r := SkipRequiredWord(str, "true", Bool(true));
    } else if c == 'f' {
      r := SkipRequiredWord(str, "false", Bool(false));
    } else {
      r := DecodeNumber(str);
    }
  }

  method DecodeArray(str: TextView) returns (r: Option<Value>)
    modifies str
    ensures Returned(r, str, ParseArray(old(str.text)))
    decreases |str.text|, 0
  {
    hide ParseValue, SkipWhitespace, SkipDelimiter;
    var ok := SkipRequiredDelimiter(str, '[');
    if !ok {
      return None;
    }
    var values: seq<Value> := [];
    ok := SkipInteriorWhitespace(str);
    if !ok {
      return None;
    }
    ghost var first := str.text;
    ghost var whole := ParseElements(first, []);
    if str.text[0] != ']' {
      while true
        invariant whole == ParseElements(str.text, values)
        invariant |str.text| < |old(str.text)|
        decreases |str.text|
      {
        var value := DecodeValue(str);
        if value.None? {
          return None;
        }
        values := values + [value.value];
        ok := SkipInteriorWhitespace(str);
        if !ok {
          return None;
        }
        if str.text[0] == ']' {
          break;
        }
        ok := SkipRequiredDelimiter(str, ',');
        if !ok {
          return None;
        }
      }
    }
    AtDelimiter(str.text, ']');
    ok := SkipRequiredDelimiter(str, ']');
    return Some(List(values));
  }

  lemma AtDelimiter(v: string, d: char)
    requires v != "" && v[0] == d && !IsSpace(d)
    ensures SkipDelimiter(v, d) == Some(v[1..])
  {
  }

  method DecodeObject(str: TextView) returns (r: Option<Value>)
    modifies str
    ensures Returned(r, str, ParseObject(old(str.text)))
    decreases |str.text|, 0
  {
    hide ParseValue, SkipWhitespace, SkipDelimiter, ParseString;
    var ok := SkipRequiredDelimiter(str, '{');
    if !ok {
      return None;
    }
    var members: map<string, Value> := map[];
    ok := SkipInteriorWhitespace(str);
    if !ok {
      return None;
    }
    ghost var whole := ParseMembers(str.text, map[]);
    if str.text[0] != '}' {
      while true
        invariant whole == ParseMembers(str.text, members)
        invariant |str.text| < |old(str.text)|
        decreases |str.text|
      {
        var name := DecodeString(str);
        if name.None? {
          return None;
        }
        ok := SkipRequiredDelimiter(str, ':');
        if !ok {
          return None;
        }
        var value := DecodeValue(str);
        if value.None? {
          return None;
        }
        members := members[name.value := value.value];
        ok := SkipInteriorWhitespace(str);
        if !ok {
          return None;
        }
        if str.text[0] == '}' {
          break;
        }
        ok := SkipRequiredDelimiter(str, ',');
        if !ok {
          return None;
        }
      }
    }
    AtDelimiter(str.text, '}');
    ok := SkipRequiredDelimiter(str, '}');
    return Some(Map(members));
  }

  // JsonValue::Parse.
  method Decode(text: string) returns (r: Option<Value>)
    ensures r == Parse(text)
  {
    var str := new TextView(text);
    r := DecodeValue(str);
    if r.Some? {
      SkipLeadingWhitespace(str);
      if str.text != "" {
        r := None;
      }
    }
  }
}
