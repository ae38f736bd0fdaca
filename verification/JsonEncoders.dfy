// The JSON encoders: each prints its opening bracket when it is made and its
// closing bracket when it goes, and separates the items in between.

module JsonEncoders {
  import opened Ints
  import opened Text
  import opened JsonSpec
  import opened Prints

  method PrintCharJsonEscaped(out: Print, c: char) returns (total: nat)
    requires out.Valid()
    modifies out
    ensures out.Valid() && out.printed == old(out.printed) + EscapeChar(c) && total == |EscapeChar(c)|
  {
    total := 0;
    var n;
    if IsPrintable(c) {
      if c == '"' {
        n := out.PrintChar('\\');
        total := total + n;
        n := out.PrintChar('"');
        total := total + n;
      } else if c == '\\' {
        n := out.PrintChar('\\');
        total := total + n;
        n := out.PrintChar('\\');
        total := total + n;
      } else {
        n := out.PrintChar(c);
        total := total + n;
      }
    } else if c == BACKSPACE {
      n := out.PrintChar('\\');
      total := total + n;
      n := out.PrintChar('b');
      total := total + n;
    } else if c == FORM_FEED {
      n := out.PrintChar('\\');
      total := total + n;
      n := out.PrintChar('f');
      total := total + n;
    } else if c == '\n' {
      n := out.PrintChar('\\');
      total := total + n;
      n := out.PrintChar('n');
      total := total + n;
    } else if c == '\r' {
      n := out.PrintChar('\\');
      total := total + n;
      n := out.PrintChar('r');
      total := total + n;
    } else if c == '\t' {
      n := out.PrintChar('\\');
      total := total + n;
      n := out.PrintChar('t');
      total := total + n;
    }
  }

  method PrintString(out: Print, value: string) returns (count: nat)
    requires out.Valid()
    modifies out
    ensures out.Valid() && out.printed == old(out.printed) + StringText(value) && count == |StringText(value)|
  {
    hide EscapeChar;
    count := out.PrintChar('"');
    ghost var before := out.printed;
    for i := 0 to |value|
      invariant out.Valid() && out.printed == before + Escape(value[..i])
      invariant count == 1 + |Escape(value[..i])|
    {
      assert value[..i + 1][..i] == value[..i];
      var n := PrintCharJsonEscaped(out, value[i]);
      count := count + n;
    }
    assert value[..|value|] == value;
    var n := out.PrintChar('"');
    count := count + n;
  }

  method PrintBoolean(out: Print, value: bool)
    requires out.Valid()
    modifies out
    ensures out.Valid() && out.printed == old(out.printed) + JsonText(Boolean(value))
  {
    var n := out.PrintText(if value then "true" else "false");
  }

  method PrintInteger(out: Print, value: int)
    requires out.Valid()
    modifies out
    ensures out.Valid() && out.printed == old(out.printed) + SignedDecimal(value)
  {
    var n := out.PrintText(SignedDecimal(value));
  }

  // What StartItem prints.
  function Separator(first: bool): string { if first then "" else ", " }

  class JsonArrayEncoder {
    const out: Print
    var first: bool

    constructor (out: Print)
      requires out.Valid()
      modifies out
      ensures this.out == out && first && out.Valid() && out.printed == old(out.printed) + "["
    {
      this.out := out;
      first := true;
      new;
      var n := out.PrintChar('[');
    }

    // The destructor.
    method Finish()
      requires out.Valid()
      modifies out
      ensures out.Valid() && out.printed == old(out.printed) + "]"
    {
      var n := out.PrintChar(']');
    }

    method StartItem()
      requires out.Valid()
      modifies this, out
      ensures out.Valid() && out.printed == old(out.printed) + Separator(old(first)) && !first
    {
      if first {
        first := false;
      } else {
        var n := out.PrintChar(',');
        n := out.PrintChar(' ');
      }
    }

    method AddIntElement(value: int)
      requires out.Valid()
      modifies this, out
      ensures out.Valid() && !first
      ensures out.printed == old(out.printed) + (Separator(old(first)) + JsonText(Integer(value)))
    {
      StartItem();
      PrintInteger(out, value);
    }

    method AddBooleanElement(value: bool)
      requires out.Valid()
      modifies this, out
      ensures out.Valid() && !first
      ensures out.printed == old(out.printed) + (Separator(old(first)) + JsonText(Boolean(value)))
    {
      StartItem();
      PrintBoolean(out, value);
    }

    method AddStringElement(value: string)
      requires out.Valid()
      modifies this, out
      ensures out.Valid() && !first
      ensures out.printed == old(out.printed) + (Separator(old(first)) + JsonText(JsonSpec.Text(value)))
    {
      StartItem();
      var n := PrintString(out, value);
    }

    method AddArrayElement(source: seq<Json>)
      requires out.Valid()
      modifies this, out
      ensures out.Valid() && !first
      ensures out.printed == old(out.printed) + (Separator(old(first)) + JsonText(Array(source)))
      decreases source, 3
    {
      StartItem();
      EncodeArray(source, out);
    }

    method AddObjectElement(source: seq<Property>)
      requires out.Valid()
      modifies this, out
      ensures out.Valid() && !first
      ensures out.printed == old(out.printed) + (Separator(old(first)) + JsonText(Object(source)))
      decreases source, 3
    {
      StartItem();
      EncodeObject(source, out);
    }

    // A source adds its elements, each by the method for its type.
    method Add(source: seq<Json>)
      requires out.Valid() && first
      modifies this, out
      ensures out.Valid() && out.printed == old(out.printed) + ElementsText(source)
      decreases source, 1
    {
      hide JsonText, SignedDecimal;
      for i := 0 to |source|
        invariant out.Valid() && first == (i == 0)
        invariant out.printed == old(out.printed) + ElementsText(source[..i])
      {
        assert source[..i + 1][..i] == source[..i];
        match source[i]
        case Integer(n) => AddIntElement(n);
        case Boolean(b) => AddBooleanElement(b);
        case Text(s) => AddStringElement(s);
        case Array(es) => AddArrayElement(es);
        case Object(ps) => AddObjectElement(ps);
      }
      assert source[..|source|] == source;
    }
  }

  method EncodeArray(source: seq<Json>, out: Print)
    requires out.Valid()
    modifies out
    ensures out.Valid() && out.printed == old(out.printed) + JsonText(Array(source))
    decreases source, 2
  {
    hide ElementsText;
    var encoder := new JsonArrayEncoder(out);
    encoder.Add(source);
    encoder.Finish();
  }

  class JsonObjectEncoder {
    const out: Print
    var first: bool

    constructor (out: Print)
      requires out.Valid()
      modifies out
      ensures this.out == out && first && out.Valid() && out.printed == old(out.printed) + "{"
    {
      this.out := out;
      first := true;
      new;
      var n := out.PrintChar('{');
    }

    // The destructor.
    method Finish()
      requires out.Valid()
      modifies out
      ensures out.Valid() && out.printed == old(out.printed) + "}"
    {
      var n := out.PrintChar('}');
    }

    method StartItem()
      requires out.Valid()
      modifies this, out
      ensures out.Valid() && out.printed == old(out.printed) + Separator(old(first)) && !first
    {
      if first {
        first := false;
      } else {
        var n := out.PrintChar(',');
        n := out.PrintChar(' ');
      }
    }

    method StartProperty(name: string)
      requires out.Valid()
      modifies this, out
      ensures out.Valid() && !first
      ensures out.printed == old(out.printed) + (Separator(old(first)) + (StringText(name) + ": "))
    {
      StartItem();
      var n := PrintString(out, name);
      n := out.PrintChar(':');
      n := out.PrintChar(' ');
    }

    method AddIntProperty(name: string, value: int)
      requires out.Valid()
      modifies this, out
      ensures out.Valid() && !first
      ensures out.printed == old(out.printed) + (Separator(old(first)) + PropertyText(Property(name, Integer(value))))
    {
      StartProperty(name);
      PrintInteger(out, value);
    }

    method AddBooleanProperty(name: string, value: bool)
      requires out.Valid()
      modifies this, out
      ensures out.Valid() && !first
      ensures out.printed == old(out.printed) + (Separator(old(first)) + PropertyText(Property(name, Boolean(value))))
    {
      StartProperty(name);
      PrintBoolean(out, value);
    }

    method AddStringProperty(name: string, value: string)
      requires out.Valid()
      modifies this, out
      ensures out.Valid() && !first
      ensures out.printed ==
        old(out.printed) + (Separator(old(first)) + PropertyText(Property(name, JsonSpec.Text(value))))
    {
      StartProperty(name);
      var n := PrintString(out, value);
    }

    method AddArrayProperty(name: string, source: seq<Json>)
      requires out.Valid()
      modifies this, out
      ensures out.Valid() && !first
      ensures out.printed == old(out.printed) + (Separator(old(first)) + PropertyText(Property(name, Array(source))))
      decreases source, 3
    {
      hide JsonText;
      StartProperty(name);
      EncodeArray(source, out);
    }

    method AddObjectProperty(name: string, source: seq<Property>)
      requires out.Valid()
      modifies this, out
      ensures out.Valid() && !first
      ensures out.printed == old(out.printed) + (Separator(old(first)) + PropertyText(Property(name, Object(source))))
      decreases source, 3
    {
      hide JsonText;
      StartProperty(name);
      EncodeObject(source, out);
    }

    // A source adds its properties, each by the method for its type.
    method Add(source: seq<Property>)
      requires out.Valid() && first
      modifies this, out
      ensures out.Valid() && out.printed == old(out.printed) + PropertiesText(source)
      decreases source, 1
    {
      hide PropertyText, SignedDecimal;
      for i := 0 to |source|
        invariant out.Valid() && first == (i == 0)
        invariant out.printed == old(out.printed) + PropertiesText(source[..i])
      {
        assert source[..i + 1][..i] == source[..i];
        var Property(name, value) := source[i];
        match value
        case Integer(n) => AddIntProperty(name, n);
        case Boolean(b) => AddBooleanProperty(name, b);
        case Text(s) => AddStringProperty(name, s);
        case Array(es) => AddArrayProperty(name, es);
        case Object(ps) => AddObjectProperty(name, ps);
      }
      assert source[..|source|] == source;
    }
  }

  method EncodeObject(source: seq<Property>, out: Print)
    requires out.Valid()
    modifies out
    ensures out.Valid() && out.printed == old(out.printed) + JsonText(Object(source))
    decreases source, 2
  {
    hide PropertiesText;
    var encoder := new JsonObjectEncoder(out);
    encoder.Add(source);
    encoder.Finish();
  }

  // The size that a counting pass finds, which is that of the text modulo 2^32.
  method EncodedSize(source: seq<Property>) returns (size: uint32)
    ensures size == |JsonText(Object(source))| % 0x1_0000_0000
  {
    var counter := new Print(true);
    EncodeObject(source, counter);
    return counter.count;
  }
}
