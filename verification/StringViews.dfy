// StringView: a window on characters stored elsewhere, consumed from the front.

module StringViews {
  import opened Ints
  import opened Text

  const MAX_SIZE := 255

  class StringView {
    // The characters in view, and the position of the first of them in the
    // storage that the view was made from (the view's pointer).
    var text: string
    var begin: nat

    predicate Valid()
      reads this
    {
      |text| <= MAX_SIZE
    }

    constructor (text: string, begin: nat)
      requires |text| <= MAX_SIZE
      ensures this.text == text && this.begin == begin && Valid()
    {
      this.text, this.begin := text, begin;
    }

    method RemovePrefix(length: nat)
      requires Valid() && length <= |text|
      modifies this
      ensures Valid()
      ensures text == old(text)[length..] && begin == old(begin) + length
    {
      text, begin := text[length..], begin + length;
    }

    method RemoveSuffix(length: nat)
      requires Valid() && length <= |text|
      modifies this
      ensures Valid()
      ensures text == old(text)[..|old(text)| - length] && begin == old(begin)
    {
      text := text[..|text| - length];
    }

    // Compares from the end, as the source does.
    method Equals(other: string) returns (equal: bool)
      requires Valid()
      ensures equal <==> text == other
    {
      if |other| != |text| {
        return false;
      }
      var ndx := |text|;
      while ndx > 0
        invariant 0 <= ndx <= |text| == |other|
        invariant text[ndx..] == other[ndx..]
      {
        ndx := ndx - 1;
        if text[ndx] != other[ndx] {
          return false;
        }
        assert text[ndx..] == [text[ndx]] + text[ndx + 1..];
      }
      return true;
    }

    method StartsWith(prefix: string) returns (starts: bool)
      requires Valid()
      ensures starts <==> prefix <= text
    {
      if |prefix| > |text| {
        return false;
      }
      var head := new StringView(text[..|prefix|], begin);
      starts := head.Equals(prefix);
    }

    method MatchAndConsume(prefix: string) returns (matched: bool)
      requires Valid()
      modifies this
      ensures Valid()
      ensures matched <==> prefix <= old(text)
      ensures matched ==> text == old(text)[|prefix|..] && begin == old(begin) + |prefix|
      ensures !matched ==> text == old(text) && begin == old(begin)
    {
      matched := StartsWith(prefix);
      if matched {
        RemovePrefix(|prefix|);
      }
    }

    // True when other occurs in this view: the view shrinks from the front until it does.
    method ContainsText(other: string) returns (found: bool)
      requires Valid()
      ensures found <==> exists k :: 0 <= k <= |text| && other <= text[k..]
    {
      var copy := new StringView(text, begin);
      ghost var k := 0;
      while |copy.text| >= |other|
        invariant copy.Valid() && fresh(copy)
        invariant 0 <= k <= |text| + 1 && (k <= |text| ==> copy.text == text[k..])
        invariant k > |text| ==> other == "" && false
        invariant forall j :: 0 <= j < k ==> !(other <= text[j..])
        decreases |copy.text|
      {
        var starts := copy.StartsWith(other);
        if starts {
          return true;
        }
        assert copy.text != "";
        copy.RemovePrefix(1);
        k := k + 1;
      }
      return false;
    }

    // The position of the first character outside class cc, or MAX_SIZE.
    method FindFirstNotOf(cc: CharClass) returns (pos: nat)
      requires Valid()
      ensures pos == if Span(text, cc) == |text| then MAX_SIZE else Span(text, cc)
    {
      for ndx := 0 to |text|
        invariant AllMatch(text[..ndx], cc)
      {
        if !Matches(cc, text[ndx]) {
          SpanIs(text, cc, ndx);
          return ndx;
        }
        assert text[..ndx + 1] == text[..ndx] + [text[ndx]];
      }
      assert text[..|text|] == text;
      SpanIs(text, cc, |text|);
      return MAX_SIZE;
    }

    // Parses an unsigned number with 32-bit arithmetic that never wraps.
    method ToUint32() returns (ok: bool, out: uint32)
      requires Valid()
      ensures ok <==> Text.ToUint32(text).Some?
      ensures ok ==> out == Text.ToUint32(text).value
    {
      if text == "" {
        return false, 0;
      }
      var value: uint32 := 0;
      for ndx := 0 to |text|
        invariant AllDigits(text[..ndx]) && value == DecimalValue(text[..ndx])
      {
        var added;
        added, value := AddOnesPlace(value, text[ndx]);
        assert text[..ndx + 1][..ndx] == text[..ndx];
        if !added {
          if AllDigits(text) {
            DecimalValueGrows(text, ndx + 1);
          }
          return false, 0;
        }
      }
      assert text[..|text|] == text;
      return true, value;
    }

    method ToInt32() returns (ok: bool, out: int32)
      requires Valid()
      ensures ok <==> Text.ToInt32(text).Some?
      ensures ok ==> out == Text.ToInt32(text).value
    {
      hide Text.ToUint32;
      var copy := new StringView(text, begin);
      var negative := copy.MatchAndConsume("-");
      assert negative <==> text != "" && text[0] == '-';
      var converted, value := copy.ToUint32();
      if !converted {
        return false, 0;
      }
      if negative {
        if value <= 0x8000_0000 {
          // Negation modulo 2^32, read back as a two's complement number.
          var magnitude: int := value;
          return true, AsInt32((0x1_0000_0000 - magnitude) % 0x1_0000_0000);
        }
        return false, 0;
      }
      if value > 0x7FFF_FFFF {
        return false, 0;
      }
      return true, value;
    }

    // Parses a decimal fraction, with exact arithmetic in place of double.
    method ToReal() returns (ok: bool, out: real)
      requires Valid()
      ensures ok <==> Text.ToReal(text).Some?
      ensures ok ==> out == Text.ToReal(text).value
    {
      var copy := new StringView(text, begin);
      var negative := copy.MatchAndConsume("-");
      assert negative <==> text != "" && text[0] == '-';
      var converted, magnitude := ParseFraction(copy.text);
      if !converted {
        return false, 0.0;
      }
      return true, if negative then -magnitude else magnitude;
    }
  }

  // The digits of t seen when the loop has handled its first n characters.
  ghost function DigitsSeen(t: string, n: nat): nat
    requires n <= |t|
  {
    if IndexOf(t, '.') < n then n - 1 else n
  }

  // The number that an unsigned fraction denotes, with exact arithmetic in place of double.
  method ParseFraction(t: string) returns (ok: bool, out: real)
    ensures ok <==> Fraction(t).Some?
    ensures ok ==> out == Fraction(t).value
  {
    var value, divisor;
    ok, value, divisor := ParseDigits(t);
    if !ok {
      return false, 0.0;
    }
    out := value as real;
    if divisor > 1 {
      out := out / divisor as real;
    }
  }

  // The digits of an unsigned fraction as a number, and the power of ten that divides it.
  method ParseDigits(t: string) returns (ok: bool, value: nat, divisor: nat)
    ensures ok <==> WithoutPoint(t) != "" && AllDigits(WithoutPoint(t))
    ensures ok ==> value == DecimalValue(WithoutPoint(t))
    ensures ok ==> divisor == Pow10(|WithoutPoint(t)| - IndexOf(t, '.'))
  {
    hide Pow10, DecimalValue, IndexOf, AllDigits;
    if t == "" {
      return false, 0, 1;
    }
    NoDigits();
    var decodingFraction := false;
    value, divisor := 0, 1;
    ghost var point, digits := IndexOf(t, '.'), WithoutPoint(t);
    IndexOfIsFirst(t, '.');
    assert digits[..0] == "";
    for ndx := 0 to |t|
      invariant decodingFraction <==> point < ndx
      invariant decodingFraction ==> |t| > 1
      invariant AllDigits(digits[..DigitsSeen(t, ndx)])
      invariant value == DecimalValue(digits[..DigitsSeen(t, ndx)])
      invariant divisor == Pow10(if decodingFraction then ndx - point - 1 else 0)
    {
      var c := t[ndx];
      ghost var k := DigitsSeen(t, ndx);
      assert ndx != point ==> digits[k] == c;
      if c == '.' {
        if decodingFraction || |t| == 1 {
          if decodingFraction { NotADigit(digits, k); }
          return false, 0, 1;
        }
        decodingFraction := true;
      } else {
        if !IsDigit(c) {
          NotADigit(digits, k);
          return false, 0, 1;
        }
        OneMoreDigit(digits, k);
        Pow10Step(if decodingFraction then ndx - point - 1 else 0);
        value := value * 10 + DigitValue(c);
        if decodingFraction {
          divisor := divisor * 10;
        }
      }
    }
    assert digits[..|digits|] == digits;
    return true, value, divisor;
  }

  lemma NoDigits()
    ensures DecimalValue("") == 0 && Pow10(0) == 1 && AllDigits("")
  {
  }

  lemma NotADigit(digits: string, k: nat)
    requires k < |digits| && !IsDigit(digits[k])
    ensures !AllDigits(digits)
  {
  }

  lemma OneMoreDigit(digits: string, k: nat)
    requires k < |digits| && AllDigits(digits[..k]) && IsDigit(digits[k])
    ensures AllDigits(digits[..k + 1])
    ensures DecimalValue(digits[..k + 1]) == DecimalValue(digits[..k]) * 10 + DigitValue(digits[k])
  {
    assert digits[..k + 1][..k] == digits[..k];
  }

  lemma Pow10Step(n: nat)
    ensures Pow10(n + 1) == Pow10(n) * 10
  {
  }

  // One step of decimal conversion, refusing what does not fit in 32 bits.
  method AddOnesPlace(value: uint32, c: char) returns (ok: bool, out: uint32)
    ensures ok <==> IsDigit(c) && 10 * value + DigitValue(c) <= MAX_UINT32
    ensures ok ==> out == 10 * value + DigitValue(c)
  {
    if !IsDigit(c) {
      return false, value;
    }
    if value > MAX_UINT32 / 10 {
      return false, value;
    }
    var digit: uint32 := DigitValue(c);
    out := value * 10;
    if out > MAX_UINT32 - digit {
      return false, out;
    }
    return true, out + digit;
  }
}
