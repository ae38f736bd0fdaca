// Decoding header lines, and taking apart what was decoded. The decoder applies each
// header line to its state as it comes, while the grammar reads the lines into a few
// facts: the length of the body, and whether the connection is to be closed. Here
// the two are shown to agree, line by line; and, as in the other modules about the
// grammar, that the decoder gets through the text of acceptable lines, and that
// what it gets through is the text of such lines.

module GrammarHeaderLines {
  import opened Wrappers
  import opened Text
  import opened Protocol
  import opened AlpacaRequests
  import opened DecoderSpec
  import opened Fragmentation
  import opened RequestGrammar
  import opened GrammarSteps
  import opened GrammarParameters

  function HeaderOf(name: string): EHttpHeader {
    match MatchHttpHeader(name) case Some(h) => h case None => UnknownHeader
  }

  // The decoder holds these facts about the header lines so far.
  ghost predicate Knows(s: DecoderState, facts: HeaderFacts) {
    && s.foundContentLength == facts.length.Some?
    && (facts.length.Some? ==> s.remaining == facts.length.value)
    && s.request.doClose == facts.close
  }

  // The header lines decide only whether to close.
  function ButClose(req: RequestFields): RequestFields { req.(doClose := false) }

  lemma ButCloseOf(req: RequestFields, close: bool)
    ensures ButClose(req.(doClose := close)) == ButClose(req)
  {
  }

  // The decoder makes of a header line what the line means.
  ghost predicate ReadsAlike(s: DecoderState, facts: HeaderFacts, l: Line) {
    var (status, s') := ApplyHeader(s.(currentHeader := HeaderOf(l.name)), Trimmed(l.value));
    var r := ReadLine(s.request.httpMethod, facts, l);
    && (r.Some? <==> status.ContinueDecoding?)
    && (r.Some? ==> Knows(s', r.value) && s'.request == s.request.(doClose := r.value.close))
    && s'.decodeFunction == s.decodeFunction && s'.isDecodingHeader == s.isDecodingHeader
    && s'.isFinalInput == s.isFinalInput && s'.decoderStatus == s.decoderStatus
  }

  lemma ReadLineIsApplyHeader(s: DecoderState, facts: HeaderFacts, l: Line)
    requires Knows(s, facts)
    ensures ReadsAlike(s, facts, l)
  {
    hide MatchHttpHeader, ToUint32, Trimmed, CaseEqual, ApplyHeader;
    match HeaderOf(l.name)
    case ContentLengthHeader => ReadContentLength(s, facts, l);
    case ContentTypeHeader => ReadContentType(s, facts, l);
    case ConnectionHeader => ReadConnection(s, facts, l);
    case _ => ReadOtherHeader(s, facts, l);
  }

  lemma ReadContentLength(s: DecoderState, facts: HeaderFacts, l: Line)
    requires Knows(s, facts) && HeaderOf(l.name).ContentLengthHeader?
    ensures ReadsAlike(s, facts, l)
  {
    hide MatchHttpHeader, ToUint32, Trimmed, CaseEqual;
  }

  lemma ReadContentType(s: DecoderState, facts: HeaderFacts, l: Line)
    requires Knows(s, facts) && HeaderOf(l.name).ContentTypeHeader?
    ensures ReadsAlike(s, facts, l)
  {
    hide MatchHttpHeader, ToUint32, Trimmed, CaseEqual;
  }

  lemma ReadConnection(s: DecoderState, facts: HeaderFacts, l: Line)
    requires Knows(s, facts) && HeaderOf(l.name).ConnectionHeader?
    ensures ReadsAlike(s, facts, l)
  {
    hide MatchHttpHeader, ToUint32, Trimmed, CaseEqual;
    var value := Trimmed(l.value);
    SameClose(s.request);
    assert ReadLine(s.request.httpMethod, facts, l) ==
      Some(facts.(close := facts.close || CaseEqual("close", value)));
    if CaseEqual("close", value) {
      assert ReadsAlike(s, facts, l);
    } else {
      assert ReadsAlike(s, facts, l);
    }
  }

  lemma SameClose(req: RequestFields)
    ensures req.(doClose := req.doClose) == req
  {
  }

  lemma ReadOtherHeader(s: DecoderState, facts: HeaderFacts, l: Line)
    requires Knows(s, facts) && (HeaderOf(l.name).UnknownHeader? || HeaderOf(l.name).DateHeader?)
    ensures ReadsAlike(s, facts, l)
  {
    hide MatchHttpHeader, ToUint32, Trimmed, CaseEqual;
  }

  // The line does not look like the end of the header.
  lemma StartsLine(s: DecoderState, name: string, w: string) returns (s': DecoderState)
    requires s.decodeFunction.DecodeHeaderLines? && s.isDecodingHeader && AllMatch(name, NameChars)
    ensures s' == s.(decodeFunction := DecodeHeaderName)
    ensures Passes(s, name + ":" + w, s', 0)
  {
    hide Loop;
    var v := name + ":" + w;
    assert v[0] == (name + ":")[0] && v[0] != '\r';
    assert Step(s, v) == GoTo(s, DecodeHeaderName, 0) by {
      hide StepName;
    }
    hide Step;
    s' := Goes(s, v);
  }

  lemma PassHeaderName(s: DecoderState, name: string, w: string) returns (s': DecoderState)
    requires s.decodeFunction.DecodeHeaderName? && s.isDecodingHeader && AllMatch(name, NameChars)
    ensures s' == s.(currentHeader := HeaderOf(name),
                     decodeFunction := if MatchHttpHeader(name).Some? then DecodeHeaderValue else SkipHeaderValue)
    ensures Passes(s, name + ":" + w, s', |name| + 1)
  {
    hide Loop, Step, MatchHttpHeader;
    var v := name + ":" + w;
    NameThen(s, name, w);
    assert ProcessName(s, name, ':', |name| + 1) == ProcessHeaderName(s, name, |name| + 1);
    s' := Goes(s, v);
  }

  lemma DropMatches(v: string, m: nat, cc: CharClass)
    requires AllMatch(v, cc) && m <= |v|
    ensures AllMatch(v[m..], cc)
  {
  }

  lemma SplitInside(a: string, b: string, m: nat)
    requires m <= |a|
    ensures (a + b)[m..] == a[m..] + b
    ensures (a + b)[m..|a|] == a[m..]
  {
  }

  // The spans of a value of field content, followed by the end of the line.
  lemma FieldSpans(value: string, w: string, m: nat)
    requires AllMatch(value, FieldContent) && m == Span(value, OptionalWhitespace)
    ensures Span(value + ("\r\n" + w), OptionalWhitespace) == m
    ensures Span((value + ("\r\n" + w))[m..], FieldContent) == |value| - m
    ensures (value + ("\r\n" + w))[m..|value|] == value[m..]
  {
    hide AllMatch;
    var end := "\r\n" + w;
    assert Span(end, OptionalWhitespace) == 0;
    SpanExtend(value, end, OptionalWhitespace);
    SplitInside(value, end, m);
    DropMatches(value, m, FieldContent);
    SpanOf(value[m..], end, FieldContent);
  }

  lemma PassHeaderValue(s: DecoderState, value: string, w: string, s1: DecoderState) returns (s': DecoderState)
    requires s.decodeFunction.DecodeHeaderValue? && s.isDecodingHeader && AllMatch(value, FieldContent)
    requires ApplyHeader(s, Trimmed(value)) == (ContinueDecoding, s1)
    ensures s' == s1.(decodeFunction := DecodeHeaderLineEnd)
    ensures Passes(s, value + ("\r\n" + w), s', |value|)
  {
    hide Loop, ApplyHeader, TrimTrailing;
    var v := value + ("\r\n" + w);
    var m := Span(value, OptionalWhitespace);
    FieldSpans(value, w, m);
    HeaderValueStep(s, v, m, |value| - m);
    hide Step, Span;
    s' := Goes(s, v);
  }

  lemma PassSkippedValue(s: DecoderState, value: string, w: string) returns (s': DecoderState)
    requires s.decodeFunction.SkipHeaderValue? && s.isDecodingHeader && '\r' !in value
    ensures s' == s.(decodeFunction := DecodeHeaderLineEnd)
    ensures Passes(s, value + ("\r\n" + w), s', |value|)
  {
    hide Loop;
    var v := value + ("\r\n" + w);
    assert v[..|value|] == value && v[|value|] == '\r';
    IndexOfIs(v, '\r', |value|);
    assert Step(s, v) == GoTo(s, DecodeHeaderLineEnd, |value|) by {
      hide StepName, IndexOf;
    }
    hide Step;
    s' := Goes(s, v);
  }

  lemma PassLineEnd(s: DecoderState, w: string) returns (s': DecoderState)
    requires s.decodeFunction.DecodeHeaderLineEnd? && s.isDecodingHeader
    ensures s' == s.(decodeFunction := DecodeHeaderLines)
    ensures Passes(s, "\r\n" + w, s', 2)
  {
    hide Loop;
    assert Step(s, "\r\n" + w) == GoTo(s, DecodeHeaderLines, 2) by {
      hide StepName;
    }
    hide Step;
    s' := Goes(s, "\r\n" + w);
  }

  // A header line.
  lemma PassLine(s: DecoderState, l: Line, w: string, s1: DecoderState) returns (s': DecoderState)
    requires s.decodeFunction.DecodeHeaderLines? && s.isDecodingHeader && LineOk(l)
    requires ApplyHeader(s.(currentHeader := HeaderOf(l.name)), Trimmed(l.value)).0.ContinueDecoding?
    requires s1 == ApplyHeader(s.(currentHeader := HeaderOf(l.name)), Trimmed(l.value)).1
    requires s1.decodeFunction == s.decodeFunction && s1.isDecodingHeader
    ensures s' == s1.(decodeFunction := DecodeHeaderLines)
    ensures Passes(s, LineText(l) + w, s', |LineText(l)|)
  {
    hide Loop, Trimmed, TrimTrailing, Span, Passes;
    var v, tail := LineText(l) + w, l.value + ("\r\n" + w);
    assert v == l.name + ":" + tail;
    var a := StartsLine(s, l.name, tail);
    assert v[0..] == v;
    var b := PassHeaderName(a, l.name, tail);
    PassesTransitive(s, v, a, 0, b, |l.name| + 1);
    SplitAt(l.name + ":", tail);
    var c;
    if MatchHttpHeader(l.name).Some? {
      HeaderIgnoresFunction(s, b, l);
      c := PassHeaderValue(b, l.value, w, s1.(decodeFunction := DecodeHeaderValue));
    } else {
      c := PassSkippedValue(b, l.value, w);
    }
    PassesTransitive(s, v, b, |l.name| + 1, c, |l.value|);
    SplitAt(l.value, "\r\n" + w);
    SplitTwice(v, |l.name| + 1, |l.value|);
    s' := PassLineEnd(c, w);
    PassesTransitive(s, v, c, |l.name| + 1 + |l.value|, s', 2);
  }

  lemma HeaderIgnoresFunction(s: DecoderState, s': DecoderState, l: Line)
    requires s' == s.(currentHeader := HeaderOf(l.name), decodeFunction := s'.decodeFunction)
    ensures var r := ApplyHeader(s.(currentHeader := HeaderOf(l.name)), Trimmed(l.value));
      ApplyHeader(s', Trimmed(l.value)) == (r.0, r.1.(decodeFunction := s'.decodeFunction))
  {
    hide MatchHttpHeader, ToUint32, Trimmed, CaseEqual;
  }

  // About to look at a header line, having read these facts from the ones before.
  ghost predicate AtLine(s: DecoderState, s': DecoderState, facts: HeaderFacts) {
    && s'.decodeFunction.DecodeHeaderLines? && s'.isDecodingHeader && Knows(s', facts)
    && ButClose(s'.request) == ButClose(s.request)
    && s'.isFinalInput == s.isFinalInput && s'.decoderStatus == s.decoderStatus
  }

  lemma AtNextLine(s: DecoderState, s': DecoderState, facts: HeaderFacts)
    requires AtLine(s, s', facts)
    ensures AtLine(s', s', facts) && s'.request.httpMethod == s.request.httpMethod
    ensures forall s'', read :: AtLine(s', s'', read) ==> AtLine(s, s'', read)
  {
    assert ButClose(s.request).httpMethod == ButClose(s'.request).httpMethod;
    hide ButClose;
  }

  // A header line, as a fact learned.
  lemma PassFact(s: DecoderState, l: Line, w: string, facts: HeaderFacts, read: HeaderFacts)
    returns (s': DecoderState)
    requires AtLine(s, s, facts) && LineOk(l)
    requires ReadLine(s.request.httpMethod, facts, l) == Some(read)
    ensures AtLine(s, s', read)
    ensures Passes(s, LineText(l) + w, s', |LineText(l)|)
  {
    hide Loop, ApplyHeader, ReadLine, Trimmed, LineText, Passes, HeaderOf, ButClose, LineOk;
    ReadLineIsApplyHeader(s, facts, l);
    var s1 := ApplyHeader(s.(currentHeader := HeaderOf(l.name)), Trimmed(l.value)).1;
    s' := PassLine(s, l, w, s1);
    ButCloseOf(s.request, read.close);
  }

  lemma {:induction false} PassLines(s: DecoderState, ls: seq<Line>, w: string, facts: HeaderFacts, read: HeaderFacts)
    returns (s': DecoderState)
    requires AtLine(s, s, facts) && LinesOk(ls)
    requires ReadLines(s.request.httpMethod, facts, ls) == Some(read)
    ensures AtLine(s, s', read)
    ensures Passes(s, LinesText(ls) + w, s', |LinesText(ls)|)
    decreases |ls|
  {
    hide Loop, ApplyHeader, ReadLine, Trimmed, LineText, Passes, LinesText, AtLine, LineOk;
    LinesParts(ls, w);
    if ls == [] {
      s' := s;
      PassesNothing(s, w);
    } else {
      var l, more := ls[0], ls[1..];
      var t, next := LineText(l), LinesText(more) + w;
      var facts1 := ReadLine(s.request.httpMethod, facts, l).value;
      var s2 := PassFact(s, l, next, facts, facts1);
      SplitAt(t, next);
      AtNextLine(s, s2, facts1);
      s' := PassLines(s2, more, w, facts1, read);
      PassesTransitive(s, t + next, s2, |t|, s', |LinesText(more)|);
    }
  }

  lemma PassesNothing(s: DecoderState, v: string)
    ensures Passes(s, v, s, 0)
  {
    hide Loop;
    assert v[0..] == v;
  }

  lemma LinesParts(ls: seq<Line>, w: string)
    ensures ls == [] ==> LinesText(ls) == "" && LinesText(ls) + w == w
    ensures ls != [] ==>
      && LinesText(ls) + w == LineText(ls[0]) + (LinesText(ls[1..]) + w)
      && |LinesText(ls)| == |LineText(ls[0])| + |LinesText(ls[1..])|
  {
    hide LineText;
  }

  // Taking apart the value of a header whose value is decoded.
  lemma FieldIn(s: DecoderState, v: string) returns (value: string, w: string)
    requires s.decodeFunction.DecodeHeaderValue? && Step(s, v).status.ContinueDecoding?
    ensures v == value + w && AllMatch(value, FieldContent)
    ensures Step(s, v).used == |value| && Step(s, v).state.decodeFunction == DecodeHeaderLineEnd
    ensures Step(s, v).state.isDecodingHeader == s.isDecodingHeader
    ensures w != "" && !Matches(FieldContent, w[0])
    ensures ApplyHeader(s, Trimmed(value)).0.ContinueDecoding?
  {
    hide ApplyHeader, TrimTrailing, Span, Step;
    var m := Span(v, OptionalWhitespace);
    var n := Span(v[m..], FieldContent);
    HeaderValueStep(s, v, m, n);
    SpanIsLongest(v, OptionalWhitespace);
    SpanIsLongest(v[m..], FieldContent);
    value, w := v[..m + n], v[m + n..];
    FieldParts(v, m, n);
    SpanExtend(value[..m], value[m..], OptionalWhitespace);
    StepProgress(s, v);
    StepHeaderValueKeepsHeader(s, v, m, n);
  }

  lemma StepHeaderValueKeepsHeader(s: DecoderState, v: string, m: nat, n: nat)
    requires m + n <= |v|
    ensures var r := ProcessHeaderValue(s, v[m..m + n], m + n);
      && r.used == m + n && r.state.isDecodingHeader == s.isDecodingHeader
      && (r.status.ContinueDecoding? ==> r.state.decodeFunction == DecodeHeaderLineEnd)
      && (r.status.ContinueDecoding? <==> ApplyHeader(s, TrimTrailing(v[m..m + n])).0.ContinueDecoding?)
  {
    hide ToUint32, CaseEqual, TrimTrailing;
  }

  lemma FieldParts(v: string, m: nat, n: nat)
    requires m + n < |v| && AllMatch(v[..m], OptionalWhitespace) && AllMatch(v[m..][..n], FieldContent)
    requires Span(v, OptionalWhitespace) == m && !Matches(FieldContent, v[m..][n])
    ensures var value := v[..m + n];
      && AllMatch(value, FieldContent) && Span(value, OptionalWhitespace) == m && value[m..] == v[m..m + n]
      && v[m + n] == v[m..][n]
  {
    var value := v[..m + n];
    assert value == v[..m] + v[m..][..n];
    assert value[..m] == v[..m];
    SpanIsLongest(v, OptionalWhitespace);
    assert n > 0 ==> value[m] == v[m];
    SpanIs(value, OptionalWhitespace, m);
  }

  // Taking apart the value of a header whose value is skipped.
  lemma SkippedIn(s: DecoderState, v: string) returns (value: string, w: string)
    requires s.decodeFunction.SkipHeaderValue? && Step(s, v).status.ContinueDecoding?
    requires s.currentHeader.UnknownHeader?
    ensures v == value + w && '\r' !in value
    ensures Step(s, v) == GoTo(s, DecodeHeaderLineEnd, |value|)
    ensures ApplyHeader(s, Trimmed(value)).0.ContinueDecoding?
  {
    hide StepName, StepDecodeHeaderValue, StepDecodeParamValue, StepDecodeParamSeparator, Trimmed;
    var n := IndexOf(v, '\r');
    IndexOfIsFirst(v, '\r');
    value, w := v[..n], v[n..];
  }

  // Either kind of value, and the end of its line.
  lemma RestOfLineIn(s: DecoderState, l: string, v: string) returns (value: string, w: string)
    requires s.isDecodingHeader && Succeeds(s, v) && s.currentHeader == HeaderOf(l)
    requires s.decodeFunction == if MatchHttpHeader(l).Some? then DecodeHeaderValue else SkipHeaderValue
    ensures v == value + ("\r\n" + w)
    ensures if MatchHttpHeader(l).Some? then AllMatch(value, FieldContent) else '\r' !in value
    ensures ApplyHeader(s, Trimmed(value)).0.ContinueDecoding?
  {
    hide Loop, Step, Passes, Succeeds, ApplyHeader, Trimmed;
    MustGoOn(s, v);
    var rest;
    if MatchHttpHeader(l).Some? {
      value, rest := FieldIn(s, v);
    } else {
      value, rest := SkippedIn(s, v);
    }
    var c := Goes(s, v);
    StillSucceeds(s, v, c, |value|);
    SplitAt(value, rest);
    w := LineEndIn(c, rest);
  }

  // A step that succeeds at the end of a line finds it there.
  lemma LineEndIn(s: DecoderState, v: string) returns (w: string)
    requires s.decodeFunction.DecodeHeaderLineEnd? && s.isDecodingHeader && Succeeds(s, v)
    ensures v == "\r\n" + w
  {
    MustGoOn(s, v);
    w := v[2..];
    hide Loop, StepName;
  }

  lemma StepAtLineStart(s: DecoderState, v: string)
    requires s.decodeFunction.DecodeHeaderLines? && s.isDecodingHeader && Succeeds(s, v)
    requires !("\r\n" <= v)
    ensures Step(s, v) == GoTo(s, DecodeHeaderName, 0)
  {
    assert Step(s, v) == StepDecodeHeaderLines(s, v) by {
      hide StepName, StepDecodeHeaderLines;
    }
    LoopUnfolds(s, v);
    hide Step, Loop;
  }

  // The header line at the start of a view, and what remains after its value.
  lemma LineIn(s: DecoderState, v: string) returns (l: Line, w: string)
    requires s.decodeFunction.DecodeHeaderLines? && s.isDecodingHeader && Succeeds(s, v)
    requires !("\r\n" <= v)
    ensures v == LineText(l) + w && LineOk(l)
    ensures ApplyHeader(s.(currentHeader := HeaderOf(l.name)), Trimmed(l.value)).0.ContinueDecoding?
  {
    hide Loop, Step, Passes, Succeeds, ApplyHeader, Trimmed, HeaderOf, MatchHttpHeader;
    StepAtLineStart(s, v);
    var a := Goes(s, v);
    assert v[0..] == v;
    StillSucceeds(s, v, a, 0);
    MustGoOn(a, v);
    var name, tail := NameIn(a, v);
    var b := PassHeaderName(a, name, tail);
    SplitAt(name + ":", tail);
    StillSucceeds(a, v, b, |name| + 1);
    var value;
    value, w := RestOfLineIn(b, name, tail);
    l := Line(name, value);
    HeaderIgnoresFunction(s, b, l);
    assert LineText(l) + w == name + ":" + (value + ("\r\n" + w));
  }

  // The header lines at the start of a view, up to the empty line.
  lemma {:induction false} LinesIn(s: DecoderState, v: string, facts: HeaderFacts)
    returns (ls: seq<Line>, w: string, read: HeaderFacts)
    requires AtLine(s, s, facts) && Succeeds(s, v)
    ensures LinesOk(ls) && ReadLines(s.request.httpMethod, facts, ls) == Some(read)
    ensures v == LinesText(ls) + ("\r\n" + w)
    decreases |v|
  {
    hide Loop, ApplyHeader, ReadLine, Trimmed, LineText, Passes, LinesText, LineOk, Succeeds;
    if "\r\n" <= v {
      ls, w, read := [], v[2..], facts;
      LinesParts(ls, "\r\n" + w);
    } else {
      var l, rest := LineIn(s, v);
      ReadLineIsApplyHeader(s, facts, l);
      var facts1 := ReadLine(s.request.httpMethod, facts, l).value;
      var s1 := PassFact(s, l, rest, facts, facts1);
      StillSucceeds(s, v, s1, |LineText(l)|);
      SplitAt(LineText(l), rest);
      LineNotEmpty(l);
      AtNextLine(s, s1, facts1);
      var more;
      more, w, read := LinesIn(s1, rest, facts1);
      ls := [l] + more;
      assert ls[1..] == more;
      LinesParts(ls, "\r\n" + w);
    }
  }

  lemma LineNotEmpty(l: Line)
    ensures |LineText(l)| > 0
  {
  }
}
