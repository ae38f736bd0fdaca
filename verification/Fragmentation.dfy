// How the bytes of a request are sliced into buffers does not matter.

module Fragmentation {
  import opened Ints
  import opened Text
  import opened Protocol
  import opened DecoderSpec

  // s, but told whether the view holds the rest of the body.
  function Final(s: DecoderState, b: bool): DecoderState { s.(isFinalInput := b) }

  // What more text does to a step: an outcome that did not need it stays the
  // same, and one that did is replaced by the step from where it stopped.
  // (At the end of the header of a PUT, "needs more" means the body.)
  ghost predicate Stable(s: DecoderState, v: string, w: string, b: bool) {
    var r := Step(s, v);
    var later := Step(Final(s, b), v + w);
    && r.used <= |v|
    && (if r.status.NeedMoreInput? && r.state.isDecodingHeader == s.isDecodingHeader then
          && r.state == s
          && var again := Step(Final(s, b), v[r.used..] + w);
          later == Outcome(again.status, again.state, r.used + again.used)
        else
          later == r.(state := Final(r.state, b)))
  }

  // The text in which a run of name characters ends does not change when more arrives.
  lemma NameExtend(v: string, w: string)
    ensures var n, m := Span(v, NameChars), Span(v + w, NameChars);
      && (n < |v| ==> m == n && (v + w)[..n] == v[..n] && (v + w)[n] == v[n])
  {
    SpanExtend(v, w, NameChars);
  }

  lemma StableName(s: DecoderState, v: string, w: string)
    requires TakesTerminatedName(s.decodeFunction) || TakesAnyName(s.decodeFunction)
    requires !s.isFinalInput
    ensures Stable(s, v, w, false)
  {
    hide Step;
    NameStep(s, v, w);
    assert Final(s, false) == s;
    assert v[0..] == v;
    StepNameProgress(s, v);
  }

  lemma NameStep(s: DecoderState, v: string, w: string)
    requires TakesTerminatedName(s.decodeFunction) || TakesAnyName(s.decodeFunction)
    ensures Span(v, NameChars) < |v| ==> Step(s, v + w) == Step(s, v)
    ensures Span(v, NameChars) < |v| ==> !Step(s, v).status.NeedMoreInput?
    ensures Span(v, NameChars) == |v| ==> Step(s, v) == Outcome(NeedMoreInput, s, 0)
  {
    hide ProcessName, Span, StepDecodeHeaderValue, StepSkipHeaderValue, StepDecodeParamValue, StepDecodeParamSeparator;
    NameExtend(v, w);
    var n := Span(v, NameChars);
    if n < |v| {
      NameNeedsNoMore(s, v[..n], v[n], n);
      NameNeedsNoMore(s, v[..n], v[n], n + 1);
    }
  }

  lemma NameNeedsNoMore(s: DecoderState, text: string, next: char, used: nat)
    ensures !ProcessName(s, text, next, used).status.NeedMoreInput?
  {
    hide MatchHttpMethod, MatchApiGroup, MatchDeviceType, MatchDeviceMethod, MatchManagementMethod,
         MatchHttpHeader, MatchParameter, ToUint32;
  }

  // Whether v is, or starts with, p does not change once they differ or p ends.
  lemma PrefixExtend(p: string, v: string, w: string)
    ensures p <= v ==> p <= v + w
    ensures !(v <= p) && !(p <= v) ==> !(v + w <= p) && !(p <= v + w)
    ensures |v| >= |p| && !(p <= v) ==> !(p <= v + w)
  {
    if !(v <= p) && !(p <= v) {
      var k :| 0 <= k < |v| && k < |p| && v[k] != p[k];
      assert (v + w)[k] == v[k];
    }
  }

  lemma StableLine(s: DecoderState, v: string, w: string)
    requires s.decodeFunction.MatchStartOfPath? || s.decodeFunction.DecodeEndOfPath?
             || s.decodeFunction.MatchHttpVersion? || s.decodeFunction.DecodeHeaderLines?
             || s.decodeFunction.DecodeHeaderLineEnd?
    requires s.isDecodingHeader && !s.isFinalInput
    requires s.decodeFunction.DecodeEndOfPath? ==> v != ""
    ensures Stable(s, v, w, false)
  {
    assert Final(s, false) == s;
    assert v[0..] == v;
    PrefixExtend(END_OF_HEADER_LINE, v, w);
    PrefixExtend(HTTP_VERSION_END_OF_LINE, v, w);
    hide StepName, StepDecodeHeaderValue, StepSkipHeaderValue, StepDecodeParamValue, StepDecodeParamSeparator;
  }

  lemma StableSkipHeaderValue(s: DecoderState, v: string, w: string)
    requires s.decodeFunction.SkipHeaderValue? && !s.isFinalInput
    ensures Stable(s, v, w, false)
  {
    hide IndexOf, StepName, StepDecodeParamValue, StepDecodeParamSeparator, StepDecodeHeaderLines,
         StepDecodeHeaderValue, StepDecodeHeaderLineEnd;
    assert Final(s, false) == s;
    IndexOfExtend(v, w, '\r');
    assert v[|v|..] + w == w;
  }

  // The value of a header that begins at m and has n characters in view.
  lemma HeaderValueStep(s: DecoderState, v: string, m: nat, n: nat)
    requires s.decodeFunction.DecodeHeaderValue?
    requires m <= |v| && m == Span(v, OptionalWhitespace)
    requires m + n <= |v| && n == Span(v[m..], FieldContent)
    ensures Step(s, v) == if m + n == |v| then Outcome(NeedMoreInput, s, m)
                          else ProcessHeaderValue(s, v[m..m + n], m + n)
  {
    hide ProcessHeaderValue, Span, StepName, StepSkipHeaderValue, StepDecodeParamValue,
         StepDecodeParamSeparator, StepDecodeHeaderLines, StepMatchHttpVersion, StepDecodeHeaderLineEnd;
  }

  // The spans of a header value in v + w, when it ends in v.
  lemma ValueEnds(v: string, w: string, m: nat, n: nat)
    requires m == Span(v, OptionalWhitespace) < |v|
    requires n == Span(v[m..], FieldContent) && m + n < |v|
    ensures Span(v + w, OptionalWhitespace) == m
    ensures Span((v + w)[m..], FieldContent) == n
    ensures (v + w)[m..m + n] == v[m..m + n]
  {
    SpanExtend(v, w, OptionalWhitespace);
    SpanExtend(v[m..], w, FieldContent);
    assert (v + w)[m..] == v[m..] + w;
  }

  // The spans when it begins in v but does not end there.
  lemma ValueContinues(v: string, w: string, m: nat)
    requires m == Span(v, OptionalWhitespace) < |v|
    ensures Span(v + w, OptionalWhitespace) == m
    ensures (v + w)[m..] == v[m..] + w
    ensures Span(v[m..] + w, OptionalWhitespace) == 0
  {
    SpanExtend(v, w, OptionalWhitespace);
    SpanIsLongest(v, OptionalWhitespace);
  }

  // The spans when v is nothing but whitespace.
  lemma ValueBegins(v: string, w: string, j: nat)
    requires Span(v, OptionalWhitespace) == |v|
    requires j == Span(w, OptionalWhitespace)
    ensures Span(v + w, OptionalWhitespace) == |v| + j
    ensures (v + w)[|v| + j..] == w[j..]
  {
    SpanExtend(v, w, OptionalWhitespace);
  }

  lemma SliceOfSuffix(v: string, m: nat, k: nat)
    requires m + k <= |v|
    ensures v[m..][..k] == v[m..m + k]
  {
  }

  lemma ProcessHeaderValueShift(s: DecoderState, raw: string, used: nat, d: nat)
    ensures var r := ProcessHeaderValue(s, raw, used);
      ProcessHeaderValue(s, raw, used + d) == Outcome(r.status, r.state, r.used + d)
  {
    hide ApplyHeader;
  }

  // What is left to show of a step whose outcome is known.
  lemma StableIs(s: DecoderState, v: string, w: string)
    requires s.decodeFunction.DecodeHeaderValue? && !s.isFinalInput
    ensures Step(s, v).used <= |v| && Final(s, false) == s
    ensures !Step(s, v).status.NeedMoreInput? && Step(s, v + w) == Step(s, v) ==> Stable(s, v, w, false)
    ensures var r := Step(s, v); r.used <= |v| ==>
      var again := Step(s, v[r.used..] + w);
      r.status.NeedMoreInput? && r.state == s && Step(s, v + w) == Outcome(again.status, again.state, r.used + again.used)
      ==> Stable(s, v, w, false)
  {
    hide Step;
    StepHeaderValueProgress(s, v);
    KeepsHeaderFlag(s, v);
  }

  lemma ValueNeedsNoMore(s: DecoderState, raw: string, used: nat)
    ensures !ProcessHeaderValue(s, raw, used).status.NeedMoreInput?
  {
    hide ToUint32, CaseEqual, TrimTrailing;
  }

  lemma KeepsHeaderFlag(s: DecoderState, v: string)
    requires s.decodeFunction.DecodeHeaderValue?
    ensures var r := Step(s, v); r.state.isFinalInput == s.isFinalInput && Final(r.state, s.isFinalInput) == r.state
  {
    hide Step;
    StepHeaderValueProgress(s, v);
  }

  lemma StableHeaderValue(s: DecoderState, v: string, w: string)
    requires s.decodeFunction.DecodeHeaderValue? && !s.isFinalInput
    ensures Stable(s, v, w, false)
  {
    hide *;
    StableIs(s, v, w);
    var m := Span(v, OptionalWhitespace);
    var n := Span(v[m..], FieldContent);
    HeaderValueStep(s, v, m, n);
    if m == |v| {
      StableAllWhitespace(s, v, w);
    } else if m + n == |v| {
      StableOpenValue(s, v, w, m);
    } else {
      ValueEnds(v, w, m, n);
      HeaderValueStep(s, v + w, m, n);
      ValueNeedsNoMore(s, v[m..m + n], m + n);
    }
  }

  lemma StableAllWhitespace(s: DecoderState, v: string, w: string)
    requires s.decodeFunction.DecodeHeaderValue?
    requires Span(v, OptionalWhitespace) == |v|
    ensures v[|v|..] + w == w
    ensures var again := Step(s, w); Step(s, v + w) == Outcome(again.status, again.state, |v| + again.used)
  {
    hide *;
    var j := Span(w, OptionalWhitespace);
    var k := Span(w[j..], FieldContent);
    ValueBegins(v, w, j);
    SliceOfSuffix(v + w, |v| + j, k);
    SliceOfSuffix(w, j, k);
    HeaderValueStep(s, v + w, |v| + j, k);
    HeaderValueStep(s, w, j, k);
    ProcessHeaderValueShift(s, w[j..j + k], j + k, |v|);
  }

  lemma StableOpenValue(s: DecoderState, v: string, w: string, m: nat)
    requires s.decodeFunction.DecodeHeaderValue?
    requires m == Span(v, OptionalWhitespace) < |v|
    ensures var again := Step(s, v[m..] + w);
      Step(s, v + w) == Outcome(again.status, again.state, m + again.used)
  {
    hide *;
    ValueContinues(v, w, m);
    var text := v[m..] + w;
    assert text[0..] == text;
    var k := Span(text, FieldContent);
    SliceOfSuffix(v + w, m, k);
    SliceOfSuffix(text, 0, k);
    HeaderValueStep(s, v + w, m, k);
    HeaderValueStep(s, text, 0, k);
    ProcessHeaderValueShift(s, text[..k], k, m);
  }

  lemma StableParamName(s: DecoderState, v: string, w: string, b: bool)
    requires s.decodeFunction.DecodeParamName? && !s.isFinalInput
    ensures Stable(s, v, w, b)
  {
    NameExtend(v, w);
    SpanExtend(v, w, NameChars);
    assert v[0..] == v;
    hide MatchParameter, Span;
  }

  lemma StableParamValue(s: DecoderState, v: string, w: string, b: bool)
    requires s.decodeFunction.DecodeParamValue? && !s.isFinalInput
    requires b ==> !s.isDecodingHeader
    ensures Stable(s, v, w, b)
  {
    var n := Span(v, ParamValueChars);
    SpanExtend(v, w, ParamValueChars);
    assert v[0..] == v;
    assert n < |v| ==> (v + w)[..n] == v[..n];
    hide StoreParameter, Span, StepName;
  }

  // Dropping all but the last of a run of separators leaves the run unfinished.
  lemma SeparatorsLeft(v: string, w: string, used: nat)
    requires Span(v, ParamSeparators) == |v|
    requires used == if |v| > 1 then |v| - 1 else 0
    ensures var rest := v[used..] + w;
      && Span(rest, ParamSeparators) == Span(v + w, ParamSeparators) - used
      && (v + w)[used..] == rest
  {
    SpanIsLongest(v, ParamSeparators);
    var last := v[used..];
    assert AllMatch(last[..|last|], ParamSeparators) by {
      assert v[..|v|] == v && last[..|last|] == last;
    }
    SpanIs(last, ParamSeparators, |last|);
    SpanExtend(last, w, ParamSeparators);
    SpanExtend(v, w, ParamSeparators);
  }

  // Separators are dropped while they are all there is, but never the last one.
  lemma StableParamSeparator(s: DecoderState, v: string, w: string, b: bool)
    requires s.decodeFunction.DecodeParamSeparator? && !s.isFinalInput
    requires b ==> !s.isDecodingHeader
    ensures Stable(s, v, w, b)
  {
    hide StepName, StepDecodeParamValue, StepDecodeHeaderLines, StepDecodeHeaderValue, StepSkipHeaderValue,
         StepDecodeHeaderLineEnd, Span;
    var n := Span(v, ParamSeparators);
    if n == |v| {
      var used := if n > 1 then n - 1 else 0;
      SeparatorsLeft(v, w, used);
      assert Step(s, v) == Outcome(NeedMoreInput, s, used);
    } else {
      SpanExtend(v, w, ParamSeparators);
      assert (v + w)[n] == v[n];
    }
  }

  lemma StepStable(s: DecoderState, v: string, w: string, b: bool)
    requires WellFormed(s) && !s.isFinalInput
    requires s.decodeFunction.DecodeEndOfPath? ==> v != ""
    requires b ==> !s.isDecodingHeader
    ensures Stable(s, v, w, b)
  {
    hide Step, Stable;
    match s.decodeFunction
    case DecodeParamName => StableParamName(s, v, w, b);
    case DecodeParamValue => StableParamValue(s, v, w, b);
    case DecodeParamSeparator => StableParamSeparator(s, v, w, b);
    case DecodeHeaderValue => StableHeaderValue(s, v, w);
    case SkipHeaderValue => StableSkipHeaderValue(s, v, w);
    case MatchStartOfPath | DecodeEndOfPath | MatchHttpVersion | DecodeHeaderLines
       | DecodeHeaderLineEnd => StableLine(s, v, w);
    case _ => StableName(s, v, w);
  }

  // The same for an iteration of a loop, which in the body also counts.
  ghost predicate AdvanceStable(s: DecoderState, v: string, w: string, b: bool) {
    var r := Advance(s, v);
    var later := Advance(Final(s, b), v + w);
    if r.status.NeedMoreInput? && r.state.isDecodingHeader == s.isDecodingHeader then
      && r.used <= |v|
      && var again := Advance(Final(r.state, b), v[r.used..] + w);
      later == Outcome(again.status, again.state, r.used + again.used)
    else
      later == r.(state := Final(r.state, b))
  }

  lemma AdvanceExtend(s: DecoderState, v: string, w: string, b: bool)
    requires Ready(s, v) && !s.isFinalInput
    requires b ==> !s.isDecodingHeader
    ensures AdvanceStable(s, v, w, b)
  {
    hide Step;
    StepStable(s, v, w, b);
    StepKeeps(s, v);
    var r := Step(s, v);
    if r.status.NeedMoreInput? && r.state.isDecodingHeader == s.isDecodingHeader {
      var n := if s.isDecodingHeader then s.remaining else (s.remaining - r.used) % 0x1_0000;
      StepIgnoresRemaining(Final(s, b), v[r.used..] + w, n);
      SubtractTwice(s.remaining, r.used, Step(Final(s, b), v[r.used..] + w).used);
    }
  }

  // Subtracting twice from a 16-bit counter is subtracting the sum.
  lemma SubtractTwice(n: int, a: nat, b: nat)
    ensures ((n - a) % 0x1_0000 - b) % 0x1_0000 == (n - (a + b)) % 0x1_0000
  {
  }

  // In the body no step reads or writes the remaining content length.
  lemma StepIgnoresRemaining(s: DecoderState, v: string, n: uint16)
    requires WellFormed(s)
    ensures s.isDecodingHeader && n == s.remaining ==> Step(s.(remaining := n), v) == Step(s, v)
    ensures !s.isDecodingHeader ==>
      var r := Step(s, v);
      r.state.remaining == s.remaining && Step(s.(remaining := n), v) == r.(state := r.state.(remaining := n))
  {
    hide Span, MatchParameter, StoreParameter;
    assert s.isDecodingHeader && n == s.remaining ==> s.(remaining := n) == s;
  }

  // The same for a loop: decoding v and then, from where that stopped, the rest
  // with w appended, is decoding v + w.
  ghost predicate LoopStable(s: DecoderState, v: string, w: string, b: bool) {
    var r := Loop(s, v);
    var later := Loop(Final(s, b), v + w);
    if r.status.NeedMoreInput? && r.state.isDecodingHeader == s.isDecodingHeader then
      var again := Loop(Final(r.state, b), v[r.used..] + w);
      later == Outcome(again.status, again.state, r.used + again.used)
    else
      later == r.(state := Final(r.state, b))
  }

  lemma {:induction false} LoopExtend(s: DecoderState, v: string, w: string, b: bool)
    requires Ready(s, v) && !s.isFinalInput && (!s.isDecodingHeader ==> |v| <= s.remaining)
    requires b ==> !s.isDecodingHeader
    ensures LoopStable(s, v, w, b)
    decreases |v|, Rank(s.decodeFunction)
  {
    hide Step, Advance;
    AdvanceKeeps(s, v);
    AdvanceExtend(s, v, w, b);
    var r := Advance(s, v);
    if r.status.ContinueDecoding? {
      LoopExtend(r.state, v[r.used..], w, b);
      LoopGoesOn(s, v, w, b);
    } else if r.status.NeedMoreInput? && r.state.isDecodingHeader == s.isDecodingHeader {
      LoopAgain(Final(s, b), v + w, Final(r.state, b), v[r.used..] + w, r.used);
    }
  }

  lemma LoopGoesOn(s: DecoderState, v: string, w: string, b: bool)
    requires var r := Advance(s, v);
      && r.status.ContinueDecoding? && r.state.isDecodingHeader == s.isDecodingHeader
      && Advance(Final(s, b), v + w) == r.(state := Final(r.state, b))
      && LoopStable(r.state, v[r.used..], w, b)
    ensures LoopStable(s, v, w, b)
  {
    hide Step, Advance, Final;
    var r := Advance(s, v);
    var rest := v[r.used..];
    assert (v + w)[r.used..] == rest + w;
    var q := Loop(r.state, rest);
    assert rest[q.used..] == v[r.used + q.used..];
  }

  // Loops whose first iterations agree, but for what they consume, agree.
  lemma LoopAgain(s: DecoderState, v: string, s': DecoderState, v': string, used: nat)
    requires used <= |v| && v' == v[used..]
    requires var a := Advance(s', v'); Advance(s, v) == Outcome(a.status, a.state, used + a.used)
    requires Advance(s', v').used <= |v'|
    ensures var q := Loop(s', v'); Loop(s, v) == Outcome(q.status, q.state, used + q.used)
  {
    hide Step, Advance;
    var a := Advance(s', v');
    assert v[used..][a.used..] == v[used + a.used..];
  }

  // ------------------------------------------------------------- Whole buffers

  // One call of DecodeBuffer while there is room in the buffer and the peer may send more.
  function Decode(s: DecoderState, v: string): (r: Outcome)
    ensures r.used <= |v| && !r.status.ContinueDecoding?
  {
    DecodeBuffer(s, v, false, false)
  }

  function Started(s: DecoderState): DecoderState {
    if s.decoderStatus == Reset then s.(decoderStatus := Decoding) else s
  }

  // What DecodeBuffer records when the decoding of a request is over.
  function Finish(r: Outcome): Outcome {
    if r.status.IsFinal() then r.(state := r.state.(decodeFunction := NoFunction, decoderStatus := Decoded)) else r
  }

  function Shift(r: Outcome, used: nat): Outcome { r.(used := used + r.used) }

  // The view ends after the body that its header announces: bytes that the
  // client sent after the body have reached the same buffer.
  ghost predicate RunsPastBody(s: DecoderState, v: string) {
    if !s.isDecodingHeader then |v| > s.remaining
    else
      var r := Loop(Started(s), v);
      r.status.NeedMoreInput? && !r.state.isDecodingHeader && |v| - r.used > r.state.remaining
  }

  // DecodeMessageBody when the client waits for the response before it sends more.
  function BodyAlone(s: DecoderState, v: string): (r: Outcome)
    requires !s.isDecodingHeader
    ensures r.used <= |v|
  {
    DecodeMessageBody(s, if |v| > s.remaining then v[..s.remaining] else v, false)
  }

  // Decoding that never looks past the end of a body: the reference that does
  // not depend on slicing. It differs from Decode only when the view runs past
  // the body.
  function Reference(s: DecoderState, v: string): (r: Outcome)
    ensures r.used <= |v|
  {
    var s := Started(s);
    if !s.isDecodingHeader then Finish(BodyAlone(s, v))
    else
      var r := Loop(s, v);
      if r.status.NeedMoreInput? && !r.state.isDecodingHeader then
        Finish(Shift(BodyAlone(r.state, v[r.used..]), r.used))
      else
        Finish(r)
  }

  lemma DecodeIsReference(s: DecoderState, v: string)
    requires AtRest(s) && !RunsPastBody(s, v)
    ensures Decode(s, v) == Reference(s, v)
  {
    hide Loop;
  }

  // The same outcome, but for the flag that says whether the last view was known
  // to be the last. (Nothing reads the flag once the request is decoded.)
  ghost predicate Same(a: Outcome, b: Outcome) {
    a.status == b.status && a.used == b.used && Final(a.state, false) == Final(b.state, false)
  }

  // Decoding v, when it does not run past the body, commits to what decoding
  // v + w gives: the outcome, or else the outcome from where it stopped.
  ghost predicate Commits(s: DecoderState, v: string, w: string) {
    var r := Decode(s, v);
    && r.used <= |v|
    && if r.status.NeedMoreInput? then
        var rest := v[r.used..] + w;
        && AtRest(r.state)
        && (RunsPastBody(s, v + w) <==> RunsPastBody(r.state, rest))
        && Same(Reference(s, v + w), Shift(Reference(r.state, rest), r.used))
      else
        Same(Reference(s, v + w), r)
  }

  // Commits for a body: B is the state and v the part of the body in view.
  ghost predicate BodyCommits(s: DecoderState, v: string, w: string)
    requires !s.isDecodingHeader
  {
    var r := BodyAlone(s, v);
    var later := BodyAlone(s, v + w);
    && r.used <= |v|
    && if r.status.NeedMoreInput? then
        var rest := v[r.used..] + w;
        && !r.state.isDecodingHeader && AtRest(r.state) && r.state.decoderStatus == s.decoderStatus
        && r.state.remaining == s.remaining - r.used
        && Same(later, Shift(BodyAlone(r.state, rest), r.used))
      else
        Same(later, r)
  }

  lemma BodyExtend(s: DecoderState, v: string, w: string)
    requires AtRest(s) && !s.isDecodingHeader && |v| <= s.remaining
    ensures BodyCommits(s, v, w)
  {
    hide Loop;
    if |v| == s.remaining {
      assert (v + w)[..s.remaining] == v && v[..s.remaining] == v;
      assert w == "" ==> v + w == v;
    } else {
      var x := if |v + w| > s.remaining then w[..s.remaining - |v|] else w;
      assert |v + w| > s.remaining ==> (v + w)[..s.remaining] == v + x;
      OpenBodyExtend(s, v, w, x);
    }
  }

  lemma OpenBodyExtend(s: DecoderState, v: string, w: string, x: string)
    requires AtRest(s) && !s.isDecodingHeader && |v| < s.remaining
    requires x == (if |v + w| > s.remaining then w[..s.remaining - |v|] else w)
    requires BodyAlone(s, v + w) == DecodeMessageBody(s, v + x, false)
    ensures BodyCommits(s, v, w)
  {
    hide Loop;
    var b := |v + x| == s.remaining;
    var r := Loop(s, v);
    LoopKeeps(s, v);
    LoopExtend(s, v, x, b);
    assert BodyAlone(s, v) == r;
    if r.status.NeedMoreInput? {
      var rest := v[r.used..] + w;
      assert |rest| > r.state.remaining ==> rest[..r.state.remaining] == v[r.used..] + x;
    }
  }

  lemma BufferExtend(s: DecoderState, v: string, w: string)
    requires AtRest(s) && !RunsPastBody(s, v)
    ensures Commits(s, v, w)
  {
    hide Loop, BodyAlone;
    DecodeIsReference(s, v);
    if !s.isDecodingHeader {
      BodyExtend(Started(s), v, w);
    } else {
      HeaderExtend(s, v, w);
    }
  }

  lemma HeaderExtend(s: DecoderState, v: string, w: string)
    requires AtRest(s) && !RunsPastBody(s, v) && s.isDecodingHeader
    requires Decode(s, v) == Reference(s, v)
    ensures Commits(s, v, w)
  {
    hide Loop, BodyAlone, DecodeBuffer, Commits;
    var s1 := Started(s);
    var r := Loop(s1, v);
    LoopKeeps(s1, v);
    LoopExtend(s1, v, w, false);
    assert Final(s1, false) == s1 && Final(r.state, false) == r.state;
    if r.status.NeedMoreInput? && !r.state.isDecodingHeader {
      BodyBegunExtend(s, v, w);
    } else {
      StillHeaderExtend(s, v, w);
    }
  }

  // The view ends in the header, or the request is over.
  lemma StillHeaderExtend(s: DecoderState, v: string, w: string)
    requires AtRest(s) && s.isDecodingHeader && Decode(s, v) == Reference(s, v)
    requires var r := Loop(Started(s), v);
      && LoopKept(Started(s), v, r) && LoopStable(Started(s), v, w, false)
      && Final(Started(s), false) == Started(s) && Final(r.state, false) == r.state
      && (r.status.NeedMoreInput? ==> r.state.isDecodingHeader)
    ensures Commits(s, v, w)
  {
    hide Loop, BodyAlone, DecodeBuffer;
    var r := Loop(Started(s), v);
    if r.status.NeedMoreInput? {
      var rest := v[r.used..] + w;
      assert (v + w)[r.used..] == rest;
      assert Started(r.state) == r.state;
      var again := Loop(r.state, rest);
      assert rest[again.used..] == (v + w)[r.used + again.used..];
    }
  }

  // Decoding that has come to the body.
  lemma ReferenceInBody(s: DecoderState, v: string)
    requires s.isDecodingHeader && Loop(Started(s), v).status.NeedMoreInput?
    requires !Loop(Started(s), v).state.isDecodingHeader
    ensures var r := Loop(Started(s), v);
      && Reference(s, v) == Finish(Shift(BodyAlone(r.state, v[r.used..]), r.used))
      && (RunsPastBody(s, v) <==> |v| - r.used > r.state.remaining)
  {
    hide Loop, BodyAlone;
  }

  lemma ReferenceOfBody(s: DecoderState, v: string)
    requires !s.isDecodingHeader && s.decoderStatus == Decoding
    ensures Reference(s, v) == Finish(BodyAlone(s, v)) && (RunsPastBody(s, v) <==> |v| > s.remaining)
  {
    hide Loop, BodyAlone;
  }

  // The view ends in the body.
  lemma BodyBegunExtend(s: DecoderState, v: string, w: string)
    requires AtRest(s) && s.isDecodingHeader && !RunsPastBody(s, v) && Decode(s, v) == Reference(s, v)
    requires var r := Loop(Started(s), v);
      && LoopKept(Started(s), v, r) && LoopStable(Started(s), v, w, false)
      && Final(Started(s), false) == Started(s) && Final(r.state, false) == r.state
      && r.status.NeedMoreInput? && !r.state.isDecodingHeader
    ensures Commits(s, v, w)
  {
    hide Loop, BodyAlone, DecodeBuffer, Decode, Reference, RunsPastBody;
    var r := Loop(Started(s), v);
    assert (v + w)[r.used..] == v[r.used..] + w;
    ReferenceInBody(s, v);
    ReferenceInBody(s, v + w);
    BodyExtend(r.state, v[r.used..], w);
    var q := BodyAlone(r.state, v[r.used..]);
    if q.status.NeedMoreInput? {
      var rest := v[r.used..][q.used..] + w;
      assert v[r.used..][q.used..] == v[r.used + q.used..];
      ReferenceOfBody(q.state, rest);
    }
  }

  // ---------------------------------------------------------------- The theorem

  function Concat(chunks: seq<string>): string {
    if chunks == [] then "" else chunks[0] + Concat(chunks[1..])
  }

  // A request fed to the decoder in pieces: each call sees what the previous one
  // left unconsumed, followed by the next piece. What is used is counted from
  // the start of the text held at first.
  function Feed(s: DecoderState, held: string, chunks: seq<string>): (r: Outcome)
    decreases |chunks|
  {
    if chunks == [] then Outcome(NeedMoreInput, s, 0)
    else
      var view := held + chunks[0];
      var r := Decode(s, view);
      if r.status.IsFinal() then r else Shift(Feed(r.state, view[r.used..], chunks[1..]), r.used)
  }

  // No call sees bytes beyond the end of the body.
  ghost predicate NeverRunsPastBody(s: DecoderState, held: string, chunks: seq<string>)
    decreases |chunks|
  {
    chunks == [] ||
    var view := held + chunks[0];
    var r := Decode(s, view);
    && !RunsPastBody(s, view)
    && (!r.status.IsFinal() ==> NeverRunsPastBody(r.state, view[r.used..], chunks[1..]))
  }

  // Fragmentation independence: as long as no call sees bytes beyond the end of
  // the body, feeding pieces has the outcome of decoding everything at once:
  // the same status, the same request, the same bytes left unconsumed.
  lemma {:induction false} FeedingIsReference(s: DecoderState, held: string, chunks: seq<string>)
    requires AtRest(s) && chunks != [] && NeverRunsPastBody(s, held, chunks)
    ensures Same(Feed(s, held, chunks), Reference(s, held + Concat(chunks)))
    decreases |chunks|
  {
    hide Decode, Reference, RunsPastBody;
    var view, more := held + chunks[0], chunks[1..];
    var r := Decode(s, view);
    assert held + Concat(chunks) == view + Concat(more);
    BufferExtend(s, view, Concat(more));
    if !r.status.IsFinal() {
      if more == [] {
        DecodeIsReference(s, view);
        assert view + "" == view;
      } else {
        FeedingIsReference(r.state, view[r.used..], more);
      }
    }
  }

  // If everything together does not run past the body then no call does.
  lemma {:induction false} WholeNeverRunsPastBody(s: DecoderState, held: string, chunks: seq<string>)
    requires AtRest(s) && chunks != [] && !RunsPastBody(s, held + Concat(chunks))
    ensures NeverRunsPastBody(s, held, chunks)
    decreases |chunks|
  {
    hide Decode, Reference, RunsPastBody;
    var view, more := held + chunks[0], chunks[1..];
    assert held + Concat(chunks) == view + Concat(more);
    PrefixDoesNotRunPastBody(s, view, Concat(more));
    BufferExtend(s, view, Concat(more));
    var r := Decode(s, view);
    if !r.status.IsFinal() && more != [] {
      WholeNeverRunsPastBody(r.state, view[r.used..], more);
    }
  }

  lemma PrefixDoesNotRunPastBody(s: DecoderState, v: string, w: string)
    requires AtRest(s) && !RunsPastBody(s, v + w)
    ensures !RunsPastBody(s, v)
  {
    hide Loop;
    if s.isDecodingHeader {
      LoopExtend(Started(s), v, w, false);
    }
  }

  // Feeding pieces of a request that are not followed by anything gives what
  // decoding the whole request gives.
  lemma FragmentationIndependence(s: DecoderState, chunks: seq<string>)
    requires AtRest(s) && chunks != [] && !RunsPastBody(s, Concat(chunks))
    ensures Same(Feed(s, "", chunks), Decode(s, Concat(chunks)))
  {
    hide Decode, Reference, RunsPastBody;
    assert "" + Concat(chunks) == Concat(chunks);
    WholeNeverRunsPastBody(s, "", chunks);
    FeedingIsReference(s, "", chunks);
    DecodeIsReference(s, Concat(chunks));
  }

  // A single call that sees beyond the body refuses the request as too large,
  // where the reference accepts it or finds it malformed. So decoding agrees
  // with the reference exactly when the view does not run past the body.
  lemma OnlyRunningPastBodyMatters(s: DecoderState, v: string)
    requires AtRest(s)
    ensures Same(Decode(s, v), Reference(s, v)) <==> !RunsPastBody(s, v)
    ensures RunsPastBody(s, v) ==> Decode(s, v).status.HttpPayloadTooLarge?
    ensures RunsPastBody(s, v) ==> Reference(s, v).status.HttpOk? || Reference(s, v).status.HttpBadRequest?
  {
    hide Loop;
    if !RunsPastBody(s, v) {
      DecodeIsReference(s, v);
    } else {
      var s1 := Started(s);
      if s.isDecodingHeader {
        LoopKeeps(s1, v);
        var r := Loop(s1, v);
        FullBodyOutcome(r.state, v[r.used..]);
      } else {
        FullBodyOutcome(s1, v);
      }
    }
  }

  // The same of a whole feeding: a call that sees beyond the body ends it as too
  // large, and so feeding agrees with the reference exactly if no call does.
  lemma {:induction false} OnlyRunningPastBodyMattersFed(s: DecoderState, held: string, chunks: seq<string>)
    requires AtRest(s) && chunks != []
    ensures NeverRunsPastBody(s, held, chunks) <==> Same(Feed(s, held, chunks), Reference(s, held + Concat(chunks)))
    ensures NeverRunsPastBody(s, held, chunks) <== Feed(s, held, chunks).status.HttpOk?
  {
    hide Reference, Feed;
    if NeverRunsPastBody(s, held, chunks) {
      FeedingIsReference(s, held, chunks);
    } else {
      PastBodyIsTooLarge(s, held, chunks);
    }
  }

  lemma {:induction false} PastBodyIsTooLarge(s: DecoderState, held: string, chunks: seq<string>)
    requires AtRest(s) && !NeverRunsPastBody(s, held, chunks)
    ensures Feed(s, held, chunks).status.HttpPayloadTooLarge?
    ensures !Reference(s, held + Concat(chunks)).status.HttpPayloadTooLarge?
    decreases |chunks|
  {
    hide Decode, Reference, RunsPastBody;
    var view, more := held + chunks[0], chunks[1..];
    assert held + Concat(chunks) == view + Concat(more);
    if RunsPastBody(s, view) {
      if !RunsPastBody(s, view + Concat(more)) {
        PrefixDoesNotRunPastBody(s, view, Concat(more));
      }
      OnlyRunningPastBodyMatters(s, view);
      OnlyRunningPastBodyMatters(s, view + Concat(more));
    } else {
      BufferExtend(s, view, Concat(more));
      PastBodyIsTooLarge(Decode(s, view).state, view[Decode(s, view).used..], more);
    }
  }

  // Feeding stops at the piece with which the request is decoded; so the pieces
  // after it make no difference.
  lemma {:induction false} FeedPrefix(s: DecoderState, held: string, chunks: seq<string>, n: nat)
    requires n <= |chunks| && Feed(s, held, chunks[..n]).status.IsFinal()
    ensures Feed(s, held, chunks) == Feed(s, held, chunks[..n])
    decreases n
  {
    hide Decode;
    var view := held + chunks[0];
    assert chunks[..n][0] == chunks[0] && chunks[..n][1..] == chunks[1..][..n - 1];
    if !Decode(s, view).status.IsFinal() {
      FeedPrefix(Decode(s, view).state, view[Decode(s, view).used..], chunks[1..], n - 1);
    }
  }

  lemma GoesOn(s: DecoderState, v: string, w: string)
    requires AtRest(s) && !RunsPastBody(s, v) && !Decode(s, v).status.IsFinal()
    ensures var r := Decode(s, v);
      && AtRest(r.state)
      && (RunsPastBody(s, v + w) <==> RunsPastBody(r.state, v[r.used..] + w))
  {
    hide Decode, Reference, RunsPastBody, AtRest;
    BufferExtend(s, v, w);
  }

  // The pieces up to that one do not run past the body.
  lemma {:induction false} LastPiece(s: DecoderState, held: string, chunks: seq<string>) returns (n: nat)
    requires AtRest(s) && NeverRunsPastBody(s, held, chunks) && Feed(s, held, chunks).status.IsFinal()
    ensures n <= |chunks| && Feed(s, held, chunks).used <= |held + Concat(chunks[..n])|
    ensures !RunsPastBody(s, held + Concat(chunks[..n]))
    decreases |chunks|
  {
    hide Decode, RunsPastBody, AtRest;
    var view, r := held + chunks[0], Decode(s, held + chunks[0]);
    if r.status.IsFinal() {
      assert chunks[..1][1..] == [] && chunks[..1][0] == chunks[0];
      assert held + Concat(chunks[..1]) == view;
      return 1;
    }
    GoesOn(s, view, "");
    var m := LastPiece(r.state, view[r.used..], chunks[1..]);
    var more := Concat(chunks[1..][..m]);
    assert chunks[..m + 1][0] == chunks[0] && chunks[..m + 1][1..] == chunks[1..][..m];
    assert held + Concat(chunks[..m + 1]) == view + more;
    GoesOn(s, view, more);
    return m + 1;
  }

  // A body that is all there is decoded or found malformed.
  lemma FullBodyOutcome(s: DecoderState, v: string)
    requires WellFormed(s) && !s.isDecodingHeader && |v| >= s.remaining
    ensures var r := BodyAlone(s, v);
      && (r.status.HttpOk? || r.status.HttpBadRequest?)
      && (r.status.HttpOk? ==> r.used == s.remaining && r.state.remaining == 0)
  {
    hide Loop;
    var body := if |v| > s.remaining then v[..s.remaining] else v;
    LoopKeeps(Final(s, true), body);
  }
}
