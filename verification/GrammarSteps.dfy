// Single steps of a decoding, and decodings that get through a piece of text. Most
// theorems about the grammar are put together from such pieces: the decoder gets
// through the first one from one state to another, and through the next from there;
// and what it does with the text after them is what it does from the last state.
// What matters of a state in between is where the decoder goes on, whether in the
// header or the body, and what it has made of the request so far.

module GrammarSteps {
  import opened Protocol
  import opened AlpacaRequests
  import opened DecoderSpec
  import opened Fragmentation

  // What matters of a state between two steps: not the parameter or header in
  // hand, nor in the body the remaining length.
  function Essence(s: DecoderState): DecoderState {
    s.(currentParameter := UnknownParameter, currentHeader := UnknownHeader, isDecodingStartLine := false,
       remaining := if s.isDecodingHeader then s.remaining else 0)
  }

  // s' is, in what matters, s about to call f with req decoded so far.
  ghost predicate Moved(s: DecoderState, s': DecoderState, f: DecodeFunction, req: RequestFields) {
    Essence(s') == Essence(s).(decodeFunction := f, request := req)
  }

  lemma WhereTo(s: DecoderState, s': DecoderState, f: DecodeFunction, req: RequestFields)
    requires Moved(s, s', f, req)
    ensures s'.decodeFunction == f && s'.request == req
    ensures s'.isDecodingHeader == s.isDecodingHeader && s'.isFinalInput == s.isFinalInput
    ensures s'.foundContentLength == s.foundContentLength && s'.decoderStatus == s.decoderStatus
    ensures s.isDecodingHeader ==> s'.remaining == s.remaining
  {
  }

  lemma MovedOn(s: DecoderState, s1: DecoderState, s2: DecoderState, f: DecodeFunction, req1: RequestFields,
                g: DecodeFunction, req2: RequestFields)
    requires Moved(s, s1, f, req1) && Moved(s1, s2, g, req2)
    ensures Moved(s, s2, g, req2)
  {
  }

  function After(v: string, used: nat): string { if used <= |v| then v[used..] else "" }

  // Decoding v from s consumes used characters and goes on from s'.
  ghost predicate Passes(s: DecoderState, v: string, s': DecoderState, used: nat) {
    Loop(s, v) == Shift(Loop(s', After(v, used)), used)
  }

  lemma PassesTransitive(s: DecoderState, v: string, s': DecoderState, m: nat, s'': DecoderState, n: nat)
    requires Passes(s, v, s', m) && Passes(s', v[m..], s'', n)
    ensures Passes(s, v, s'', m + n)
  {
    hide Loop;
    assert v[m..][n..] == v[m + n..];
  }

  // A step that continues.
  lemma Goes(s: DecoderState, v: string) returns (s': DecoderState)
    requires Step(s, v).status.ContinueDecoding?
    ensures var r := Step(s, v);
      && Passes(s, v, s', r.used)
      && s' == r.state.(remaining := s'.remaining)
      && (s.isDecodingHeader ==> s' == r.state)
      && Advance(s, v) == Outcome(ContinueDecoding, s', r.used)
  {
    hide Step;
    StepProgress(s, v);
    s' := Advance(s, v).state;
  }
}
