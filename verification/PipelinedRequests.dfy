// What becomes of bytes that a client sends right after a request.

module PipelinedRequests {
  import opened Ints
  import opened Protocol
  import opened DecoderSpec
  import opened Fragmentation
  import opened RequestGrammar
  import opened GrammarTheorems
  import opened DecodedRequests
  import opened ConnectionSpec

  lemma GetHasNoBody(d: DecoderState, r: Message)
    requires Understood(d, r) && r.verb == "GET"
    ensures r.body == []
  {
    hide ReadPath, StoreParams, ReadLines, ParamsText;
    var m, req1, req2, facts := HeaderMeaningParts(d.request, r);
  }

  // A GET that arrives together with more bytes is decoded, and leaves those
  // bytes in the buffer, with the decoder reset.
  lemma GetLeavesRest(c: ConnectionState, r: Message, w: string, id: uint32)
    requires Open(c) && c.betweenRequests && AtBeginning(c.decoder)
    requires var d := Begin(c.decoder, id); MessageOk(r) && Meaning(d.request, r).Some? && r.verb == "GET"
    requires |MessageText(r) + w| <= INPUT_BUFFER_SIZE
    ensures var q := CanRead(c, MessageText(r) + w, id, true); var d := Begin(c.decoder, id);
      && q.events == [StartDecoding(id), RequestDecoded(Meaning(d.request, r).value)]
      && q.state.HasSocket() && q.state.buffer == w && q.state.decoder.decoderStatus == Reset
  {
    hide Decode, DecodeBuffer, Reference, Meaning, MessageText, AtRest, ResetState, RunsPastBody;
    var v, d := MessageText(r) + w, Begin(c.decoder, id);
    assert MessageText(r) != "" by { MessageIsNotEmpty(r); }
    BeginAtRest(c.decoder, id);
    GetHasNoBody(d, r);
    RunsPastBodyExactly(d, r, w);
    ReferenceDecodes(d, r, w);
    DecodeIsReference(d, v);
    FullMakesNoDifference(d, v, |v| == INPUT_BUFFER_SIZE);
    assert c.buffer + v == v;
    assert v[|MessageText(r)|..] == w;
    ResetIsReset(Decode(d, v).state);
  }

  lemma ResetIsReset(d: DecoderState)
    ensures ResetState(d).decoderStatus == Reset
  {
  }

  // If the client sends nothing more, and closes its side before the next call,
  // those bytes are never decoded. Even if they are a whole request, what the
  // listener hears is an error in a request that it was never told had started.
  lemma PipelinedRequestIsLost(c: ConnectionState, r: Message, next: Message, id: uint32)
    requires Open(c) && c.betweenRequests && AtBeginning(c.decoder)
    requires var d := Begin(c.decoder, id); MessageOk(r) && Meaning(d.request, r).Some? && r.verb == "GET"
    requires MessageOk(next) && |MessageText(r) + MessageText(next)| <= INPUT_BUFFER_SIZE
    ensures var q := CanRead(c, MessageText(r) + MessageText(next), id, true);
      && Open(q.state)
      && HalfClosed(q.state).events == [DecodingError(q.state.decoder.request, HttpBadRequest)]
      && After(Stage(c), q.events + HalfClosed(q.state).events) == EndedUnannounced
  {
    hide Meaning, MessageText, CanRead, AtRest;
    GetLeavesRest(c, r, MessageText(next), id);
    MessageIsNotEmpty(next);
    var got := MessageText(r) + MessageText(next);
    assert c.buffer + got == got;
    CanReadKeepsOpen(c, got, id, true);
    CanReadLifecycle(c, got, id, true);
    var q := CanRead(c, got, id, true);
    HalfClosedLifecycle(q.state);
    AfterBoth(Stage(c), q.events, HalfClosed(q.state).events);
  }
}
