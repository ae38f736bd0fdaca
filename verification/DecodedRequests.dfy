// What the decoder accepts: the requests of the grammar, in one buffer or fed
// in pieces. Module GrammarTheorems is about decoding that never looks past the
// end of a body; here it is about the calls of DecodeBuffer.

module DecodedRequests {
  import opened Ints
  import opened Wrappers
  import opened Protocol
  import opened AlpacaRequests
  import opened DecoderSpec
  import opened Fragmentation
  import opened RequestGrammar
  import opened GrammarTheorems

  // Reset, or begun but with nothing consumed.
  ghost predicate AtBeginning(s: DecoderState) { AtStart(Started(s)) }

  // A request of the grammar that means something to a decoder in this state.
  ghost predicate Understood(s: DecoderState, r: Message) { MessageOk(r) && Meaning(s.request, r).Some? }

  // v is a request that is understood, and all that may follow it in the view does.
  ghost predicate Decodable(s: DecoderState, r: Message, v: string) {
    Understood(s, r) && MessageText(r) <= v && (r.body == [] || MessageText(r) == v)
  }

  // Exactly the text of r is consumed, and its meaning computed.
  ghost predicate IsDecoded(s: DecoderState, r: Message, o: Outcome) {
    o.status.HttpOk? && o.used == |MessageText(r)| && Some(o.state.request) == Meaning(s.request, r)
  }

  lemma BeginningIsAtRest(s: DecoderState)
    requires AtBeginning(s)
    ensures AtRest(s) && s.isDecodingHeader && Started(s).request == s.request
  {
  }

  lemma ReferenceStarts(s: DecoderState, v: string)
    ensures Reference(Started(s), v) == Reference(s, v)
  {
    hide Loop, BodyAlone;
  }

  lemma ReferenceDecodes(s: DecoderState, r: Message, w: string)
    requires AtBeginning(s) && Understood(s, r)
    ensures IsDecoded(s, r, Reference(s, MessageText(r) + w))
  {
    hide MessageOk, Meaning, MessageText, Reference;
    ReferenceStarts(s, MessageText(r) + w);
    Complete(Started(s), r, w);
  }

  // What is in view runs past the body of a request exactly if it has one, and
  // something follows it.
  lemma RunsPastBodyExactly(s: DecoderState, r: Message, w: string)
    requires AtBeginning(s) && Understood(s, r)
    ensures RunsPastBody(s, MessageText(r) + w) <==> r.body != [] && w != ""
  {
    hide Loop, HeaderMeaning, StoreParams, ParamsText, LinesText, StartText, MessageText, BodyAlone, MessageOk;
    var v := MessageText(r) + w;
    var (req, length) := HeaderMeaning(s.request, r).value;
    MessageParts(r, w);
    var s1 := HeaderEnds(Started(s), v, r, ParamsText(r.body) + w, req, length);
    EmptyBody(s.request, r);
    Complete(Started(s), r, w);
  }

  // Whether the buffer is full, or the input at its end, makes no difference to
  // whether a request is accepted, nor to one that runs past its body.
  lemma AnyBuffer(s: DecoderState, v: string, full: bool, atEnd: bool)
    requires AtRest(s)
    ensures var o := DecodeBuffer(s, v, full, atEnd);
      && (o.status.HttpOk? <==> Decode(s, v).status.HttpOk?)
      && (o.status.HttpOk? ==> o == Decode(s, v))
      && (RunsPastBody(s, v) ==> o.status.HttpPayloadTooLarge?)
  {
    hide Loop, DecodeMessageBody;
    var s1 := Started(s);
    if s1.isDecodingHeader {
      LoopKeeps(s1, v);
      var r := Loop(s1, v);
      if r.status.NeedMoreInput? && !r.state.isDecodingHeader {
        AnyBody(r.state, v[r.used..], atEnd);
      }
    } else {
      AnyBody(s1, v, atEnd);
    }
  }

  lemma AnyBody(s: DecoderState, v: string, atEnd: bool)
    requires WellFormed(s) && !s.isDecodingHeader && !s.isFinalInput && s.remaining > 0
    ensures var o, q := DecodeMessageBody(s, v, atEnd), DecodeMessageBody(s, v, false);
      && (o.status.HttpOk? <==> q.status.HttpOk?)
      && (o.status.HttpOk? ==> o == q)
      && (|v| > s.remaining ==> o.status.HttpPayloadTooLarge?)
  {
    hide Loop;
    if |v| < s.remaining {
      LoopKeeps(s, v);
    }
  }

  // The decoder accepts exactly the texts that start with a request it
  // understands, and that nothing follows if it has a body. It consumes that text
  // and computes its meaning. A body that something follows is too large.
  lemma DecodedExactly(s: DecoderState, v: string, full: bool, atEnd: bool)
    requires AtBeginning(s)
    ensures DecodeBuffer(s, v, full, atEnd).status.HttpOk? <==> exists r :: Decodable(s, r, v)
    ensures forall r :: Decodable(s, r, v) ==> IsDecoded(s, r, DecodeBuffer(s, v, full, atEnd))
    ensures forall r :: Understood(s, r) && MessageText(r) <= v && !Decodable(s, r, v) ==>
      DecodeBuffer(s, v, full, atEnd).status.HttpPayloadTooLarge?
  {
    hide Decode, DecodeBuffer, Reference, RunsPastBody, Understood, MessageText, AtRest, AtBeginning;
    BeginningIsAtRest(s);
    AnyBuffer(s, v, full, atEnd);
    forall r | Understood(s, r) && MessageText(r) <= v
      ensures if Decodable(s, r, v) then IsDecoded(s, r, DecodeBuffer(s, v, full, atEnd))
              else DecodeBuffer(s, v, full, atEnd).status.HttpPayloadTooLarge?
    {
      var w := v[|MessageText(r)|..];
      assert v == MessageText(r) + w;
      RunsPastBodyExactly(s, r, w);
      if Decodable(s, r, v) {
        ReferenceDecodes(s, r, w);
        DecodeIsReference(s, v);
      }
    }
    if Decode(s, v).status.HttpOk? {
      OnlyRunningPastBodyMatters(s, v);
      DecodeIsReference(s, v);
      var r := Accepted(s, v);
    }
  }

  // What the reference accepts starts with a request that is understood.
  lemma Accepted(s: DecoderState, v: string) returns (r: Message)
    requires AtBeginning(s) && Reference(s, v).status.HttpOk?
    ensures Understood(s, r) && MessageText(r) <= v && Reference(s, v).used == |MessageText(r)|
    ensures !RunsPastBody(s, v) ==> Decodable(s, r, v)
  {
    hide Reference, RunsPastBody, MessageText, Meaning, MessageOk;
    ReferenceStarts(s, v);
    r := Sound(Started(s), v);
    var w := v[|MessageText(r)|..];
    assert v == MessageText(r) + w;
    RunsPastBodyExactly(s, r, w);
  }

  // A whole header that means something is not enough: HEAD, though it is accepted
  // as a method, ends in an internal server error; and a PUT must say the length
  // of its body.
  lemma OnlyGetAndPutAreServed(s: DecoderState, r: Message, w: string, req: RequestFields, length: Option<uint16>)
    requires AtBeginning(s) && MessageOk(r) && HeaderMeaning(s.request, r) == Some((req, length))
    ensures var o := Decode(s, HeaderText(r) + w);
      && (o.status.HttpInternalServerError? <==> req.httpMethod == HEAD)
      && (o.status.HttpLengthRequired? <==> req.httpMethod == PUT && length.None?)
  {
    hide *;
    var h := r.(body := []);
    SameHeader(s.request, r, []);
    NoBodyIsOk(r);
    HeaderParts(r, w);
    BeginningIsAtRest(s);
    assert AtStart(Started(s)) by { BeginningIs(s); }
    var s1 := PassHeader(Started(s), h, "\r\n" + w, req, length);
    var n := |StartText(h)| + |LinesText(h.headers)|;
    PassesTail(StartText(h), LinesText(h.headers), "\r\n" + w);
    PassesEnd(Started(s), HeaderText(r) + w, s1, n);
    AtEndIs(s1, req, length);
    EndOfHeader(s1, w);
    MethodsAre(s.request, r);
    HeaderOutcome(s, HeaderText(r) + w);
    SameStatus(Loop(s1, "\r\n" + w), n);
  }

  lemma BeginningIs(s: DecoderState)
    requires AtBeginning(s)
    ensures AtStart(Started(s))
  {
  }

  lemma AtEndIs(s: DecoderState, req: RequestFields, length: Option<uint16>)
    requires AtEnd(s, req, length)
    ensures s.decodeFunction.DecodeHeaderLines? && s.isDecodingHeader && s.request == req
    ensures s.foundContentLength == length.Some?
  {
  }

  lemma SameStatus(r: Outcome, n: nat)
    ensures Shift(r, n).status == r.status
    ensures r.status.HttpInternalServerError? || r.status.HttpLengthRequired? ==> r.status.IsFinal()
  {
  }

  lemma HeaderParts(r: Message, w: string)
    ensures HeaderText(r) + w == StartText(r) + (LinesText(r.headers) + ("\r\n" + w))
  {
    hide PathText, QueryText, LinesText;
    var h, ls := StartText(r), LinesText(r.headers);
    assert HeaderText(r) == h + ls + "\r\n";
    assert h + ls + "\r\n" + w == h + (ls + ("\r\n" + w));
  }

  lemma NoBodyIsOk(r: Message)
    requires MessageOk(r)
    ensures MessageOk(r.(body := []))
  {
    hide PathOk, LinesOk;
  }

  lemma MethodsAre(req0: RequestFields, r: Message)
    requires HeaderMeaning(req0, r).Some?
    ensures var m := HeaderMeaning(req0, r).value.0.httpMethod; m == GET || m == PUT || m == HEAD
  {
    hide ReadPath, StoreParams, ReadLines;
    var m, req1, req2, facts := HeaderMeaningParts(req0, r);
    MatchIsEntry([("GET", GET), ("PUT", PUT), ("HEAD", HEAD)], r.verb);
  }

  // What the loop over the header finds is the outcome, but for a body that follows.
  lemma HeaderOutcome(s: DecoderState, v: string)
    requires AtBeginning(s)
    ensures var status, r := Decode(s, v).status, Loop(Started(s), v);
      && (r.status.IsFinal() ==> status == r.status)
      && (!r.status.IsFinal() ==> !status.HttpInternalServerError? && !status.HttpLengthRequired?)
  {
    hide Loop, DecodeMessageBody;
    var s1 := Started(s);
    LoopKeeps(s1, v);
    var r := Loop(s1, v);
    if r.status.NeedMoreInput? && !r.state.isDecodingHeader {
      BodyKeeps(r.state, v[r.used..], false);
    }
  }

  // ------------------------------------------------------------ Fed in pieces

  // One of the pieces ends where the text does.
  ghost predicate EndsWithPiece(text: string, chunks: seq<string>) {
    exists n :: 0 <= n <= |chunks| && Concat(chunks[..n]) == text
  }

  ghost predicate DecodableFed(s: DecoderState, r: Message, chunks: seq<string>) {
    Understood(s, r) && MessageText(r) <= Concat(chunks)
    && (r.body == [] || EndsWithPiece(MessageText(r), chunks))
  }

  lemma MessageIsNotEmpty(r: Message)
    ensures MessageText(r) != ""
  {
    hide PathText, QueryText, LinesText, ParamsText;
  }

  // Pieces that together do not run past a body decode as the whole does.
  lemma WholeIsDecoded(s: DecoderState, r: Message, chunks: seq<string>)
    requires AtBeginning(s) && Decodable(s, r, Concat(chunks))
    ensures IsDecoded(s, r, Feed(s, "", chunks))
  {
    hide Feed, Decode, DecodeBuffer, Reference, RunsPastBody, MessageText, Meaning, MessageOk, AtRest;
    var v := Concat(chunks);
    MessageIsNotEmpty(r);
    BeginningIsAtRest(s);
    var w := v[|MessageText(r)|..];
    assert v == MessageText(r) + w && "" + v == v;
    RunsPastBodyExactly(s, r, w);
    ReferenceDecodes(s, r, w);
    WholeNeverRunsPastBody(s, "", chunks);
    FeedingIsReference(s, "", chunks);
  }

  lemma FedIsDecoded(s: DecoderState, r: Message, chunks: seq<string>)
    requires AtBeginning(s) && DecodableFed(s, r, chunks)
    ensures IsDecoded(s, r, Feed(s, "", chunks))
  {
    hide Feed, AtBeginning, MessageText, Understood;
    if r.body == [] {
      WholeIsDecoded(s, r, chunks);
    } else {
      var n :| 0 <= n <= |chunks| && Concat(chunks[..n]) == MessageText(r);
      WholeIsDecoded(s, r, chunks[..n]);
      FeedPrefix(s, "", chunks, n);
    }
  }

  lemma {:induction false} ConcatPrefix(chunks: seq<string>, n: nat)
    requires n <= |chunks|
    ensures Concat(chunks[..n]) <= Concat(chunks)
    decreases n
  {
    if n > 0 {
      assert chunks[..n][0] == chunks[0] && chunks[..n][1..] == chunks[1..][..n - 1];
      ConcatPrefix(chunks[1..], n - 1);
    }
  }

  lemma AcceptedFed(s: DecoderState, chunks: seq<string>) returns (r: Message)
    requires AtBeginning(s) && Feed(s, "", chunks).status.HttpOk?
    ensures DecodableFed(s, r, chunks)
  {
    hide Feed, AtRest, AtBeginning, MessageText, Understood, Reference, RunsPastBody, NeverRunsPastBody;
    BeginningIsAtRest(s);
    assert chunks != [] by { NothingFed(s); }
    OnlyRunningPastBodyMattersFed(s, "", chunks);
    var v := Concat(chunks);
    assert "" + v == v;
    r := Accepted(s, v);
    var n := LastPiece(s, "", chunks);
    var t := Concat(chunks[..n]);
    assert "" + t == t;
    ConcatPrefix(chunks, n);
    var w := t[|MessageText(r)|..];
    assert t == MessageText(r) + w;
    RunsPastBodyExactly(s, r, w);
    assert r.body == [] || t == MessageText(r);
  }

  lemma NothingFed(s: DecoderState)
    ensures Feed(s, "", []).status.NeedMoreInput?
  {
  }

  // Fed in pieces, of whatever sizes, the decoder accepts exactly the texts that
  // start with a request it understands, if no piece contains the end of its
  // body, when it has one, and more. It consumes that text and computes its meaning.
  lemma DecodedExactlyFed(s: DecoderState, chunks: seq<string>)
    requires AtBeginning(s)
    ensures Feed(s, "", chunks).status.HttpOk? <==> exists r :: DecodableFed(s, r, chunks)
    ensures forall r :: DecodableFed(s, r, chunks) ==> IsDecoded(s, r, Feed(s, "", chunks))
  {
    hide Feed, DecodableFed, Meaning, MessageText;
    forall r | DecodableFed(s, r, chunks) ensures IsDecoded(s, r, Feed(s, "", chunks)) {
      FedIsDecoded(s, r, chunks);
    }
    if Feed(s, "", chunks).status.HttpOk? {
      var r := AcceptedFed(s, chunks);
    }
  }
}
