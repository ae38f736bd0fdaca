// A server connection as a function: what each callback does to the connection
// and tells the request listener; and that the events told do not depend on how
// the bytes arrive. Module ServerConnections holds the methods that are proved
// to compute this.

module ConnectionSpec {
  import opened Ints
  import opened Protocol
  import opened AlpacaRequests
  import opened DecoderSpec
  import opened Fragmentation

  const MAX_SOCK_NUM := 8
  const INPUT_BUFFER_SIZE := 128

  // What the request listener is told. Whatever it answers is not part of the event.
  datatype Event =
    | StartDecoding(id: uint32)
    | RequestDecoded(request: RequestFields)
    | DecodingError(request: RequestFields, status: EHttpStatusCode)

  datatype ConnectionState = ConnectionState(
    sockNum: nat, betweenRequests: bool, buffer: string, decoder: DecoderState)
  {
    predicate HasSocket() { sockNum < MAX_SOCK_NUM }
  }

  datatype Result = Result(state: ConnectionState, events: seq<Event>)

  // ---------------------------------------------------------------- Callbacks

  function Connect(c: ConnectionState, sockNum: nat): ConnectionState {
    ConnectionState(sockNum, true, "", ResetState(c.decoder))
  }

  // The decoder when it starts on a request, which the listener gives a
  // transaction id; or when it continues with one.
  function Begin(d: DecoderState, id: uint32): DecoderState {
    if d.decoderStatus == Reset then
      d.(request := d.request.(serverTransactionId := id, haveServerTransactionId := true))
    else d
  }

  function BeginEvents(d: DecoderState, id: uint32): seq<Event> {
    if d.decoderStatus == Reset then [StartDecoding(id)] else []
  }

  // What is done with the text in the buffer.
  function DecodeInput(c: ConnectionState, id: uint32, keepOpen: bool): Result {
    var r := DecodeBuffer(Begin(c.decoder, id), c.buffer, |c.buffer| == INPUT_BUFFER_SIZE, false);
    var started := BeginEvents(c.decoder, id);
    var c := c.(buffer := c.buffer[r.used..], decoder := r.state);
    if !r.status.IsFinal() then
      Result(c, started)
    else if r.status == HttpOk then
      var c := if c.buffer == "" then c.(betweenRequests := true) else c;
      Result(if keepOpen then c.(decoder := ResetState(c.decoder)) else c.(sockNum := MAX_SOCK_NUM),
             started + [RequestDecoded(r.state.request)])
    else
      Result(c.(sockNum := MAX_SOCK_NUM), started + [DecodingError(r.state.request, r.status)])
  }

  // OnCanRead, when got is read from the connection; id is the next transaction
  // id, and keepOpen what the listener answers if a request is decoded.
  function CanRead(c: ConnectionState, got: string, id: uint32, keepOpen: bool): Result {
    var c := if got != "" then c.(buffer := c.buffer + got, betweenRequests := false) else c;
    if c.buffer == "" then Result(c, []) else DecodeInput(c, id, keepOpen)
  }

  // The call that has these events closes the connection.
  predicate Closes(events: seq<Event>, keepOpen: bool) {
    events != [] && match events[|events| - 1]
      case StartDecoding(_) => false
      case RequestDecoded(_) => !keepOpen
      case DecodingError(_, _) => true
  }

  function HalfClosed(c: ConnectionState): Result {
    Result(c.(sockNum := MAX_SOCK_NUM),
           if c.betweenRequests then [] else [DecodingError(c.decoder.request, HttpBadRequest)])
  }

  function Disconnect(c: ConnectionState): ConnectionState { c.(sockNum := MAX_SOCK_NUM) }

  // ------------------------------------------------------- What callbacks keep

  // An open connection, between callbacks. There is room in the buffer, the
  // decoder can be called, and the connection is between requests exactly if the
  // decoder is reset and the buffer is empty.
  ghost predicate Open(c: ConnectionState) {
    && c.HasSocket()
    && |c.buffer| < INPUT_BUFFER_SIZE
    && AtRest(c.decoder)
    && (c.betweenRequests <==> c.decoder.decoderStatus == Reset && c.buffer == "")
    && (c.decoder.decoderStatus == Reset ==> !c.decoder.request.haveServerTransactionId)
  }

  lemma ConnectOpens(c: ConnectionState, sockNum: nat)
    requires sockNum < MAX_SOCK_NUM
    ensures Open(Connect(c, sockNum)) && Connect(c, sockNum).sockNum == sockNum
  {
  }

  lemma BeginAtRest(d: DecoderState, id: uint32)
    requires AtRest(d)
    ensures AtRest(Begin(d, id))
  {
  }

  // A connection that is left open has room in its buffer for more; so it is never stuck.
  lemma CanReadKeepsOpen(c: ConnectionState, got: string, id: uint32, keepOpen: bool)
    requires Open(c) && |c.buffer + got| <= INPUT_BUFFER_SIZE
    ensures var c' := CanRead(c, got, id, keepOpen).state;
      && (c'.HasSocket() ==> Open(c') && c'.sockNum == c.sockNum)
      && (!c'.HasSocket() ==> c'.sockNum == MAX_SOCK_NUM)
  {
    hide DecodeBuffer, AtRest, ResetState;
    BeginAtRest(c.decoder, id);
    var r := DecodeBuffer(Begin(c.decoder, id), c.buffer + got, |c.buffer + got| == INPUT_BUFFER_SIZE, false);
    BufferKeeps(Begin(c.decoder, id), c.buffer + got, |c.buffer + got| == INPUT_BUFFER_SIZE, false);
    ResetIsAtRest(r.state);
    assert got == "" ==> c.buffer + got == c.buffer;
  }

  lemma ResetIsAtRest(d: DecoderState)
    ensures AtRest(ResetState(d))
    ensures ResetState(d).decoderStatus == Reset && !ResetState(d).request.haveServerTransactionId
  {
  }

  // A call that closes the connection gives up the socket.
  lemma CanReadCloses(c: ConnectionState, got: string, id: uint32, keepOpen: bool)
    requires c.HasSocket()
    ensures var r := CanRead(c, got, id, keepOpen); Closes(r.events, keepOpen) <==> !r.state.HasSocket()
  {
    hide DecodeBuffer;
  }

  // "Fields too large" is reported exactly when the buffer is full, decoding
  // needs more input, and consumes nothing of what there is.
  lemma FieldsTooLargeExactly(c: ConnectionState, got: string, id: uint32, keepOpen: bool)
    requires Open(c) && |c.buffer + got| <= INPUT_BUFFER_SIZE
    ensures
      (exists req :: DecodingError(req, HttpRequestHeaderFieldsTooLarge) in CanRead(c, got, id, keepOpen).events)
      <==>
      var v := c.buffer + got;
      var r := Decode(Begin(c.decoder, id), v);
      |v| == INPUT_BUFFER_SIZE && r.status.NeedMoreInput? && r.used == 0
  {
    hide DecodeMessage;
    var v := c.buffer + got;
    assert got == "" ==> v == c.buffer;
    var d := Begin(c.decoder, id);
    BeginAtRest(c.decoder, id);
    BufferKeeps(d, v, |v| == INPUT_BUFFER_SIZE, false);
    BufferKeeps(d, v, false, false);
    var events := CanRead(c, got, id, keepOpen).events;
    var r := DecodeBuffer(d, v, |v| == INPUT_BUFFER_SIZE, false);
    if v != "" && r.status.HttpRequestHeaderFieldsTooLarge? {
      assert events[|events| - 1] == DecodingError(r.state.request, HttpRequestHeaderFieldsTooLarge);
    }
  }

  // ------------------------------------------------------- Lifecycle of requests

  // Where a connection is in the life of its requests, judged by its events.
  // A request is announced once, and then has one outcome.
  datatype Lifecycle = Idle | InRequest | Ended | EndedUnannounced | Violated

  function Next(l: Lifecycle, e: Event): Lifecycle {
    match (l, e)
    case (Idle, StartDecoding(_)) => InRequest
    case (InRequest, RequestDecoded(_)) => Idle
    case (InRequest, DecodingError(_, _)) => Ended
    case (Idle, DecodingError(_, _)) => EndedUnannounced
    case _ => Violated
  }

  function After(l: Lifecycle, events: seq<Event>): Lifecycle
    decreases |events|
  {
    if events == [] then l else After(Next(l, events[0]), events[1..])
  }

  lemma {:induction false} AfterBoth(l: Lifecycle, a: seq<Event>, b: seq<Event>)
    ensures After(l, a + b) == After(After(l, a), b)
    decreases |a|
  {
    if a == [] {
      assert a + b == b;
    } else {
      assert (a + b)[1..] == a[1..] + b;
      AfterBoth(Next(l, a[0]), a[1..], b);
    }
  }

  // Where an open connection is.
  function Stage(c: ConnectionState): Lifecycle { if c.decoder.decoderStatus == Reset then Idle else InRequest }

  // The events of a call take the connection from where it was to where it is,
  // and a connection that is closed ends after an outcome.
  lemma CanReadLifecycle(c: ConnectionState, got: string, id: uint32, keepOpen: bool)
    requires Open(c) && |c.buffer + got| <= INPUT_BUFFER_SIZE
    ensures var r := CanRead(c, got, id, keepOpen);
      && (r.state.HasSocket() ==> After(Stage(c), r.events) == Stage(r.state))
      && (!r.state.HasSocket() ==>
            After(Stage(c), r.events) == Ended || (!keepOpen && After(Stage(c), r.events) == Idle))
  {
    hide DecodeBuffer;
    BeginAtRest(c.decoder, id);
    var d, v := Begin(c.decoder, id), c.buffer + got;
    BufferKeeps(d, v, |v| == INPUT_BUFFER_SIZE, false);
    assert got == "" ==> v == c.buffer;
    var r := DecodeBuffer(d, v, |v| == INPUT_BUFFER_SIZE, false);
    if v != "" && r.status.IsFinal() {
      var outcome := if r.status == HttpOk then RequestDecoded(r.state.request) else DecodingError(r.state.request, r.status);
      OneRequest(c, id, outcome);
    }
  }

  lemma OneRequest(c: ConnectionState, id: uint32, outcome: Event)
    requires !outcome.StartDecoding?
    ensures After(Stage(c), BeginEvents(c.decoder, id) + [outcome]) == if outcome.RequestDecoded? then Idle else Ended
  {
    AfterBoth(Stage(c), BeginEvents(c.decoder, id), [outcome]);
  }

  // When the client sends no more: an open connection with nothing to decode
  // closes silently. Otherwise an error is reported: of the request in hand, or,
  // exactly when the decoder was reset with text still in the buffer, of a
  // request that was never announced.
  lemma HalfClosedLifecycle(c: ConnectionState)
    requires Open(c)
    ensures var r := HalfClosed(c); var end := After(Stage(c), r.events);
      && !r.state.HasSocket()
      && (r.events == [] <==> c.decoder.decoderStatus == Reset && c.buffer == "")
      && (end == EndedUnannounced <==> c.decoder.decoderStatus == Reset && c.buffer != "")
      && (end == Ended <==> c.decoder.decoderStatus != Reset)
      && end != Violated
  {
  }

  // ----------------------------------------------------- Schedule independence

  // What decoding all of a text at once tells the listener, from request number
  // k on. Request k gets the id ids(k), and keep(k) says whether the connection
  // is kept open after it.
  ghost function Parse(d: DecoderState, text: string, k: nat, ids: nat -> uint32, keep: nat -> bool): seq<Event>
    requires AtRest(d)
    decreases |text|
  {
    hide Reference, AtRest;
    BeginAtRest(d, ids(k));
    ReferenceKeeps(Begin(d, ids(k)), text);
    if text == "" then []
    else
      var r := Reference(Begin(d, ids(k)), text);
      var started := BeginEvents(d, ids(k));
      if r.status.NeedMoreInput? then started
      else if r.status.HttpOk? then
        var more := if keep(k) then Parse(ResetState(r.state), text[r.used..], k + 1, ids, keep) else [];
        started + [RequestDecoded(r.state.request)] + more
      else
        started + [DecodingError(r.state.request, r.status)]
  }

  lemma ReferenceKeeps(d: DecoderState, text: string)
    requires AtRest(d)
    ensures var r := Reference(d, text);
      && !r.status.ContinueDecoding?
      && (r.status.HttpOk? ==> r.used > 0 && AtRest(ResetState(r.state)))
  {
    if RunsPastBody(d, text) {
      PastBodyKeeps(d, text);
    } else {
      hide Reference, RunsPastBody, Decode;
      DecodeIsReference(d, text);
      DecodeKeeps(d, text);
    }
  }

  lemma DecodeKeeps(d: DecoderState, text: string)
    requires AtRest(d)
    ensures var r := Decode(d, text);
      && !r.status.ContinueDecoding?
      && (r.status.HttpOk? ==> r.used > 0)
      && (r.status.NeedMoreInput? ==> AtRest(r.state) && r.state.decoderStatus != Reset)
  {
    hide DecodeMessage;
    BufferKeeps(d, text, false, false);
  }

  lemma PastBodyKeeps(d: DecoderState, text: string)
    requires AtRest(d) && RunsPastBody(d, text)
    ensures var r := Reference(d, text); !r.status.ContinueDecoding? && (r.status.HttpOk? ==> r.used > 0)
  {
    hide Loop, BodyAlone;
    var s := Started(d);
    if d.isDecodingHeader {
      LoopKeeps(s, text);
      var r := Loop(s, text);
      FullBodyOutcome(r.state, text[r.used..]);
    } else {
      FullBodyOutcome(s, text);
    }
  }

  // The next call neither sees beyond the end of a body nor reports that the
  // buffer is full.
  ghost predicate Faithful(c: ConnectionState, got: string, id: uint32) {
    var v, d := c.buffer + got, Begin(c.decoder, id);
    v != "" ==>
      && !RunsPastBody(d, v)
      && (|v| == INPUT_BUFFER_SIZE ==> !(Decode(d, v).status.NeedMoreInput? && Decode(d, v).used == 0))
  }

  // How many requests were decoded.
  function Decoded(events: seq<Event>): nat {
    if events == [] then 0
    else Decoded(events[..|events| - 1]) + if events[|events| - 1].RequestDecoded? then 1 else 0
  }

  lemma {:induction false} DecodedBoth(a: seq<Event>, b: seq<Event>)
    ensures Decoded(a + b) == Decoded(a) + Decoded(b)
    decreases |b|
  {
    if b == [] {
      assert a + b == a;
    } else {
      assert (a + b)[..|a + b| - 1] == a + b[..|b| - 1];
      DecodedBoth(a, b[..|b| - 1]);
    }
  }

  // What a whole run of calls will have told: what it told so far, and what
  // decoding the rest at once would tell. ("rest" is what has not been read.)
  ghost function Told(r: Result, rest: string, k: nat, ids: nat -> uint32, keep: nat -> bool): seq<Event>
    requires r.state.HasSocket() ==> AtRest(r.state.decoder)
  {
    r.events + if r.state.HasSocket() then Parse(r.state.decoder, r.state.buffer + rest, k + Decoded(r.events), ids, keep)
               else []
  }

  // Only the flag betweenRequests depends on what was read last.
  lemma CanReadDecodes(c: ConnectionState, got: string, id: uint32, keepOpen: bool)
    requires c.buffer + got != ""
    ensures var r, q := CanRead(c, got, id, keepOpen), DecodeInput(c.(buffer := c.buffer + got), id, keepOpen);
      && r.events == q.events && r.state.decoder == q.state.decoder && r.state.buffer == q.state.buffer
      && r.state.sockNum == q.state.sockNum
  {
    hide DecodeBuffer;
    assert got == "" ==> c.buffer + got == c.buffer;
  }

  // The outcome of a call that does not fill the buffer in vain is that of Decode.
  lemma FullMakesNoDifference(d: DecoderState, v: string, full: bool)
    requires full ==> !(Decode(d, v).status.NeedMoreInput? && Decode(d, v).used == 0)
    ensures DecodeBuffer(d, v, full, false) == Decode(d, v)
  {
    hide DecodeMessage;
  }

  lemma SameReset(a: Outcome, b: Outcome)
    requires Same(a, b)
    ensures ResetState(a.state) == ResetState(b.state) && a.state.request == b.state.request
    ensures a.state.decoderStatus == b.state.decoderStatus
  {
  }

  // Decoding that needs more input goes on from where it stopped.
  lemma NeedsMoreIsParse(d: DecoderState, v: string, rest: string, k: nat, ids: nat -> uint32, keep: nat -> bool)
    requires AtRest(d) && v != "" && !RunsPastBody(Begin(d, ids(k)), v)
    requires Decode(Begin(d, ids(k)), v).status.NeedMoreInput?
    ensures var o := Decode(Begin(d, ids(k)), v);
      && AtRest(o.state)
      && BeginEvents(d, ids(k)) + Parse(o.state, v[o.used..] + rest, k, ids, keep) == Parse(d, v + rest, k, ids, keep)
  {
    hide Decode, Reference, RunsPastBody, AtRest;
    var b := Begin(d, ids(k));
    BeginAtRest(d, ids(k));
    DecodeKeeps(b, v);
    BufferExtend(b, v, rest);
    var o := Decode(b, v);
    var left := v[o.used..] + rest;
    assert Begin(o.state, ids(k)) == o.state && BeginEvents(o.state, ids(k)) == [];
    var q, q' := Reference(b, v + rest), Reference(o.state, left);
    SameReset(q, Shift(q', o.used));
    if left == "" {
      assert rest == "" && v + rest == v;
      DecodeIsReference(b, v);
    } else {
      ReferenceKeeps(o.state, left);
      assert (v + rest)[q.used..] == left[q'.used..];
    }
  }

  lemma DecodedOne(d: DecoderState, id: uint32, outcome: Event)
    ensures Decoded(BeginEvents(d, id)) == 0
    ensures Decoded(BeginEvents(d, id) + [outcome]) == if outcome.RequestDecoded? then 1 else 0
  {
    assert (BeginEvents(d, id) + [outcome])[..|BeginEvents(d, id)|] == BeginEvents(d, id);
    assert BeginEvents(d, id)[..0] == [];
  }

  // A request decoded: its outcome, and what is parsed after it.
  lemma DecodedIsParse(d: DecoderState, v: string, rest: string, k: nat, ids: nat -> uint32, keep: nat -> bool)
    requires AtRest(d) && v != "" && !RunsPastBody(Begin(d, ids(k)), v)
    requires !Decode(Begin(d, ids(k)), v).status.NeedMoreInput?
    ensures var o := Decode(Begin(d, ids(k)), v); var started := BeginEvents(d, ids(k));
      && !o.status.ContinueDecoding?
      && (o.status.HttpOk? ==>
            && AtRest(ResetState(o.state))
            && Parse(d, v + rest, k, ids, keep) == started + [RequestDecoded(o.state.request)] +
                 if keep(k) then Parse(ResetState(o.state), v[o.used..] + rest, k + 1, ids, keep) else [])
      && (!o.status.HttpOk? ==>
            Parse(d, v + rest, k, ids, keep) == started + [DecodingError(o.state.request, o.status)])
  {
    hide Decode, Reference, RunsPastBody, AtRest;
    var b := Begin(d, ids(k));
    BeginAtRest(d, ids(k));
    DecodeKeeps(b, v);
    BufferExtend(b, v, rest);
    var o, q := Decode(b, v), Reference(b, v + rest);
    SameReset(q, o);
    ReferenceKeeps(b, v + rest);
    assert (v + rest)[o.used..] == v[o.used..] + rest;
  }

  lemma DecodeInputIsParse(c: ConnectionState, rest: string, k: nat, ids: nat -> uint32, keep: nat -> bool)
    requires c.HasSocket() && c.buffer != "" && AtRest(c.decoder) && Faithful(c, "", ids(k))
    ensures var r := DecodeInput(c, ids(k), keep(k));
      && (r.state.HasSocket() ==> AtRest(r.state.decoder))
      && Told(r, rest, k, ids, keep) == Parse(c.decoder, c.buffer + rest, k, ids, keep)
  {
    hide Decode, DecodeBuffer, RunsPastBody, AtRest, Parse, Decoded, ResetState, BeginEvents;
    var v, d := c.buffer, Begin(c.decoder, ids(k));
    assert c.buffer + "" == v;
    FullMakesNoDifference(d, v, |v| == INPUT_BUFFER_SIZE);
    var o := Decode(d, v);
    DecodedOne(c.decoder, ids(k), RequestDecoded(o.state.request));
    if o.status.NeedMoreInput? {
      NeedsMoreIsParse(c.decoder, v, rest, k, ids, keep);
    } else {
      DecodedIsParse(c.decoder, v, rest, k, ids, keep);
    }
  }

  // One call tells the start of what decoding everything at once tells.
  lemma CanReadIsParse(c: ConnectionState, got: string, rest: string, k: nat, ids: nat -> uint32, keep: nat -> bool)
    requires Open(c) && |c.buffer + got| <= INPUT_BUFFER_SIZE && Faithful(c, got, ids(k))
    ensures var r := CanRead(c, got, ids(k), keep(k));
      && (r.state.HasSocket() ==> AtRest(r.state.decoder))
      && Told(r, rest, k, ids, keep) == Parse(c.decoder, c.buffer + (got + rest), k, ids, keep)
  {
    hide Decode, DecodeBuffer, Reference, RunsPastBody, AtRest, Parse;
    var v := c.buffer + got;
    CanReadKeepsOpen(c, got, ids(k), keep(k));
    assert got == "" ==> v == c.buffer;
    assert v + rest == c.buffer + (got + rest);
    if v == "" {
      assert Told(CanRead(c, got, ids(k), keep(k)), rest, k, ids, keep) == Parse(c.decoder, "" + rest, k, ids, keep);
    } else {
      assert v + "" == v;
      DecodeInputIsParse(c.(buffer := v), rest, k, ids, keep);
      CanReadDecodes(c, got, ids(k), keep(k));
    }
  }

  // ---------------------------------------------------------------------- Runs

  // Successive calls of OnCanRead, until the connection is closed.
  function Run(c: ConnectionState, gots: seq<string>, k: nat, ids: nat -> uint32, keep: nat -> bool): Result
    decreases |gots|
  {
    if gots == [] || !c.HasSocket() then Result(c, [])
    else
      var r := CanRead(c, gots[0], ids(k), keep(k));
      var q := Run(r.state, gots[1..], k + Decoded(r.events), ids, keep);
      Result(q.state, r.events + q.events)
  }

  // Each call reads no more than fits in the buffer, and if need be is faithful.
  ghost predicate Fits(c: ConnectionState, gots: seq<string>, k: nat, ids: nat -> uint32, keep: nat -> bool,
                       faithfully: bool)
    decreases |gots|
  {
    gots == [] || !c.HasSocket() ||
    var r := CanRead(c, gots[0], ids(k), keep(k));
    && |c.buffer + gots[0]| <= INPUT_BUFFER_SIZE
    && (faithfully ==> Faithful(c, gots[0], ids(k)))
    && Fits(r.state, gots[1..], k + Decoded(r.events), ids, keep, faithfully)
  }

  // What the client sends, judged by the bytes alone: nothing follows the body of
  // a PUT; no prefix leaves 128 bytes or more that wait to be decoded, as it
  // does when a token needs that many to find its end; and the same holds of what
  // follows a request that is decoded and leaves the connection open.
  ghost predicate Modest(d: DecoderState, text: string, k: nat, ids: nat -> uint32, keep: nat -> bool)
    requires AtRest(d)
    decreases |text|
  {
    hide Reference, AtRest, RunsPastBody, Decode;
    BeginAtRest(d, ids(k));
    ReferenceKeeps(Begin(d, ids(k)), text);
    var b := Begin(d, ids(k));
    var r := Reference(b, text);
    text == "" ||
    (&& !RunsPastBody(b, text)
     && NeverWaitsForMany(b, text)
     && (r.status.HttpOk? && keep(k) ==> Modest(ResetState(r.state), text[r.used..], k + 1, ids, keep)))
  }

  ghost predicate NeverWaitsForMany(b: DecoderState, text: string) {
    forall n :: 0 < n <= |text| && Decode(b, text[..n]).status.NeedMoreInput? ==>
      n - Decode(b, text[..n]).used < INPUT_BUFFER_SIZE
  }

  // If that holds of a text then it holds of what is left of it when its start
  // has been decoded and more is needed.
  lemma StillNeverWaits(b: DecoderState, v: string, more: string)
    requires AtRest(b) && v != "" && !RunsPastBody(b, v + more) && NeverWaitsForMany(b, v + more)
    requires Decode(b, v).status.NeedMoreInput?
    ensures NeverWaitsForMany(Decode(b, v).state, v[Decode(b, v).used..] + more)
  {
    hide Decode, Reference, RunsPastBody, AtRest, Same;
    var text, o := v + more, Decode(b, v);
    var rest := v[o.used..] + more;
    assert text[..|v|] == v;
    forall n | 0 < n <= |rest| && Decode(o.state, rest[..n]).status.NeedMoreInput?
      ensures n - Decode(o.state, rest[..n]).used < INPUT_BUFFER_SIZE
    {
      if o.used + n >= |v| {
        var w := more[..o.used + n - |v|];
        assert text[..o.used + n] == v + w && rest[..n] == v[o.used..] + w;
        WaitsAsLong(b, v, w, more);
      }
    }
  }

  // How much waits to be decoded does not depend on how it came.
  lemma WaitsAsLong(b: DecoderState, v: string, w: string, more: string)
    requires AtRest(b) && !RunsPastBody(b, v + more) && w <= more && Decode(b, v).status.NeedMoreInput?
    ensures var o := Decode(b, v); var q := Decode(o.state, v[o.used..] + w);
      Decode(b, v + w).status == q.status && Decode(b, v + w).used == o.used + q.used
  {
    hide Decode, Reference, RunsPastBody, AtRest;
    var o := Decode(b, v);
    assert v + more == v + w + more[|w|..];
    PrefixDoesNotRunPastBody(b, v + w, more[|w|..]);
    PrefixDoesNotRunPastBody(b, v, w);
    BufferExtend(b, v, w);
    DecodeIsReference(b, v + w);
    DecodeIsReference(o.state, v[o.used..] + w);
  }

  // A run of calls of which each is faithful: the events told so far, followed by
  // what decoding all that is left at once would tell, are what decoding
  // everything at once tells.
  lemma {:induction false} FaithfulRunIsParse(
    c: ConnectionState, gots: seq<string>, rest: string, k: nat, ids: nat -> uint32, keep: nat -> bool)
    requires Open(c) && Fits(c, gots, k, ids, keep, true)
    ensures var r := Run(c, gots, k, ids, keep);
      && (r.state.HasSocket() ==> Open(r.state))
      && Told(r, rest, k, ids, keep) == Parse(c.decoder, c.buffer + (Concat(gots) + rest), k, ids, keep)
    decreases |gots|
  {
    hide CanRead, Open, Faithful, AtRest, Parse, Decoded;
    OpenIs(c);
    if gots == [] {
      assert Decoded([]) == 0 by { NothingDecoded(); }
      assert Concat(gots) + rest == rest;
    } else {
      var r, more := CanRead(c, gots[0], ids(k), keep(k)), Concat(gots[1..]) + rest;
      assert gots[0] + more == Concat(gots) + rest;
      CanReadKeepsOpen(c, gots[0], ids(k), keep(k));
      CanReadIsParse(c, gots[0], more, k, ids, keep);
      if r.state.HasSocket() {
        var k' := k + Decoded(r.events);
        FaithfulRunIsParse(r.state, gots[1..], rest, k', ids, keep);
        var q := Run(r.state, gots[1..], k', ids, keep);
        if q.state.HasSocket() { OpenIs(q.state); }
        ToldLater(r, q, rest, k, ids, keep);
      }
    }
  }

  // What a call told, and then what is told after it.
  lemma ToldLater(r: Result, q: Result, rest: string, k: nat, ids: nat -> uint32, keep: nat -> bool)
    requires q.state.HasSocket() ==> AtRest(q.state.decoder)
    ensures Told(Result(q.state, r.events + q.events), rest, k, ids, keep) ==
      r.events + Told(q, rest, k + Decoded(r.events), ids, keep)
  {
    hide AtRest, Parse, Decoded;
    DecodedBoth(r.events, q.events);
  }

  lemma NothingDecoded()
    ensures Decoded([]) == 0
  {
  }

  lemma OpenIs(c: ConnectionState)
    requires Open(c)
    ensures c.HasSocket() && AtRest(c.decoder)
  {
  }

  // ---------------------------------------------- What is modest is faithful

  lemma ModestAtFirst(d: DecoderState, v: string, more: string, k: nat, ids: nat -> uint32, keep: nat -> bool)
    requires AtRest(d) && v != "" && Modest(d, v + more, k, ids, keep)
    ensures var b := Begin(d, ids(k)); var o := Decode(b, v);
      && AtRest(b) && !RunsPastBody(b, v + more) && !RunsPastBody(b, v) && NeverWaitsForMany(b, v + more)
      && (o.status.NeedMoreInput? ==> |v| - o.used < INPUT_BUFFER_SIZE)
  {
    hide Decode, Reference, RunsPastBody, AtRest;
    BeginAtRest(d, ids(k));
    PrefixDoesNotRunPastBody(Begin(d, ids(k)), v, more);
    assert (v + more)[..|v|] == v;
  }

  lemma WaitingStaysModest(d: DecoderState, v: string, more: string, k: nat, ids: nat -> uint32, keep: nat -> bool)
    requires AtRest(d) && v != "" && Modest(d, v + more, k, ids, keep)
    requires Decode(Begin(d, ids(k)), v).status.NeedMoreInput?
    ensures var o := Decode(Begin(d, ids(k)), v);
      AtRest(o.state) && Modest(o.state, v[o.used..] + more, k, ids, keep)
  {
    hide Decode, Reference, RunsPastBody, AtRest, NeverWaitsForMany;
    var b := Begin(d, ids(k));
    ModestAtFirst(d, v, more, k, ids, keep);
    DecodeKeeps(b, v);
    BufferExtend(b, v, more);
    StillNeverWaits(b, v, more);
    var o := Decode(b, v);
    var left := v[o.used..] + more;
    assert Begin(o.state, ids(k)) == o.state;
    var q, q' := Reference(b, v + more), Reference(o.state, left);
    SameReset(q, Shift(q', o.used));
    assert (v + more)[q.used..] == left[q'.used..];
  }

  lemma DecodedStaysModest(d: DecoderState, v: string, more: string, k: nat, ids: nat -> uint32, keep: nat -> bool)
    requires AtRest(d) && v != "" && Modest(d, v + more, k, ids, keep)
    requires Decode(Begin(d, ids(k)), v).status.HttpOk? && keep(k)
    ensures var o := Decode(Begin(d, ids(k)), v);
      AtRest(ResetState(o.state)) && Modest(ResetState(o.state), v[o.used..] + more, k + 1, ids, keep)
  {
    hide Decode, Reference, RunsPastBody, AtRest, NeverWaitsForMany;
    var b := Begin(d, ids(k));
    ModestAtFirst(d, v, more, k, ids, keep);
    BufferExtend(b, v, more);
    ReferenceKeeps(b, v + more);
    var o := Decode(b, v);
    SameReset(Reference(b, v + more), o);
    assert (v + more)[o.used..] == v[o.used..] + more;
  }

  // A call on modest bytes is faithful, and what is left is modest.
  lemma CanReadStaysModest(c: ConnectionState, got: string, more: string, k: nat,
                           ids: nat -> uint32, keep: nat -> bool)
    requires Open(c) && |c.buffer + got| <= INPUT_BUFFER_SIZE && AtRest(c.decoder)
    requires Modest(c.decoder, c.buffer + got + more, k, ids, keep)
    ensures Faithful(c, got, ids(k))
    ensures var r := CanRead(c, got, ids(k), keep(k));
      r.state.HasSocket() ==>
        AtRest(r.state.decoder) && Modest(r.state.decoder, r.state.buffer + more, k + Decoded(r.events), ids, keep)
  {
    hide Decode, DecodeBuffer, Reference, RunsPastBody, AtRest, Modest, Decoded, ResetState, BeginEvents;
    var v, b := c.buffer + got, Begin(c.decoder, ids(k));
    assert got == "" ==> v == c.buffer;
    if v == "" {
      NothingDecoded();
      assert v + more == more && c.buffer + more == more;
    } else {
      ModestAtFirst(c.decoder, v, more, k, ids, keep);
      FullMakesNoDifference(b, v, |v| == INPUT_BUFFER_SIZE);
      var o := Decode(b, v);
      DecodedOne(c.decoder, ids(k), RequestDecoded(o.state.request));
      if o.status.NeedMoreInput? {
        WaitingStaysModest(c.decoder, v, more, k, ids, keep);
      } else if o.status.HttpOk? && keep(k) {
        DecodedStaysModest(c.decoder, v, more, k, ids, keep);
      }
    }
  }

  lemma {:induction false} ModestIsFaithful(c: ConnectionState, gots: seq<string>, k: nat,
                                            ids: nat -> uint32, keep: nat -> bool)
    requires Open(c) && AtRest(c.decoder) && Fits(c, gots, k, ids, keep, false)
    requires Modest(c.decoder, c.buffer + Concat(gots), k, ids, keep)
    ensures Fits(c, gots, k, ids, keep, true)
    decreases |gots|
  {
    hide CanRead, Open, Faithful, AtRest, Modest, Decoded;
    OpenIs(c);
    if gots != [] {
      var r := CanRead(c, gots[0], ids(k), keep(k));
      assert c.buffer + Concat(gots) == c.buffer + gots[0] + Concat(gots[1..]);
      CanReadKeepsOpen(c, gots[0], ids(k), keep(k));
      CanReadStaysModest(c, gots[0], Concat(gots[1..]), k, ids, keep);
      if r.state.HasSocket() {
        ModestIsFaithful(r.state, gots[1..], k + Decoded(r.events), ids, keep);
      }
    }
  }

  // Schedule independence: if what the client sends is modest, then whatever was
  // read by which call, the events told so far, followed by what decoding all
  // that is left at once would tell, are what decoding everything at once tells.
  lemma ScheduleIndependence(c: ConnectionState, gots: seq<string>, rest: string, k: nat,
                             ids: nat -> uint32, keep: nat -> bool)
    requires Open(c) && AtRest(c.decoder) && Fits(c, gots, k, ids, keep, false)
    requires Modest(c.decoder, c.buffer + Concat(gots), k, ids, keep)
    ensures var r := Run(c, gots, k, ids, keep);
      && (r.state.HasSocket() ==> Open(r.state) && AtRest(r.state.decoder))
      && Told(r, rest, k, ids, keep) == Parse(c.decoder, c.buffer + (Concat(gots) + rest), k, ids, keep)
  {
    hide Run, Open, Fits, Parse, AtRest, Modest;
    ModestIsFaithful(c, gots, k, ids, keep);
    FaithfulRunIsParse(c, gots, rest, k, ids, keep);
    var r := Run(c, gots, k, ids, keep);
    if r.state.HasSocket() { OpenIs(r.state); }
  }

  // So two schedules of the same modest bytes tell the listener the same, up to
  // what each has still to decode of the bytes in its buffer.
  lemma SchedulesAgree(c: ConnectionState, gots: seq<string>, gots': seq<string>, k: nat,
                       ids: nat -> uint32, keep: nat -> bool)
    requires Open(c) && AtRest(c.decoder) && Concat(gots) == Concat(gots')
    requires Fits(c, gots, k, ids, keep, false) && Fits(c, gots', k, ids, keep, false)
    requires Modest(c.decoder, c.buffer + Concat(gots), k, ids, keep)
    ensures var r, r' := Run(c, gots, k, ids, keep), Run(c, gots', k, ids, keep);
      && (r.state.HasSocket() ==> AtRest(r.state.decoder)) && (r'.state.HasSocket() ==> AtRest(r'.state.decoder))
      && Told(r, "", k, ids, keep) == Told(r', "", k, ids, keep)
  {
    hide Run, Open, Fits, Parse, AtRest, Modest;
    ScheduleIndependence(c, gots, "", k, ids, keep);
    ScheduleIndependence(c, gots', "", k, ids, keep);
  }

  // Calls that read nothing.
  function Empties(n: nat): seq<string> { seq(n, i => "") }

  lemma EmptiesOn(n: nat)
    ensures n > 0 ==> Empties(n) != [] && Empties(n)[0] == "" && Empties(n)[1..] == Empties(n - 1)
    ensures n == 0 ==> Empties(n) == []
  {
  }

  // Once nothing is left that decoding at once would tell, nothing more is told.
  lemma {:induction false} Silent(c: ConnectionState, n: nat, k: nat, ids: nat -> uint32, keep: nat -> bool)
    requires Open(c) && AtRest(c.decoder) && Modest(c.decoder, c.buffer, k, ids, keep)
    requires Parse(c.decoder, c.buffer, k, ids, keep) == []
    ensures Run(c, Empties(n), k, ids, keep).events == []
    decreases n
  {
    hide CanRead, Open, AtRest, Modest, Parse, Decoded;
    EmptiesOn(n);
    if n > 0 && c.HasSocket() {
      var r := CanRead(c, "", ids(k), keep(k));
      assert c.buffer + "" == c.buffer && c.buffer + ("" + "") == c.buffer && c.buffer + "" + "" == c.buffer;
      OpenIs(c);
      OpenFits(c);
      CanReadKeepsOpen(c, "", ids(k), keep(k));
      CanReadStaysModest(c, "", "", k, ids, keep);
      CanReadIsParse(c, "", "", k, ids, keep);
      assert r.events == [];
      if r.state.HasSocket() {
        assert r.state.buffer + "" == r.state.buffer;
        Silent(r.state, n - 1, k + Decoded(r.events), ids, keep);
      }
    }
  }

  lemma OpenFits(c: ConnectionState)
    requires Open(c)
    ensures |c.buffer| < INPUT_BUFFER_SIZE
  {
  }

  // What waits in the buffer is decoded by as many calls as it has bytes, and one.
  lemma {:induction false} Drains(c: ConnectionState, n: nat, k: nat, ids: nat -> uint32, keep: nat -> bool)
    requires Open(c) && AtRest(c.decoder) && Modest(c.decoder, c.buffer, k, ids, keep) && n > |c.buffer|
    ensures Run(c, Empties(n), k, ids, keep).events == Parse(c.decoder, c.buffer, k, ids, keep)
    decreases |c.buffer|
  {
    hide CanRead, Open, AtRest, Modest, Parse, Decoded;
    EmptiesOn(n);
    OpenIs(c);
    OpenFits(c);
    var r := CanRead(c, "", ids(k), keep(k));
    assert c.buffer + "" == c.buffer && c.buffer + ("" + "") == c.buffer && c.buffer + "" + "" == c.buffer;
    CanReadKeepsOpen(c, "", ids(k), keep(k));
    CanReadStaysModest(c, "", "", k, ids, keep);
    CanReadIsParse(c, "", "", k, ids, keep);
    if r.state.HasSocket() {
      var k' := k + Decoded(r.events);
      assert r.state.buffer + "" == r.state.buffer;
      LeftOver(c, k, ids, keep);
      if Parse(r.state.decoder, r.state.buffer, k', ids, keep) == [] {
        Silent(r.state, n - 1, k', ids, keep);
      } else {
        Drains(r.state, n - 1, k', ids, keep);
      }
    }
  }

  // A call that reads nothing leaves less in the buffer, or nothing to tell.
  lemma LeftOver(c: ConnectionState, k: nat, ids: nat -> uint32, keep: nat -> bool)
    requires Open(c) && AtRest(c.decoder) && Modest(c.decoder, c.buffer, k, ids, keep)
    ensures var r := CanRead(c, "", ids(k), keep(k));
      r.state.HasSocket() ==>
        && AtRest(r.state.decoder)
        && (|r.state.buffer| < |c.buffer|
            || Parse(r.state.decoder, r.state.buffer, k + Decoded(r.events), ids, keep) == [])
  {
    hide Decode, DecodeBuffer, Reference, RunsPastBody, AtRest, Modest, Decoded, ResetState, Parse;
    var v, b := c.buffer, Begin(c.decoder, ids(k));
    if v == "" {
      NothingToParse(c.decoder, k + Decoded([]), ids, keep);
    } else {
      assert v + "" == v;
      ModestAtFirst(c.decoder, v, "", k, ids, keep);
      FullMakesNoDifference(b, v, |v| == INPUT_BUFFER_SIZE);
      DecodeKeeps(b, v);
      var o := Decode(b, v);
      if o.status.NeedMoreInput? {
        DecodedOne(c.decoder, ids(k), RequestDecoded(o.state.request));
        NeedsMoreIsParse(c.decoder, v, "", k, ids, keep);
        DecodeIsReference(b, v);
        assert v[o.used..] + "" == v[o.used..];
        WaitingParse(c.decoder, v, k, ids, keep);
      } else if o.status.HttpOk? {
        ResetIsAtRest(o.state);
      }
    }
  }

  lemma NothingToParse(d: DecoderState, k: nat, ids: nat -> uint32, keep: nat -> bool)
    requires AtRest(d)
    ensures Parse(d, "", k, ids, keep) == []
  {
    hide Reference, AtRest;
  }

  lemma WaitingParse(d: DecoderState, v: string, k: nat, ids: nat -> uint32, keep: nat -> bool)
    requires AtRest(d) && v != "" && Reference(Begin(d, ids(k)), v).status.NeedMoreInput?
    ensures Parse(d, v, k, ids, keep) == BeginEvents(d, ids(k))
  {
    hide Reference, AtRest;
  }

  // When all has been read, and OnCanRead has been called once more for each byte
  // that the buffer can hold, all has been told that decoding everything at once
  // tells, and nothing else.
  lemma {:induction false} EverythingIsTold(c: ConnectionState, gots: seq<string>, n: nat, k: nat,
                                            ids: nat -> uint32, keep: nat -> bool)
    requires Open(c) && AtRest(c.decoder) && Fits(c, gots, k, ids, keep, false) && n >= INPUT_BUFFER_SIZE
    requires Modest(c.decoder, c.buffer + Concat(gots), k, ids, keep)
    ensures Run(c, gots + Empties(n), k, ids, keep).events ==
      Parse(c.decoder, c.buffer + Concat(gots), k, ids, keep)
    decreases |gots|
  {
    hide CanRead, Open, AtRest, Modest, Parse, Decoded;
    OpenIs(c);
    if gots == [] {
      assert gots + Empties(n) == Empties(n) && c.buffer + Concat(gots) == c.buffer;
      OpenFits(c);
      Drains(c, n, k, ids, keep);
    } else {
      var r, more := CanRead(c, gots[0], ids(k), keep(k)), gots[1..];
      var all := gots + Empties(n);
      assert all[0] == gots[0] && all[1..] == more + Empties(n);
      assert c.buffer + Concat(gots) == c.buffer + gots[0] + Concat(more);
      assert gots[0] + Concat(more) == Concat(gots);
      CanReadKeepsOpen(c, gots[0], ids(k), keep(k));
      CanReadStaysModest(c, gots[0], Concat(more), k, ids, keep);
      CanReadIsParse(c, gots[0], Concat(more), k, ids, keep);
      if r.state.HasSocket() {
        EverythingIsTold(r.state, more, n, k + Decoded(r.events), ids, keep);
      }
    }
  }

  ghost predicate IsSuffix(a: string, b: string) {
    |a| <= |b| && b[|b| - |a|..] == a
  }

  // Every run, faithful or not, keeps the connection open and not stuck or ends
  // it; announces every request once before its outcome; and loses or reorders
  // no byte: what is in the buffer is the end of what was read.
  lemma {:induction false} RunKeeps(c: ConnectionState, gots: seq<string>, k: nat,
                                    ids: nat -> uint32, keep: nat -> bool)
    requires Open(c) && Fits(c, gots, k, ids, keep, false)
    ensures var r := Run(c, gots, k, ids, keep); var end := After(Stage(c), r.events);
      && (r.state.HasSocket() ==> Open(r.state) && end == Stage(r.state)
                                  && IsSuffix(r.state.buffer, c.buffer + Concat(gots)))
      && (!r.state.HasSocket() ==> end == Ended || end == Idle)
    decreases |gots|
  {
    hide CanRead, Open, AtRest, After;
    assert Open(c) ==> c.HasSocket() by { hide *; OpenIs(c); }
    if gots == [] {
      assert c.buffer + Concat(gots) == c.buffer;
      assert After(Stage(c), []) == Stage(c) by { NothingAfter(Stage(c)); }
    } else {
      var r, more := CanRead(c, gots[0], ids(k), keep(k)), gots[1..];
      assert c.buffer + Concat(gots) == c.buffer + gots[0] + Concat(more);
      CanReadKeepsOpen(c, gots[0], ids(k), keep(k));
      CanReadLifecycle(c, gots[0], ids(k), keep(k));
      CanReadLeavesSuffix(c, gots[0], ids(k), keep(k));
      var k' := k + Decoded(r.events);
      var q := Run(r.state, more, k', ids, keep);
      AfterBoth(Stage(c), r.events, q.events);
      NothingAfter(After(Stage(c), r.events));
      if r.state.HasSocket() {
        RunKeeps(r.state, more, k', ids, keep);
        SuffixOfMore(r.state.buffer, c.buffer + gots[0], Concat(more), q.state.buffer);
      }
    }
  }

  lemma NothingAfter(l: Lifecycle)
    ensures After(l, []) == l
  {
  }

  lemma CanReadLeavesSuffix(c: ConnectionState, got: string, id: uint32, keepOpen: bool)
    ensures IsSuffix(CanRead(c, got, id, keepOpen).state.buffer, c.buffer + got)
  {
    hide DecodeBuffer;
    assert got == "" ==> c.buffer + got == c.buffer;
  }

  lemma SuffixOfMore(a: string, b: string, more: string, d: string)
    requires IsSuffix(a, b)
    ensures IsSuffix(d, a + more) ==> IsSuffix(d, b + more)
  {
    if IsSuffix(d, a + more) {
      assert a + more == (b + more)[|b| - |a|..];
    }
  }

  // --------------------------------------------------------- Transaction ids

  // The ids of all the requests announced, in order.
  function Ids(events: seq<Event>): seq<uint32> {
    if events == [] then []
    else Ids(events[..|events| - 1]) + match events[|events| - 1] case StartDecoding(id) => [id] case _ => []
  }

  // The listener counts modulo 2^32, from the first request of any connection.
  ghost predicate Counted(events: seq<Event>, counter: uint32) {
    && counter == |Ids(events)| % 0x1_0000_0000
    && forall i :: 0 <= i < |Ids(events)| ==> Ids(events)[i] == (i + 1) % 0x1_0000_0000
  }

  function NextId(counter: uint32): uint32 { (counter + 1) % 0x1_0000_0000 }

  lemma {:induction false} IdsBoth(a: seq<Event>, b: seq<Event>)
    ensures Ids(a + b) == Ids(a) + Ids(b)
    decreases |b|
  {
    if b == [] {
      assert a + b == a;
    } else {
      assert (a + b)[..|a + b| - 1] == a + b[..|b| - 1];
      IdsBoth(a, b[..|b| - 1]);
    }
  }

  // A product with a positive number is at least as large.
  lemma AtLeast(k: int, m: nat)
    requires k >= 1
    ensures k * m >= m
  {
    assert (k - 1) * m >= 0;
    assert k * m == (k - 1) * m + m;
  }

  lemma SameQuotient(q: int, r: int, k: int, s: int, m: nat)
    requires 0 <= r < m && 0 <= s < m && q * m + r == k * m + s
    ensures r == s
  {
    assert (q - k) * m == s - r;
    if q > k {
      AtLeast(q - k, m);
    } else if q < k {
      assert (k - q) * m == -((q - k) * m);
      AtLeast(k - q, m);
    }
  }

  lemma SameRemainder(i: nat, j: nat, m: nat)
    requires i < j && 0 < m
    ensures (i + 1) % m == (j + 1) % m <==> (j - i) % m == 0
  {
    var a, b, d := (i + 1) / m, (j + 1) / m, (j - i) / m;
    assert i + 1 == a * m + (i + 1) % m && j + 1 == b * m + (j + 1) % m && j - i == d * m + (j - i) % m;
    if (j - i) % m == 0 {
      assert j + 1 == (a + d) * m + (i + 1) % m by { assert (a + d) * m == a * m + d * m; }
      SameQuotient(b, (j + 1) % m, a + d, (i + 1) % m, m);
    }
    if (i + 1) % m == (j + 1) % m {
      assert j - i == (b - a) * m + 0 by { assert (b - a) * m == b * m - a * m; }
      SameQuotient(d, (j - i) % m, b - a, 0, m);
    }
  }

  // Ids repeat exactly when 2^32 requests, or a multiple of that, lie between them.
  lemma IdsAreDistinct(events: seq<Event>, counter: uint32, i: nat, j: nat)
    requires Counted(events, counter) && i < j < |Ids(events)|
    ensures Ids(events)[i] == Ids(events)[j] <==> (j - i) % 0x1_0000_0000 == 0
  {
    hide Ids;
    SameRemainder(i, j, 0x1_0000_0000);
  }
}
