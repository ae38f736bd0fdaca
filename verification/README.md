# Tiny Alpaca Server: a verified model

Tiny Alpaca Server is a small web server for microcontrollers that speaks ASCOM
Alpaca, a protocol by which astronomy programs control telescope equipment. This
project models its most intricate parts in Dafny and proves what they promise.
`dafny verify dfyconfig.toml` checks all of it.

**Requests.** `DecoderSpec` describes the incremental request decoder, nineteen
decode functions that work on whatever part of a request has arrived, as step
functions on its state; `RequestDecoders` holds the same code as methods of a
class, proved to compute them. `Fragmentation` proves that it does not matter how
a request is cut into buffers. `RequestGrammar` says, with trees, what requests are
and what they mean; the `Grammar*` modules prove that the decoder accepts exactly
their texts and computes that meaning, and `DecodedRequests` what that says of a call
and of a request fed in pieces. `ParameterSoundness` says when parameters are accepted
and what is stored, and `AveragePeriods` why one of them can be set only once.
`DebugChecks` is about the one check of a debug build that can fail. `HttpRequests`, `RequestRoundTrip` and `DeviceRequests` add the
tests' own request writer and prove the round trip.

**Connections.** `ConnectionSpec` and `ServerConnections` model the connection that
feeds the decoder through a buffer of 128 bytes; `SocketSpec`, `Hardware` and
`ServerSockets` add the hardware socket below it, which may do anything that its
documentation allows, and the state machine that turns its status into callbacks.

**Responses.** `JsonSpec`, `JsonEncoders` and `JsonDecoders` model both directions
of JSON; `Prints`, `ResponseSpec` and `Responses` the two-pass writer of HTTP
responses, and the tests' reader of them.

**Smaller parts.** `Covers`: a stepper motor shared by the main program and an
interrupt routine. `Checksums` and `SavedAddresses`: addresses kept in EEPROM under
a CRC. `WriteBuffers`: the buffer in front of a network client. `Timers`: settings
of a 16-bit timer. `Phase2Sources` and `TokenGroups`: the source map, the groups
and the edits of the C++ tokenizer among the development tools.

## How to read it

An imperative part of the source is a class or a method here, with an `ensures`
that equates its effect with a function of its inputs and old state; the theorems
are lemmas about those functions. `Reference` (in `Fragmentation`) is decoding that
never looks past the end of a body; `DecodedRequests` carries what is proved about it
over to the calls of the decoder. `Passes` and `Succeeds` (in `GrammarSteps` and
`GrammarParameters`) compose steps of the decoder. `Open` (in `ConnectionSpec`) and
`Agree` (in `SocketSpec`) are the invariants of connections and sockets.

Where an environment is involved (bytes read, statuses of the hardware, answers of
the request listener, times, pins and interrupts) every theorem is about all its
possible behaviours.

The models are of the code without its debug checks, and lines that only log are
left out. Of the checks of the decoder all but one hold: each is a precondition that
callers are proved to meet, or an assertion where it stands. `DebugChecks` says
exactly when that one fails. Those of the connection and of the covers all hold; those
of the server socket are the subject of `SocketSpec.AssertionsAreTrue`. In `Timers` a
number out of range disables the timer, where a debug build stops
(src/utils/avr_timer_counter.cpp:106, 128 and 187).

## Where the code differs from what one might expect

Each of these is stated by the lemmas named, with the exact condition.

- Bytes that follow the body of a PUT in the same buffer make it too large; if they
  come later they do not. This is the only way in which slicing matters
  (`DecodedRequests.DecodedExactly`, `Fragmentation.OnlyRunningPastBodyMattersFed`).
- A debug build stops at some requests that are acceptable: those whose body ends with
  the name of a parameter that is not built in and an equals sign, when all of the body
  is in view (src/request_decoder.cpp:1053-1060; `DebugChecks.CheckFailsExactly`,
  `DebugChecks.CheckFailsFedExactly`, `DebugChecks.BareRequestStopsADebugBuild`).
- `AlpacaRequest::Reset` does not clear the flag of AveragePeriod, and nothing else
  does. Once a request has set it, even one that is then refused, every request with
  that parameter is refused on the same `ServerConnection`, whichever client connects
  to it (`AveragePeriods.PeriodIsSetOnce`, `AveragePeriods.AcceptedWithoutFed`).
- Switch ids from 2^31 on are stored as negative numbers
  (`ParameterSoundness.IdIsNarrowed`).
- A whole request that waits in the buffer when the client closes its side is never
  decoded (`PipelinedRequests.PipelinedRequestIsLost`).
- A client whose connection is complete between the moment a socket starts to listen
  and the moment its status is read is not announced, but can be heard of afterwards
  (`SocketSpec.PerformIOKeeps`, `SocketSpec.UnseenIsNotAnnounced`,
  `SocketSpec.CallbacksInOrder`).
- `peer_half_closed` tests the number of the socket in place of its status and is
  never true (`ServerConnections.TcpServerConnection.PeerHalfClosed`).
- HEAD is accepted as a method, but ends in an internal server error
  (`DecodedRequests.OnlyGetAndPutAreServed`).
- A cover that is turned round can stop at once although the call succeeds
  (`Covers.StartsUnlessCutShort`, `Covers.TurningRoundCanFail`,
  `Covers.FailsFromTheStart`).
- Re-quantising the cycles of a timer setting can choose a smaller divisor
  (`Timers.QuantisedAgain`); so many microseconds that their product wraps around can
  enable a timer that should be disabled (`Timers.MicroSecondsAreRight`); and with an
  `int` of 16 bits, as on the AVR, every count that needs a divisor disables the timer
  (`Timers.SixteenBitLimits`).

Header and parameter state of the decoder share storage in the source
(`src/request_decoder.h`); here they are two fields, as neither is read before it is
written.

## Model

| member | source | states |
|---|---|---|
| `StringViews.StringView.Equals` | src/utils/string_view.cpp:11-23 | compares from the end; true exactly for equal texts |
| `StringViews.StringView.RemovePrefix` | src/utils/string_view.h:92-98 | drops characters from the front, never more than there are, and moves the pointer with them |
| `StringViews.StringView.RemoveSuffix` | src/utils/string_view.h:101-104 | drops characters from the end |
| `StringViews.StringView.StartsWith` | src/utils/string_view.h:159-161 | true exactly if the other text is a prefix |
| `StringViews.StringView.MatchAndConsume` | src/utils/string_view.h:73-79 | consumes a prefix if it is there, and else leaves the view alone |
| `StringViews.StringView.ContainsText` | src/utils/string_view.h:142-151 | true exactly if the other text occurs somewhere |
| `StringViews.StringView.FindFirstNotOf` | src/request_decoder.cpp:96-104 | the length of the longest run of matching characters, or the maximum size if all match |
| `StringViews.StringView.ToUint32` | src/utils/string_view.cpp:72-87 | accepts exactly the nonempty digit strings whose number fits in 32 bits, and gives that number; no intermediate value wraps around |
| `StringViews.StringView.ToInt32` | src/utils/string_view.cpp:89-115 | the same for signed numbers of 32 bits, down to -2^31 |
| `StringViews.StringView.ToReal` | src/utils/string_view.cpp:117-158 | accepts exactly an optional sign and digits with at most one point, and gives the number they denote in exact arithmetic |
| `StringViews.AddOnesPlace` | src/utils/string_view.cpp:45-59 | adds a digit exactly if the result fits in 32 bits |
| `Text.SpanIsLongest` | src/request_decoder.cpp:96-104 | a run of matching characters is the longest: all in it match and the one after it does not |
| `Text.SpanExtend` | src/request_decoder.cpp:131-143 | a run that ends in view stays the same when more text arrives, and one that does not goes on into it |
| `Text.Uint32RoundTrip` | src/utils/string_view.cpp:72-87 | the decimal text of any 32-bit number is read back as the number |
| `Text.Int32RoundTrip` | src/utils/string_view.cpp:89-115 | the same for signed numbers |
| `Protocol.MatchIsEntry` | src/match_literals.cpp:24-58 | what an exact match finds is an entry of its table under exactly that text |
| `Protocol.MatchFindsExactly` | src/match_literals.cpp:24-58 | and every entry is found under its own text, unless an earlier one has the same |
| `Protocol.MatchFinds` | src/match_literals.cpp:188-228 | an entry is found by its word in any case, unless an earlier entry is the same word |
| `Protocol.MatchIgnoresCase` | src/match_literals.cpp:188-236 | a word and the same word in other case match alike |
| `Protocol.SetupIsSetup` | src/match_literals.cpp:142-186 | the method found for a device is "setup" exactly if the API is that of setup |
| `AlpacaRequests.AlpacaRequest.Reset` | src/alpaca_request.cpp:15-52 | the whole state after Reset, which keeps some values and the AveragePeriod flag |
| `RequestDecoders.RequestDecoderState.Reset` | src/request_decoder.cpp:879-889 | the whole decoder state after Reset, with the fields that it leaves alone |
| `RequestDecoders.RequestDecoderState.DecodeHttpMethod` | src/request_decoder.cpp:806-833 | the method name, ended by a space: status, state and consumed text are those of the step function |
| `RequestDecoders.RequestDecoderState.MatchStartOfPath` | src/request_decoder.cpp:792-804 | the slash that starts the path: status, state and consumed text are those of the step function |
| `RequestDecoders.RequestDecoderState.DecodeApiGroup` | src/request_decoder.cpp:745-790 | the first word of the path, and whether the method may use it: status, state and consumed text are those of the step function |
| `RequestDecoders.RequestDecoderState.DecodeApiVersion` | src/request_decoder.cpp:674-689 | the version of the API: status, state and consumed text are those of the step function |
| `RequestDecoders.RequestDecoderState.DecodeDeviceType` | src/request_decoder.cpp:653-672 | the type of device: status, state and consumed text are those of the step function |
| `RequestDecoders.RequestDecoderState.DecodeDeviceNumber` | src/request_decoder.cpp:636-651 | the number of the device: status, state and consumed text are those of the step function |
| `RequestDecoders.RequestDecoderState.DecodeDeviceMethod` | src/request_decoder.cpp:602-634 | the method of the device, ended by a question mark or a space: status, state and consumed text are those of the step function; and the method is "setup" exactly if the API is that of setup, as is checked there |
| `RequestDecoders.RequestDecoderState.DecodeManagementType` | src/request_decoder.cpp:720-743 | what follows "management": status, state and consumed text are those of the step function |
| `RequestDecoders.RequestDecoderState.DecodeManagementMethod` | src/request_decoder.cpp:691-718 | the management method: status, state and consumed text are those of the step function |
| `RequestDecoders.RequestDecoderState.DecodeEndOfPath` | src/request_decoder.cpp:585-600 | whether a query follows the path: status, state and consumed text are those of the step function |
| `RequestDecoders.RequestDecoderState.MatchHttpVersion` | src/request_decoder.cpp:379-390 | the HTTP version and the end of the start line: status, state and consumed text are those of the step function |
| `RequestDecoders.RequestDecoderState.DecodeHeaderLines` | src/request_decoder.cpp:341-377 | the end of the header, and what is to be done then for each method: status, state and consumed text are those of the step function |
| `RequestDecoders.RequestDecoderState.DecodeHeaderName` | src/request_decoder.cpp:314-339 | the name of a header, and whether its value matters: status, state and consumed text are those of the step function |
| `RequestDecoders.RequestDecoderState.DecodeHeaderValue` | src/request_decoder.cpp:215-302 | the value of a header without the whitespace around it, and its effect: status, state and consumed text are those of the step function |
| `RequestDecoders.RequestDecoderState.SkipHeaderValue` | src/request_decoder.cpp:304-312 | a value that does not matter: status, state and consumed text are those of the step function |
| `RequestDecoders.RequestDecoderState.DecodeHeaderLineEnd` | src/request_decoder.cpp:200-213 | the end of a header line: status, state and consumed text are those of the step function |
| `RequestDecoders.RequestDecoderState.DecodeParamName` | src/request_decoder.cpp:558-583 | the name of a parameter: status, state and consumed text are those of the step function |
| `RequestDecoders.RequestDecoderState.DecodeParamValue` | src/request_decoder.cpp:451-556 | the value of a parameter, stored once and only if it is well formed: status, state and consumed text are those of the step function; at the end of a body all that remains is in view, as is checked there |
| `RequestDecoders.RequestDecoderState.DecodeParamSeparator` | src/request_decoder.cpp:392-433 | the separators between parameters, and the end of the query or the body: status, state and consumed text are those of the step function |
| `RequestDecoders.RequestDecoderState.StoreValue` | src/request_decoder.cpp:459-553 | a parameter is stored exactly if it was not stored before and its text can be read; otherwise the request is left alone |
| `RequestDecoders.RequestDecoderState.DecodeMessageHeader` | src/request_decoder.cpp:938-988 | the loop over decode functions computes the recursive reference of a header, and goes on to the body |
| `RequestDecoders.RequestDecoderState.CountDown` | src/request_decoder.cpp:1022-1063 | one iteration of that loop: the step of the decode function, and its consumed text counted off the remaining length, which is never less |
| `RequestDecoders.RequestDecoderState.RepeatInBody` | src/request_decoder.cpp:1021-1064 | the loop of the body computes the recursive reference; and it is known whether the check of a debug build fails that is made when nothing was in view |
| `RequestDecoders.RequestDecoderState.DecodeMessageBody` | src/request_decoder.cpp:992-1085 | the decoding of a body computes its reference: too much, too little at the end, or exactly enough |
| `RequestDecoders.RequestDecoderState.DecodeBuffer` | src/request_decoder.cpp:891-933 | one whole call computes the reference that the theorems below are about |
| `DecoderSpec.StepProgress` | src/request_decoder.cpp:943-977 | every step either consumes text or drops to a decode function of lower rank, and a continuing one changes the function: both loops terminate |
| `DecoderSpec.StepKeeps` | src/request_decoder.cpp:200-833 | every decode function keeps the decoder invariant, on which the checks inside the decode functions rest, and in a body reports nothing but success or a bad request |
| `DecoderSpec.LoopKeeps` | src/request_decoder.cpp:1021-1085 | over a whole loop: in a body the remaining length falls by exactly what is consumed, and success means that all of it is consumed |
| `DecoderSpec.BodyKeeps` | src/request_decoder.cpp:992-1085 | body accounting: success only with remaining length 0; more is needed only if more is announced and can come |
| `DecoderSpec.BufferKeeps` | src/request_decoder.cpp:891-933 | each call either finishes the request or leaves a decoder that can be called again; a full buffer shrinks or is refused as too large, exactly when decoding needs more and consumes nothing; the call that sees the last of a body is final |
| `Fragmentation.StepStable` | src/request_decoder.cpp:200-833 | more text does not change the outcome of a decode function that did not need it, and one that did goes on from where it stopped |
| `Fragmentation.LoopExtend` | src/request_decoder.cpp:943-1064 | the same for the loops over decode functions |
| `Fragmentation.BufferExtend` | src/request_decoder.cpp:891-1085 | a call commits to what decoding the longer text gives |
| `Fragmentation.FeedingIsReference` | src/request_decoder.cpp:891-1085 | fragmentation independence: for every text and every way of cutting it, re-feeding what each call leaves gives the status, request and consumed bytes of decoding all at once, if no call sees beyond the end of the body |
| `Fragmentation.WholeNeverRunsPastBody` | src/request_decoder.cpp:998-1004 | if the whole does not run past the body then no call does, however it is cut |
| `Fragmentation.FragmentationIndependence` | src/request_decoder.cpp:891-1085 | so every way of feeding a request that nothing follows gives what one call on the whole gives |
| `Fragmentation.OnlyRunningPastBodyMatters` | src/request_decoder.cpp:998-1004 | a call agrees with the slicing-independent reference exactly if its view does not run past the body; if it does, it is refused as too large where the reference accepts it or finds it malformed |
| `Fragmentation.OnlyRunningPastBodyMattersFed` | src/request_decoder.cpp:998-1004 | the same of a whole feeding: it agrees with the reference exactly if no call sees beyond the end of the body |
| `GrammarTheorems.Complete` | src/request_decoder.cpp:200-1085 | the reference, which never looks past the end of a body, accepts every acceptable request, whatever follows its text: it consumes exactly that text and computes its meaning |
| `GrammarTheorems.Sound` | src/request_decoder.cpp:200-1085 | whatever the reference accepts is the text of an acceptable request |
| `GrammarTheorems.AcceptedExactly` | src/request_decoder.cpp:200-1085 | the reference accepts exactly the texts that start with an acceptable request (the grammar of RFC 7230 sections 3.1.1, 3.2 and 3.3.2, narrowed to the Alpaca paths) |
| `DecodedRequests.RunsPastBodyExactly` | src/request_decoder.cpp:998-1004 | a view that starts with a request runs past its body exactly if it has one and something follows |
| `DecodedRequests.DecodedExactly` | src/request_decoder.cpp:891-1085 | one call of DecodeBuffer, full or not and at the end or not, accepts exactly the views that start with an acceptable request, that nothing follows if it has a body; it consumes exactly that text and computes its meaning; and a body that something follows is too large |
| `DecodedRequests.DecodedExactlyFed` | src/request_decoder.cpp:891-1085 | fed in pieces of whatever sizes, the decoder accepts exactly the texts that start with an acceptable request, if a piece ends where its body does when it has one; it consumes exactly that text and computes its meaning |
| `DecodedRequests.OnlyGetAndPutAreServed` | src/request_decoder.cpp:341-372 | of whole headers that mean something, those of HEAD, and no others, end in an internal server error; and those of PUT without a length, and no others, are told that it is required |
| `DebugChecks.ContinuesWithNothing` | src/request_decoder.cpp:392-583 | with nothing in view, the decode function of a body that continues is the one for a value, at the end of the body, if the parameter is not built in |
| `DebugChecks.CheckFailsExactly` | src/request_decoder.cpp:1053-1060 | for every view: that check fails in a call exactly if the view is an acceptable request whose body ends with the name of a parameter that is not built in and an equals sign |
| `DebugChecks.CheckFailsFedExactly` | src/request_decoder.cpp:1053-1060 | for pieces of whatever sizes: it fails exactly if they begin with such a request, and one of them ends where it does |
| `DebugChecks.BareRequestStopsADebugBuild` | src/request_decoder.cpp:1053-1060 | for every method of every type of device, a PUT with the body "x=" is accepted, and the check fails |
| `ParameterSoundness.StoreParamsIs` | src/request_decoder.cpp:451-556 | parameters are accepted exactly if each built-in one can be read, is not held yet and does not repeat; then each holds what its text denotes and the others are untouched |
| `ParameterSoundness.StoredBoth` | src/request_decoder.cpp:451-556 | storing the query and then the body is storing both together |
| `ParameterSoundness.ParameterIsNamed` | src/match_literals.cpp:188-207 | a built-in parameter is recognised exactly by its name, whatever the case of letters |
| `ParameterSoundness.MeaningStores` | src/request_decoder.cpp:451-556 | a request accepted as a whole stores the parameters of its query and body taken together |
| `ParameterSoundness.MeaningExactly` | src/request_decoder.cpp:451-556 | a request is acceptable exactly if what is not a parameter in it means something, and the parameters of its query and body are acceptable together |
| `ParameterSoundness.ParametersAreSound` | src/request_decoder.cpp:451-556 | when a call of DecodeBuffer succeeds, each built-in parameter is held exactly if its name occurs in query or body; it occurs once, and the value is what that occurrence says |
| `ParameterSoundness.ParametersAreSoundFed` | src/request_decoder.cpp:451-556 | and so it is when a text that comes in pieces is accepted |
| `ParameterSoundness.ResetForgets` | src/alpaca_request.cpp:15-52 | between requests every parameter is forgotten, except AveragePeriod |
| `ParameterSoundness.AcceptableAfterReset` | src/alpaca_request.cpp:15-52 | parameters are accepted after a reset exactly if they would be at the start and AveragePeriod is not held and among them |
| `ParameterSoundness.IdIsNarrowed` | src/alpaca_request.h:67-72 | the Id kept is the one sent exactly if it is below 2^31: the unsigned number is passed as a signed one |
| `AveragePeriods.BufferSticks` | src/request_decoder.cpp:879-933 | from any state, and whatever becomes of the request: once the flag of AveragePeriod is set, a call of DecodeBuffer or Reset leaves it set, and its value alone |
| `AveragePeriods.AcceptedWithout` | src/alpaca_request.h:85-89 | a decoder in which it is set accepts, in a call, exactly the views that it would accept if it were not set, and would not set it by; nothing that it accepts names AveragePeriod |
| `AveragePeriods.AcceptedWithoutFed` | src/alpaca_request.h:85-89 | and so it is with text fed in pieces |
| `AveragePeriods.PeriodIsSetOnce` | src/server_connection.cpp:24-149 | in every run of a server socket, over all its connections: once a period is set, it stays set, and every request the listener is told of, accepted or refused, has that same period |
| `ConnectionSpec.ConnectOpens` | src/server_connection.cpp:24-32 | a new connection satisfies the invariant |
| `ConnectionSpec.CanReadKeepsOpen` | src/server_connection.cpp:34-122 | a connection left open has room in its buffer (so it is never stuck), a decoder that can be called, and is between requests exactly if the decoder is reset and the buffer empty |
| `ConnectionSpec.CanReadCloses` | src/server_connection.cpp:88-120 | a call gives up the socket exactly if its last event is an error or an answer to close |
| `ConnectionSpec.FieldsTooLargeExactly` | src/server_connection.cpp:58-63 | 431 is reported exactly when a full buffer needs more input with nothing consumed |
| `ConnectionSpec.CanReadLifecycle` | src/server_connection.cpp:53-120 | each request is announced once, before its one outcome |
| `ConnectionSpec.HalfClosedLifecycle` | src/server_connection.cpp:124-142 | when the client stops: silence exactly if nothing is left to decode; an error in a request that was never announced exactly if the decoder is reset with bytes in the buffer |
| `ConnectionSpec.CanReadIsParse` | src/server_connection.cpp:34-122 | the events of one call that neither sees beyond a body nor reports a full buffer are the start of those that decoding everything at once gives |
| `ConnectionSpec.FaithfulRunIsParse` | src/server_connection.cpp:34-122 | so are those of a run of such calls; this covers a client that sends its next request only after the response to a PUT |
| `ConnectionSpec.ModestIsFaithful` | src/server_connection.cpp:34-122 | if nothing follows the body of a PUT, and no prefix of what is sent leaves 128 bytes or more that wait for the end of a token, then every call of every schedule is such a call |
| `ConnectionSpec.ScheduleIndependence` | src/server_connection.cpp:34-122 | for any read sizes, if the bytes sent meet that condition: the events so far, followed by what decoding the bytes not yet decoded at once would give, are those of decoding everything at once |
| `ConnectionSpec.EverythingIsTold` | src/server_connection.cpp:34-122 | once all of such bytes have been read, 128 calls that read nothing are enough: then what was told is what decoding everything at once tells, and nothing else |
| `ConnectionSpec.SchedulesAgree` | src/server_connection.cpp:34-122 | two schedules of the same such bytes tell the listener the same |
| `ConnectionSpec.RunKeeps` | src/server_connection.cpp:34-122 | in every run the connection stays open and not stuck or ends after an outcome; requests are announced in order; and the buffer is the end of what was read |
| `ConnectionSpec.IdsAreDistinct` | src/tiny_alpaca_server.cpp:29-31 | transaction ids of all connections repeat exactly when a multiple of 2^32 requests lies between them |
| `PipelinedRequests.GetLeavesRest` | src/server_connection.cpp:53-120 | a GET that arrives with more bytes is decoded, and leaves them in the buffer of a reset decoder |
| `PipelinedRequests.PipelinedRequestIsLost` | src/server_connection.cpp:124-142 | if the client then sends nothing and closes its side before the next call, those bytes are never decoded: even a whole request ends as an unannounced error |
| `ServerConnections.RequestListener.OnStartDecoding` | src/tiny_alpaca_server.cpp:29-31 | the next id, modulo 2^32, is given to the request; the ids of the log stay consecutive |
| `ServerConnections.TcpServerConnection.Close` | src/utils/server_socket.cpp:33-58 | whatever its status, the socket is no longer open, but closing or closed if it was; and the time is recorded, unless it was before |
| `ServerConnections.TcpServerConnection.PeerHalfClosed` | src/utils/server_socket.cpp:62-64 | never true: the number of the socket is tested in place of its status |
| `ServerConnections.ServerConnection.OnConnect` | src/server_connection.cpp:24-32 | the whole state of a new connection |
| `ServerConnections.ServerConnection.KeepUndecoded` | src/server_connection.cpp:67-80 | the undecoded end of the buffer is moved to its front, in place |
| `ServerConnections.ServerConnection.OnCanRead` | src/server_connection.cpp:34-122 | state, events and closing are those of the function that the theorems are about, for whatever was read |
| `ServerConnections.ServerConnection.OnHalfClosed` | src/server_connection.cpp:124-142 | the same when the client has finished |
| `ServerConnections.ServerConnection.OnDisconnect` | src/server_connection.cpp:144-149 | the same when the connection is lost |
| `SocketSpec.PerformIOKeeps` | src/utils/server_socket.cpp:173-303 | socket and listener keep agreeing on who has a connection, under every status the hardware may show, except exactly when a client's connection is complete between listening and looking at the status |
| `SocketSpec.UnseenIsNotAnnounced` | src/utils/server_socket.cpp:151-157 | then that connection is not announced with OnConnect as long as it lasts, though every call makes a callback |
| `SocketSpec.AssertionsAreTrue` | src/utils/server_socket.cpp:202-255 | the conditions that the code asserts of past and present status hold, but for the one just after listening, if the status is not LISTEN, and those made next of a status that was SYNRECV then |
| `SocketSpec.OneCallback` | src/utils/server_socket.cpp:164-172 | each call makes at most one callback, and one that is due |
| `SocketSpec.CallbacksInOrder` | src/utils/server_socket.cpp:173-372 | in every run, each connection gets one OnConnect, then OnCanRead and OnHalfClosed, until exactly one of a close by the listener or OnDisconnect, and has_socket agrees; except in the runs, and exactly those, in which a client connects unseen and the next call makes a callback |
| `SocketSpec.RequestsInOrder` | src/server_connection.cpp:24-149 | in every run, over all its connections: each request is announced once, before its only outcome, in callbacks of one connection; it has no outcome only if the connection is lost, and an outcome is unannounced only when the client sends no more; except in the runs, and exactly those, in which a client connects unseen and the next call makes a callback |
| `SocketSpec.ClosedByForce` | src/utils/server_socket.cpp:361-372 | a closing socket is closed by force exactly in calls made more than 5000 ms after it began, across the wrap of the 32-bit clock |
| `SocketSpec.ClosingEnds` | src/utils/server_socket.cpp:361-372 | in every run a socket does not stay closing beyond such a call |
| `ServerSockets.ServerSocket.PickClosedSocket` | src/utils/server_socket.cpp:86-107 | binds the socket if it is closed; the agreement is established unless a client connects unseen |
| `ServerSockets.ServerSocket.BeginListening` | src/utils/server_socket.cpp:139-162 | a closed socket listens, and the status seen then is remembered, or it stays closed; one that listens or is connected is left alone |
| `ServerSockets.ServerSocket.HandleCloseWait` | src/utils/server_socket.cpp:328-347 | reads what is left or reports the end, as the function says |
| `ServerSockets.ServerSocket.DetectCloseTimeout` | src/utils/server_socket.cpp:361-372 | closes exactly when the time is up |
| `ServerSockets.ServerSocket.PerformIO` | src/utils/server_socket.cpp:173-303 | state, callbacks and events are those of the function, for what the hardware showed; every precondition of the listener is met |
| `OrderedMaps.InsertKeepsSorted` | extras/test_tools/case_insensitive_less.cpp:10-13 | inserting keeps names in order |
| `OrderedMaps.FindInserted` | extras/test_tools/http_request.cpp:82-109 | insert keeps the value of a name that is there, insert_or_assign replaces it, and neither touches other names |
| `HttpRequests.HttpRequest.PercentEncodeString` | extras/test_tools/http_request.cpp:13-52 | encodes each character that needs it, in order |
| `HttpRequests.HttpRequest.ToString` | extras/test_tools/http_request.cpp:112-141 | the text of the request, with the headers it adds |
| `RequestRoundTrip.RequestTextIs` | extras/test_tools/http_request.cpp:112-141 | that text is the text of a tree of the request grammar |
| `RequestRoundTrip.RequestDecodes` | extras/test_tools/http_request.cpp:112-141 | any request with a known method and path, headers that do not matter, and acceptable parameters is decoded from a view that starts with its text, exactly; but it is too large exactly if it has a body and something follows |
| `RequestRoundTrip.RequestDecodesFed` | extras/test_tools/http_request.cpp:112-141 | and from pieces of whatever sizes, if one of them ends where its body does |
| `DeviceRequests.ArgumentIsRead` | src/request_decoder.cpp:451-556 | the text of an argument in range is read back as the argument |
| `DeviceRequests.DeviceRequestRoundTrip` | extras/test_tools/http_request.cpp:112-141 | round trip: for every method of every type of device, any number, and any arguments under distinct names, a view that starts with the text is decoded by DecodeBuffer to a request that asks for exactly that and holds exactly those arguments; but it is too large exactly if it has a body and something follows |
| `DeviceRequests.DeviceRequestRoundTripFed` | extras/test_tools/http_request.cpp:112-141 | and so it is when it is fed in pieces of whatever sizes, if one of them ends where its body does |
| `Prints.Print.PrintText` | src/utils/counting_print.cpp:7-19 | text reaches the client, or a counter that holds its length modulo 2^32 |
| `JsonEncoders.PrintString` | src/utils/json_encoder.cpp:56-90 | prints the escaped string between quotes, and returns its length |
| `JsonEncoders.JsonArrayEncoder.Add` | src/utils/json_encoder.cpp:155-229 | separators are printed between the items and nowhere else |
| `JsonEncoders.JsonObjectEncoder.Add` | src/utils/json_encoder.cpp:253-312 | the same for properties |
| `JsonEncoders.EncodeArray` | src/utils/json_encoder.cpp:232-235 | opening bracket, items and closing bracket make the text of the tree |
| `JsonEncoders.EncodeObject` | src/utils/json_encoder.cpp:315-318 | the same for objects |
| `JsonEncoders.EncodedSize` | src/utils/json_encoder.cpp:321-326 | the counting pass finds the length of the text, modulo 2^32 |
| `JsonDecoders.SkipLeadingWhitespace` | extras/test_tools/json_decoder.cpp:27-34 | drops exactly the whitespace at the front |
| `JsonDecoders.DecodeString` | extras/test_tools/json_decoder.cpp:72-126 | computes the recursive reference of a string |
| `JsonDecoders.DecodeArray` | extras/test_tools/json_decoder.cpp:179-196 | computes that of an array |
| `JsonDecoders.DecodeObject` | extras/test_tools/json_decoder.cpp:158-177 | computes that of an object, where a later member replaces an earlier one of the same name |
| `JsonDecoders.DecodeValue` | extras/test_tools/json_decoder.cpp:198-216 | computes that of any value |
| `JsonDecoders.Decode` | extras/test_tools/json_decoder.cpp:233-244 | a whole text: a value and nothing else but whitespace |
| `JsonSpec.StringIsRead` | src/utils/json_encoder.cpp:20-54 | an escaped string is read back without the characters that cannot be escaped |
| `JsonSpec.JsonIsRead` | extras/test_tools/json_decoder.cpp:198-216 | the text of any tree, whatever follows it, is read as what the tree says |
| `JsonSpec.RoundTrip` | extras/test_tools/json_decoder.cpp:233-244 | JSON round trip: parsing the output of the encoder for any tree gives the tree, with strings stripped (RFC 8259 section 7, without unicode escapes) |
| `JsonSpec.StripKeeps` | src/utils/json_encoder.cpp:20-54 | a string survives exactly if all its characters can be escaped |
| `Responses.HttpResponseHeader.PrintTo` | src/http_response_header.cpp:28-67 | prints the header, and returns its length |
| `Responses.OkJsonResponse` | src/alpaca_response.cpp:34-64 | prints header and body, no body for HEAD, and says whether to keep the connection open |
| `Responses.LengthIsAnnounced` | src/utils/counting_print.cpp:21-26 | the length announced by the first pass is that of the body printed in the second, exactly if it fits in 32 bits |
| `ResponseSpec.ResponseIsSplit` | extras/test_tools/http_response.cpp:81-121 | the end of the header, the status line and the header lines are found where they were written |
| `ResponseSpec.ResponseIsRead` | extras/test_tools/http_response.cpp:78-153 | status, headers and JSON value of any response are read back, and what follows it is left over |
| `Responses.OkResponseIsRead` | extras/test_tools/http_response.cpp:78-153 | response round trip: for every JSON object and request other than HEAD, reading the output recovers status, headers and value with nothing of the response left over |
| `Responses.MethodResponseIs` | src/json_response.h:29-49 | the client reads the value, the transaction ids exactly if the request has them, and the number and text of the error exactly if there are any |
| `Responses.MakeResponse` | extras/test_tools/http_response.cpp:78-153 | computes the reference of reading a response |
| `Covers.HandleInterruptKeeps` | examples/CoverCalibrator/src/cover.cpp:264-319 | an interrupt takes at most one step, and removes the handler exactly when the cover stops |
| `Covers.NextKeepsSafe` | examples/CoverCalibrator/src/cover.cpp:114-120 | every statement and every interrupt keeps the safety invariant |
| `Covers.CoversAreSafe` | examples/CoverCalibrator/src/cover.cpp:185-319 | in every interleaving: at most one step beyond those allowed since the last start; between calls at most one cover moves, it is the one installed, it gets interrupts, and its direction is the one its status says; a call that moves a cover finds no other one installed, as is checked there; and the unguarded writes that prepare a movement are not interrupted |
| `Covers.StopsInTime` | examples/CoverCalibrator/src/cover.cpp:310-318 | a moving cover left to itself stops within the interrupts it has left |
| `Covers.TooManyStepsAllowed` | examples/CoverCalibrator/src/cover.cpp:310-318 | the limit works exactly if fewer than 2^32 - 1 steps are allowed |
| `Covers.StopsExactly` | examples/CoverCalibrator/src/cover.cpp:283-318 | an interrupt stops a moving cover exactly if the limit switch is closed, or the start switch is at the one step at which it is checked, or the steps are used up |
| `Covers.ReturnsTrue` | examples/CoverCalibrator/src/cover.cpp:194-232 | a call that returns true has come to starting the timer, or has found the cover to move as asked |
| `Covers.StartsUnlessCutShort` | examples/CoverCalibrator/src/cover.cpp:194-243 | in every interleaving that brings a call of Open or Close to starting the timer, the cover moves, from step 0 in the direction asked for, exactly if no interrupt between setting the status and stopping the timer found a reason to stop it |
| `Covers.CutShortStaysStopped` | examples/CoverCalibrator/src/cover.cpp:210-211 | a call that was cut short returns true all the same, and the cover takes no step until the next call |
| `Covers.TurningRoundCanFail` | examples/CoverCalibrator/src/cover.cpp:194-232 | a call can be cut short exactly if it is for the installed cover, and that does not already move as asked |
| `Covers.FailsFromTheStart` | examples/CoverCalibrator/src/cover.cpp:210-211 | runs from the start in which opening and then closing a cover both return true and leave it not moving |
| `Checksums.ByteKeepsCrc` | src/utils/eeprom_io.cpp:28-35 | a step is injective in the CRC, for a fixed byte |
| `Checksums.ByteIsTold` | src/utils/eeprom_io.cpp:28-35 | and in the byte, for a fixed CRC |
| `Checksums.OneByteIsDetected` | src/utils/eeprom_io.cpp:28-35 | changing exactly one byte of a text of any length changes its CRC |
| `SavedAddresses.SavedIsLoaded` | src/utils/addresses.cpp:187-215 | what is saved is loaded, unless another prefix is asked for |
| `SavedAddresses.LoadedIsImage` | src/utils/addresses.cpp:197-215 | whatever is loaded was stored as saving it would |
| `SavedAddresses.CorruptionIsDetected` | src/utils/addresses.cpp:197-215 | after any single stored byte changes (name, addresses or CRC) nothing is loaded |
| `SavedAddresses.Crc32.AddByte` | src/utils/eeprom_io.cpp:28-35 | one step of the CRC |
| `SavedAddresses.PutBytes` | src/utils/eeprom_io.cpp:82-90 | writes the bytes in place, touches no others, and adds them to the CRC |
| `SavedAddresses.GetBytes` | src/utils/eeprom_io.cpp:92-100 | reads them back into the same CRC |
| `SavedAddresses.VerifyName` | src/utils/eeprom_io.cpp:68-80 | true exactly if the name is there |
| `SavedAddresses.Addresses.Save` | src/utils/addresses.cpp:187-195 | the first 19 bytes become the image of the addresses; the rest is untouched |
| `SavedAddresses.Addresses.LoadFrom` | src/utils/addresses.cpp:197-215 | succeeds exactly if the stored image is good, and then holds its addresses |
| `SavedAddresses.Addresses.Generate` | src/utils/addresses.cpp:88-107 | a locally administered address of one station, or one with the prefix; and a link-local IP address |
| `SavedAddresses.Addresses.LoadOrGenAndSave` | src/utils/addresses.cpp:171-185 | whatever was stored, the device ends up with addresses that it will find again; good ones are kept |
| `WriteBuffers.WriteBufferedConnection.WriteByte` | src/utils/connection.cpp:57-63 | delivered bytes stay a prefix of those written, and delivered plus buffered are all of them while there is no error |
| `WriteBuffers.WriteBufferedConnection.WriteBlock` | src/utils/connection.cpp:64-85 | the same for blocks of any size |
| `WriteBuffers.WriteBufferedConnection.Flush` | src/utils/connection.cpp:102-129 | terminates for any short writes; without an error everything has been delivered in order |
| `Timers.CyclesAreQuantised` | src/utils/avr_timer_counter.cpp:103-134 | ticks fit 16 bits and undershoot by less than the divisor; the timer is disabled exactly for 0 and out of range |
| `Timers.LeastPrescaler` | src/utils/avr_timer_counter.cpp:103-134 | the least divisor that fits is used |
| `Timers.EventsPerSecond` | src/utils/avr_timer_counter.cpp:184-191 | for every rate of events the timer is enabled, and undershoots the cycles between events by less than its divisor |
| `Timers.QuantisedOnce` | src/utils/avr_timer_counter.cpp:202-204 | the cycles a setting stands for are represented exactly |
| `Timers.QuantisedAgain` | src/utils/avr_timer_counter.cpp:103-134 | and by the same setting exactly if the cycles are not in 524281-524287, 4194241-4194303 or 16776961-16777215 |
| `Timers.ASmallerDivisorAgain` | src/utils/avr_timer_counter.cpp:103-134 | a number of cycles for which they do |
| `Timers.MicroSeconds` | src/utils/avr_timer_counter.cpp:136-145 | no product overflows in the range of the timer, and the conversion is exact |
| `Timers.MicroSecondsAreRight` | src/utils/avr_timer_counter.cpp:136-145 | for every number of microseconds: the setting is right, or the timer disabled beyond its range, exactly if the number is in range, or 160 times it modulo 2^32 gives no cycle, or too many; otherwise a timer is enabled that should not be |
| `Timers.ShortDurations` | src/utils/avr_timer_counter.cpp:162-172 | short durations are rounded to the nearest cycle |
| `Timers.LongDurations` | src/utils/avr_timer_counter.cpp:156-160 | long ones to the nearest microsecond |
| `Timers.DurationsOutOfRange` | src/utils/avr_timer_counter.cpp:147-173 | beyond the range the timer is disabled, even where sums overflow |
| `Timers.SixteenBitLimits` | src/utils/avr_timer_counter.cpp:109-126 | with an int of 16 bits the limits overflow: the setting is right exactly for counts that need no divisor or are out of range |
| `Phase2Sources.RawIndexIsSame` | extras/dev_tools/tokenize_cpp.py:440-496 | each index of the joined text maps to an equal raw character |
| `Phase2Sources.RawIndexGrows` | extras/dev_tools/tokenize_cpp.py:440-496 | the map is strictly monotone |
| `Phase2Sources.TokenText` | extras/dev_tools/tokenize_cpp.py:498-511 | the raw span of any token, without its continuations, is the text of the token |
| `Phase2Sources.Phase2Source.constructor` | extras/dev_tools/tokenize_cpp.py:443-486 | the segment map built in the loop is that map |
| `Phase2Sources.Phase2Source.Phase2IndexToRawSourceIndex` | extras/dev_tools/tokenize_cpp.py:488-496 | looks the map up, for every index from 0 to the end |
| `TokenGroups.GroupsFlatten` | extras/dev_tools/tokenize_cpp.py:514-582 | flattening the groups gives back the tokens, and every left bracket starts a group that its right bracket ends |
| `TokenGroups.GroupsExactly` | extras/dev_tools/tokenize_cpp.py:514-550 | grouping succeeds exactly if no left bracket still wants its right one after the last token |
| `TokenGroups.NestUntilToken` | extras/dev_tools/tokenize_cpp.py:519-540 | computes the group that starts at a left bracket, or finds none |
| `TokenGroups.GroupCppTokens` | extras/dev_tools/tokenize_cpp.py:542-550 | computes all the groups |
| `TokenGroups.EditKeeps` | extras/dev_tools/tokenize_cpp.py:674-697 | every character outside the replaced spans is kept, where the replacements before it have moved it; and the length is accounted for |
| `TokenGroups.SortKeeps` | extras/dev_tools/tokenize_cpp.py:677 | replacements are put in order of their starts, none lost |
| `TokenGroups.EditRawSource` | extras/dev_tools/tokenize_cpp.py:674-697 | edits exactly if no two replacements overlap or touch and none is beyond the end |

## Left out

- StringViews.StringView.ToReal: gives an exact real number, as `double` and its rounding are not modelled.
- JsonEncoders.JsonArrayEncoder.Add: does not print numbers of type float and double, which a library formats.
- JsonEncoders.JsonObjectEncoder.Add: the same for properties.
- JsonDecoders.DecodeValue: refuses numbers with a fraction or an exponent, which a library parses.
- JsonDecoders.Decode: the same for a whole text.
- Responses.MakeResponse: reads status codes and lengths in plain decimal only, where the library accepts more.
- ServerSockets.ServerSocket.PickClosedSocket: one hardware socket stands in for the choice among several.

- Floating point: `to_double` is modelled with exact arithmetic in place of rounding, and doubles are not printed as JSON or compared.
- Fractions and exponents in JSON text: the number parser of the decoder is a library function; integers are modelled, other numbers are refused.
- `absl::SimpleAtoi`, `std::from_chars` and `IPAddress`: library code; only the plain decimal forms that the server writes are accepted by the model.
- The multimap of response headers is a list in order of arrival; only lookups by name are made of it.
- `strcasecmp` stops at a NUL character, which the model compares like any other.
- Device adapters, management responses and the texts of ASCOM errors: flat tables. What a handler answers is arbitrary in the model.
- The listener of the decoder and the extra parameters, which are compiled out.
- `ReleaseSocket`, undocumented status values and statuses of sockets that are not used for TCP: the code for them is in `SocketSpec.PerformIO`, but no run reaches it.
- `FindUnusedSocket`: a server socket of the model has one hardware socket that it may bind.
- Write buffering between a response and the network is proved in `WriteBuffers` and not repeated in the connection.
- Registers of the timers, pins, delays and the wait after a start of movement: only whether the interrupt is enabled, and the limit switches, are modelled. `Covers` is a state machine over statements, not a class, because the interrupt routine may run between any two of them.
- `F_CPU` is a parameter of the build: the theorems of `Timers` are for a clock of 16 MHz only.
- `FromSeconds` and `FromDoubleEventsPerSecond`: they compute in double.
- Regular expressions of the tokenizer: `Phase2Sources.TokenText` is about any span of the joined text, so any token.
- The order in which `EEPROM.update` skips equal bytes, and wear.
