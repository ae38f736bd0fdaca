// ServerConnection: decodes the requests that arrive on one TCP connection and
// passes them to the request listener.

module ServerConnections {
  import opened Ints
  import opened Protocol
  import opened StringViews
  import opened AlpacaRequests
  import opened DecoderSpec
  import opened RequestDecoders
  import opened ConnectionSpec
  import opened SocketSpec
  import opened Hardware

  // The server, as the listener of all its connections. The log says what it was told.
  class RequestListener {
    var serverTransactionId: uint32
    ghost var log: seq<Event>

    ghost predicate Valid()
      reads this
    {
      Counted(log, serverTransactionId)
    }

    constructor ()
      ensures Valid() && serverTransactionId == 0 && log == []
    {
      serverTransactionId := 0;
      log := [];
    }

    method OnStartDecoding(request: AlpacaRequest)
      requires Valid() && !request.fields.haveServerTransactionId
      modifies this, request
      ensures Valid() && serverTransactionId == NextId(old(serverTransactionId))
      ensures log == old(log) + [StartDecoding(serverTransactionId)]
      ensures request.fields == old(request.fields).(serverTransactionId := serverTransactionId,
                                                     haveServerTransactionId := true)
    {
      serverTransactionId := (serverTransactionId + 1) % 0x1_0000_0000;
      request.SetServerTransactionId(serverTransactionId);
      log := log + [StartDecoding(serverTransactionId)];
      IdsBoth(old(log), [StartDecoding(serverTransactionId)]);
      assert [StartDecoding(serverTransactionId)][..0] == [];
    }

    // Whether the connection is to be kept open is for the handler of the request to say.
    method OnRequestDecoded(request: AlpacaRequest) returns (keepOpen: bool)
      requires Valid()
      modifies this`log
      ensures Valid() && log == old(log) + [RequestDecoded(request.fields)]
    {
      log := log + [RequestDecoded(request.fields)];
      keepOpen := *;
    }

    method OnRequestDecodingError(request: AlpacaRequest, status: EHttpStatusCode)
      requires Valid()
      modifies this`log
      ensures Valid() && log == old(log) + [DecodingError(request.fields, status)]
    {
      log := log + [DecodingError(request.fields, status)];
    }
  }

  // Whether, and when, the listener closed the connection.
  class DisconnectData {
    var disconnected: bool
    var disconnectTimeMillis: uint32
    const clock: Clock

    constructor (clock: Clock)
      ensures this.clock == clock
    {
      this.clock := clock;
    }

    method RecordDisconnect()
      modifies this
      ensures disconnected
      ensures disconnectTimeMillis == if old(disconnected) then old(disconnectTimeMillis) else Millis(clock.now)
    {
      if !disconnected {
        disconnected := true;
        disconnectTimeMillis := clock.ReadMillis();
      }
    }

    method Reset()
      modifies this
      ensures !disconnected && disconnectTimeMillis == 0
    {
      disconnected, disconnectTimeMillis := false, 0;
    }

    method ElapsedDisconnectTime() returns (elapsed: uint32)
      requires disconnected
      ensures elapsed == ElapsedMillis(disconnectTimeMillis, clock.now)
    {
      var now := clock.ReadMillis();
      return (now - disconnectTimeMillis) % 0x1_0000_0000;
    }
  }

  const CLOSE_WAIT_CODE := 0x1C

  class TcpServerConnection {
    const hardware: HardwareSocket
    const disconnectData: DisconnectData

    constructor (hardware: HardwareSocket, disconnectData: DisconnectData)
      modifies disconnectData
      ensures this.hardware == hardware && this.disconnectData == disconnectData
      ensures !disconnectData.disconnected && disconnectData.disconnectTimeMillis == 0
    {
      this.hardware, this.disconnectData := hardware, disconnectData;
      new;
      disconnectData.Reset();
    }

    // Starts to close the connection, if it is still open, and records that it was
    // closed, if that was not recorded. PerformIO completes the closing.
    method Close()
      modifies hardware, disconnectData
      ensures !StatusIsOpen(hardware.status)
      ensures StatusIsClosing(hardware.status) || hardware.status.CLOSED? || Evolves(old(hardware.status), hardware.status)
      ensures disconnectData.disconnected
      ensures disconnectData.disconnectTimeMillis ==
        if old(disconnectData.disconnected) then old(disconnectData.disconnectTimeMillis)
        else Millis(disconnectData.clock.now)
    {
      var status := hardware.SocketStatus();
      if status.ESTABLISHED? || status.CLOSE_WAIT? {
        status := hardware.SocketStatus();
        if status.ESTABLISHED? || status.CLOSE_WAIT? {
          hardware.Disconnect();
          status := hardware.SocketStatus();
        }
      }
      disconnectData.RecordDisconnect();
    }

    // What is tested is the number of the socket, where its status is meant.
    method PeerHalfClosed() returns (halfClosed: bool)
      requires hardware.sockNum < MAX_SOCK_NUM
      ensures !halfClosed
    {
      return hardware.sockNum == CLOSE_WAIT_CODE;
    }
  }

  class ServerConnection {
    const requestListener: RequestListener
    const request: AlpacaRequest
    const requestDecoder: RequestDecoderState
    var sockNum: nat
    var betweenRequests: bool
    var inputBufferSize: nat
    const inputBuffer: array<char>

    ghost function State(): ConnectionState
      requires inputBufferSize <= inputBuffer.Length
      reads this, inputBuffer, requestDecoder, request, requestDecoder.request
    {
      ConnectionState(sockNum, betweenRequests, inputBuffer[..inputBufferSize], requestDecoder.State())
    }

    ghost predicate Valid()
      reads this, requestListener
    {
      && requestDecoder.request == request
      && inputBuffer.Length == INPUT_BUFFER_SIZE && inputBufferSize <= INPUT_BUFFER_SIZE
      && requestListener.Valid()
    }

    constructor (requestListener: RequestListener, request: AlpacaRequest, requestDecoder: RequestDecoderState)
      requires requestDecoder.request == request && requestListener.Valid()
      ensures Valid() && this.requestListener == requestListener
      ensures this.request == request && this.requestDecoder == requestDecoder && fresh(inputBuffer)
      ensures sockNum == MAX_SOCK_NUM
    {
      this.requestListener, this.request, this.requestDecoder := requestListener, request, requestDecoder;
      sockNum, betweenRequests, inputBufferSize := MAX_SOCK_NUM, *, 0;
      inputBuffer := new char[INPUT_BUFFER_SIZE];
    }

    method OnConnect(connection: TcpServerConnection)
      requires Valid() && sockNum == MAX_SOCK_NUM
      modifies this, requestDecoder, request
      ensures Valid() && State() == Connect(old(State()), connection.hardware.sockNum)
    {
      sockNum := connection.hardware.sockNum;
      requestDecoder.Reset();
      betweenRequests := true;
      inputBufferSize := 0;
    }

    // Loads the input buffer with what is there to read, as far as it fits.
    method ReadInput(connection: TcpServerConnection) returns (ghost got: string)
      requires Valid()
      modifies this`inputBufferSize, this`betweenRequests, inputBuffer
      ensures Valid()
      ensures |old(State()).buffer + got| <= INPUT_BUFFER_SIZE
      ensures inputBuffer[..inputBufferSize] == old(State()).buffer + got
      ensures betweenRequests == (old(betweenRequests) && got == "")
    {
      got := "";
      if inputBufferSize < inputBuffer.Length {
        var ret;
        ret, got := connection.hardware.Read(inputBuffer, inputBufferSize, inputBuffer.Length - inputBufferSize);
        assert inputBuffer[..inputBufferSize + |got|] ==
               inputBuffer[..inputBufferSize] + inputBuffer[inputBufferSize..inputBufferSize + |got|];
        if ret > 0 {
          inputBufferSize := inputBufferSize + ret;
          betweenRequests := false;
        }
      }
      assert old(State()).buffer + "" == old(State()).buffer;
    }

    // Moves what is left in view, the end of the buffer, to its front.
    method KeepUndecoded(view: StringView)
      requires inputBufferSize <= inputBuffer.Length
      requires view.begin + |view.text| == inputBufferSize
      requires view.text == inputBuffer[view.begin..inputBufferSize]
      modifies this`inputBufferSize, inputBuffer
      ensures inputBufferSize == |view.text| && inputBuffer[..inputBufferSize] == view.text
    {
      if view.text == "" {
        inputBufferSize := 0;
      } else if |view.text| < inputBufferSize {
        inputBufferSize := |view.text|;
        var i := 0;
        while i < |view.text|
          invariant 0 <= i <= |view.text|
          invariant inputBuffer[..i] == view.text[..i]
          invariant forall j :: i <= j < |view.text| ==> inputBuffer[view.begin + j] == view.text[j]
          modifies inputBuffer
        {
          inputBuffer[i] := inputBuffer[view.begin + i];
          i := i + 1;
        }
        assert view.text[..i] == view.text;
      }
    }

    // Whether the connection was closed; if not, its status and data are as they were.
    ghost predicate Closed(connection: TcpServerConnection, closes: bool, status: SnSR, millis: uint32)
      reads connection.hardware, connection.disconnectData, connection.disconnectData.clock
    {
      && connection.disconnectData.disconnected == closes
      && (closes ==>
            && (StatusIsClosing(connection.hardware.status) || connection.hardware.status.CLOSED?)
            && connection.disconnectData.disconnectTimeMillis == Millis(connection.disconnectData.clock.now))
      && (!closes ==> connection.hardware.status == status && connection.disconnectData.disconnectTimeMillis == millis)
    }

    // Reports how decoding a request ended, and prepares for the next one.
    method Conclude(status: EHttpStatusCode, connection: TcpServerConnection) returns (ghost keepOpen: bool)
      requires Valid() && status.IsFinal()
      requires StatusIsOpen(connection.hardware.status) && !connection.disconnectData.disconnected
      modifies this`sockNum, this`betweenRequests, requestDecoder, request, requestListener`log
      modifies connection.hardware, connection.disconnectData
      ensures Valid()
      ensures var c := old(State()); var ok := status == HttpOk;
        && State() == c.(
             betweenRequests := c.betweenRequests || (ok && c.buffer == ""),
             sockNum := if ok && keepOpen then c.sockNum else MAX_SOCK_NUM,
             decoder := if ok && keepOpen then ResetState(c.decoder) else c.decoder)
        && requestListener.log == old(requestListener.log) +
             [if ok then RequestDecoded(c.decoder.request) else DecodingError(c.decoder.request, status)]
        && Closed(connection, !(ok && keepOpen), old(connection.hardware.status),
                  old(connection.disconnectData.disconnectTimeMillis))
    {
      hide ResetState, Counted, StatusIsClosing;
      var closeConnection := false;
      keepOpen := false;
      if status == HttpOk {
        if inputBufferSize == 0 {
          betweenRequests := true;
        }
        var keep := requestListener.OnRequestDecoded(request);
        keepOpen := keep;
        if !keep {
          closeConnection := true;
        }
      } else {
        requestListener.OnRequestDecodingError(request, status);
        closeConnection := true;
      }
      if closeConnection {
        connection.Close();
        sockNum := MAX_SOCK_NUM;
      } else {
        requestDecoder.Reset();
      }
    }

    // Tells the listener of a request that starts.
    method StartDecodingIfReset()
      requires Valid()
      requires requestDecoder.decoderStatus == Reset ==> !request.fields.haveServerTransactionId
      modifies request, requestListener
      ensures Valid()
      ensures var id := NextId(old(requestListener.serverTransactionId)); var d := old(requestDecoder.State());
        requestDecoder.State() == Begin(d, id) && requestListener.log == old(requestListener.log) + BeginEvents(d, id)
    {
      hide Counted;
      if requestDecoder.decoderStatus == Reset {
        requestListener.OnStartDecoding(request);
      }
    }

    // Decodes what is in the buffer, and keeps there what is not consumed.
    method DecodeView(connection: TcpServerConnection) returns (status: EHttpStatusCode)
      requires Valid() && AtRest(requestDecoder.State()) && connection.hardware.sockNum < MAX_SOCK_NUM
      modifies this`inputBufferSize, inputBuffer, request, requestDecoder
      ensures Valid()
      ensures var c := old(State());
        var r := DecoderSpec.DecodeBuffer(c.decoder, c.buffer, |c.buffer| == INPUT_BUFFER_SIZE, false);
        status == r.status && State() == c.(buffer := c.buffer[r.used..], decoder := r.state)
    {
      hide Counted, AtRest, DecoderSpec.DecodeBuffer;
      var view := new StringView(inputBuffer[..inputBufferSize], 0);
      var bufferIsFull := inputBufferSize == inputBuffer.Length;
      var atEnd := connection.PeerHalfClosed();
      status := requestDecoder.DecodeBuffer(view, bufferIsFull, atEnd);
      KeepUndecoded(view);
    }

    method DecodeInput(connection: TcpServerConnection) returns (ghost keepOpen: bool)
      requires Valid() && inputBufferSize > 0 && AtRest(State().decoder)
      requires requestDecoder.decoderStatus == Reset ==> !request.fields.haveServerTransactionId
      requires connection.hardware.sockNum < MAX_SOCK_NUM
      requires StatusIsOpen(connection.hardware.status) && !connection.disconnectData.disconnected
      modifies this, inputBuffer, request, requestDecoder, requestListener
      modifies connection.hardware, connection.disconnectData
      ensures Valid()
      ensures var r := ConnectionSpec.DecodeInput(old(State()), NextId(old(requestListener.serverTransactionId)), keepOpen);
        && State() == r.state && requestListener.log == old(requestListener.log) + r.events
        && Closed(connection, Closes(r.events, keepOpen), old(connection.hardware.status),
                  old(connection.disconnectData.disconnectTimeMillis))
    {
      hide ResetState, Counted, StatusIsClosing, AtRest, DecoderSpec.DecodeBuffer, Begin;
      BeginAtRest(State().decoder, NextId(requestListener.serverTransactionId));
      StartDecodingIfReset();
      var status := DecodeView(connection);
      keepOpen := false;
      if status.IsFinal() {
        keepOpen := Conclude(status, connection);
      }
    }

    // Returns what was read, and what the listener answered if it was asked.
    method OnCanRead(connection: TcpServerConnection) returns (ghost got: string, ghost keepOpen: bool)
      requires Valid() && Open(State()) && sockNum == connection.hardware.sockNum
      requires StatusIsOpen(connection.hardware.status) && !connection.disconnectData.disconnected
      modifies this, inputBuffer, request, requestDecoder, requestListener
      modifies connection.hardware, connection.disconnectData
      ensures Valid() && |old(State()).buffer + got| <= INPUT_BUFFER_SIZE
      ensures var r := CanRead(old(State()), got, NextId(old(requestListener.serverTransactionId)), keepOpen);
        && State() == r.state && requestListener.log == old(requestListener.log) + r.events
        && Closed(connection, Closes(r.events, keepOpen), old(connection.hardware.status),
                  old(connection.disconnectData.disconnectTimeMillis))
    {
      hide ConnectionSpec.DecodeInput, AtRest, Counted;
      got := ReadInput(connection);
      keepOpen := false;
      assert got == "" ==> old(State()).buffer + got == old(State()).buffer;
      if inputBufferSize > 0 {
        keepOpen := DecodeInput(connection);
      }
    }

    method OnHalfClosed(connection: TcpServerConnection)
      requires Valid() && Open(State()) && sockNum == connection.hardware.sockNum
      requires StatusIsOpen(connection.hardware.status) && !connection.disconnectData.disconnected
      modifies this, requestListener, connection.hardware, connection.disconnectData
      ensures Valid()
      ensures State() == HalfClosed(old(State())).state
      ensures requestListener.log == old(requestListener.log) + HalfClosed(old(State())).events
      ensures Closed(connection, true, old(connection.hardware.status),
                  old(connection.disconnectData.disconnectTimeMillis))
    {
      if !betweenRequests {
        requestListener.OnRequestDecodingError(request, HttpBadRequest);
      }
      connection.Close();
      sockNum := MAX_SOCK_NUM;
    }

    method OnDisconnect()
      requires Valid() && sockNum < MAX_SOCK_NUM
      modifies this
      ensures Valid() && State() == ConnectionSpec.Disconnect(old(State()))
    {
      sockNum := MAX_SOCK_NUM;
    }
  }
}
