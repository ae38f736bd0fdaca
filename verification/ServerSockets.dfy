// ServerSocket: binds a hardware socket to listen for connections, and tells
// its listener what becomes of them.

module ServerSockets {
  import opened DecoderSpec
  import opened ConnectionSpec
  import opened SocketSpec
  import opened Hardware
  import opened ServerConnections

  class ServerSocket {
    var sockNum: nat
    var lastStatus: SnSR
    const listener: ServerConnection
    const disconnectData: DisconnectData
    // The hardware socket that is there to be bound.
    const hardware: HardwareSocket
    // Every callback that was made.
    ghost var callbacks: seq<Callback>

    ghost function State(): System
      requires listener.inputBufferSize <= listener.inputBuffer.Length
      reads this, hardware, disconnectData, listener, listener.inputBuffer, listener.requestDecoder,
            listener.request, listener.requestDecoder.request
    {
      System(hardware.status,
             SocketState(sockNum, lastStatus, disconnectData.disconnected, disconnectData.disconnectTimeMillis),
             listener.State())
    }

    ghost predicate Valid()
      reads this, listener, listener.requestListener
    {
      && listener.Valid() && hardware.sockNum < MAX_SOCK_NUM
      && (sockNum == MAX_SOCK_NUM || sockNum == hardware.sockNum)
    }

    constructor (listener: ServerConnection, disconnectData: DisconnectData, hardware: HardwareSocket)
      requires listener.Valid() && hardware.sockNum < MAX_SOCK_NUM && listener.sockNum == MAX_SOCK_NUM
      ensures Valid() && Agree(State()) && callbacks == []
      ensures this.listener == listener && this.disconnectData == disconnectData && this.hardware == hardware
    {
      sockNum, lastStatus := MAX_SOCK_NUM, CLOSED;
      this.listener, this.disconnectData, this.hardware := listener, disconnectData, hardware;
      callbacks := [];
    }

    // Binds the hardware socket, if it is not in use. The agreement of socket and
    // listener is established unless a client connects before the status is read.
    method PickClosedSocket() returns (ok: bool)
      requires Valid() && Agree(State())
      modifies this`sockNum, this`lastStatus, hardware
      ensures Valid() && (sockNum < MAX_SOCK_NUM <==> ok || old(sockNum) < MAX_SOCK_NUM)
      ensures ok ==> old(sockNum) == MAX_SOCK_NUM && lastStatus == hardware.status && Evolves(LISTEN, lastStatus)
      ensures Agree(State()) <==> !(ok && StatusIsOpen(lastStatus))
    {
      hide Open;
      if sockNum < MAX_SOCK_NUM {
        return false;
      }
      lastStatus := CLOSED;
      var status := hardware.SocketStatus();
      if status.CLOSED? {
        sockNum := hardware.sockNum;
        ok := BeginListening();
        if ok {
          lastStatus := hardware.SocketStatus();
          return true;
        }
        sockNum := MAX_SOCK_NUM;
      }
      return false;
    }

    method IsConnected() returns (connected: bool)
      modifies hardware
      ensures old(hardware.status).CLOSED? ==> !connected && hardware.status.CLOSED?
      ensures sockNum < MAX_SOCK_NUM || hardware.status == old(hardware.status)
      ensures Evolves(old(hardware.status), hardware.status)
    {
      if sockNum >= MAX_SOCK_NUM {
        return false;
      }
      var status := hardware.SocketStatus();
      return status.SYNRECV? || StatusIsOpen(status) || StatusIsClosing(status) || status.INIT? || status.SYNSENT?;
    }

    // Listens, unless the socket listens already, or is connected; then what is
    // remembered of it does not change. A socket that was closed listens, or stays closed.
    method BeginListening() returns (ok: bool)
      modifies this`lastStatus, hardware
      ensures sockNum >= MAX_SOCK_NUM ==>
        !ok && lastStatus == old(lastStatus) && hardware.status == old(hardware.status)
      ensures sockNum < MAX_SOCK_NUM && old(hardware.status).CLOSED? ==>
        lastStatus == hardware.status && if ok then Evolves(LISTEN, lastStatus) else lastStatus.CLOSED?
      ensures ok ==> Evolves(LISTEN, hardware.status)
      ensures lastStatus == hardware.status ||
              (lastStatus == old(lastStatus) && Evolves(old(hardware.status), hardware.status))
    {
      if sockNum >= MAX_SOCK_NUM {
        return false;
      }
      ghost var before := hardware.status;
      var status := hardware.SocketStatus();
      if status.LISTEN? {
        return true;
      }
      var connected := IsConnected();
      if connected {
        EvolvesOn(before, status, hardware.status);
        return false;
      }
      CloseHardwareSocket();
      ok := hardware.InitializeTcpListener();
      if ok {
        lastStatus := hardware.SocketStatus();
      }
    }

    method CloseHardwareSocket()
      modifies this`lastStatus, hardware
      ensures lastStatus == hardware.status == CLOSED
    {
      hardware.Close();
      lastStatus := hardware.SocketStatus();
    }

    method AnnounceConnected()
      requires Valid() && sockNum == hardware.sockNum && listener.sockNum == MAX_SOCK_NUM
      modifies this`callbacks, listener, listener.requestDecoder, listener.request, disconnectData
      ensures Valid() && callbacks == old(callbacks) + [OnConnect]
      ensures State() == old(State()).(
        socket := old(State()).socket.(disconnected := false, disconnectMillis := 0),
        connection := Connect(old(State()).connection, sockNum))
    {
      var connection := new TcpServerConnection(hardware, disconnectData);
      listener.OnConnect(connection);
      callbacks := callbacks + [OnConnect];
    }

    // After a callback in which the listener may have closed the connection.
    method DetectListenerInitiatedDisconnect()
      modifies this`lastStatus, hardware
      ensures if disconnectData.disconnected
              then lastStatus == hardware.status && Evolves(old(hardware.status), lastStatus)
              else lastStatus == old(lastStatus) && hardware.status == old(hardware.status)
    {
      if disconnectData.disconnected {
        lastStatus := hardware.SocketStatus();
      }
    }

    method DetectCloseTimeout()
      modifies this`lastStatus, hardware
      ensures
        if old(disconnectData.disconnected) &&
           ElapsedMillis(old(disconnectData.disconnectTimeMillis), disconnectData.clock.now) > DISCONNECT_MAX_MILLIS
        then lastStatus == hardware.status == CLOSED
        else lastStatus == old(lastStatus) && hardware.status == old(hardware.status)
    {
      if disconnectData.disconnected {
        var elapsed := disconnectData.ElapsedDisconnectTime();
        if elapsed > DISCONNECT_MAX_MILLIS {
          CloseHardwareSocket();
        }
      }
    }

    // The listener can be called: it and the socket agree that a connection is open.
    ghost predicate CanCall()
      requires Valid()
      reads this, hardware, disconnectData, listener, listener.inputBuffer, listener.requestDecoder,
            listener.request, listener.requestDecoder.request, listener.requestListener
    {
      && sockNum == hardware.sockNum == listener.sockNum
      && StatusIsOpen(hardware.status) && lastStatus == hardware.status
      && Open(listener.State())
    }

    // What a callback saw fits what the hardware may show.
    ghost predicate SeenInCall(seen: Seen, status: SnSR, buffer: string)
      reads disconnectData.clock
    {
      && seen.status == status && seen.now == disconnectData.clock.now
      && |buffer + seen.got| <= INPUT_BUFFER_SIZE
      && (StatusIsClosing(seen.after) || seen.after.CLOSED?)
    }

    // What the system did is what the function says, for what was seen.
    twostate predicate Did(t: Ticked)
      requires Valid()
      reads this, hardware, disconnectData, listener, listener.inputBuffer, listener.requestDecoder,
            listener.request, listener.requestDecoder.request, listener.requestListener
    {
      && State() == t.system
      && callbacks == old(callbacks) + t.callbacks
      && listener.requestListener.log == old(listener.requestListener.log) + t.events
    }

    method AnnounceCanRead(ghost available: bool) returns (ghost seen: Seen)
      requires Valid() && CanCall()
      modifies this`lastStatus, this`callbacks, hardware, disconnectData
      modifies listener, listener.inputBuffer, listener.requestDecoder, listener.request, listener.requestListener
      ensures Valid()
      ensures SeenInCall(seen, old(hardware.status), old(State()).connection.buffer)
      ensures seen.id == NextId(old(listener.requestListener.serverTransactionId)) && seen.available == available
      ensures Did(SocketSpec.AnnounceCanRead(old(State()), seen))
    {
      hide CanRead, Open, Counted, NextId, Closes;
      var connection := new TcpServerConnection(hardware, disconnectData);
      ghost var got, keepOpen;
      got, keepOpen := listener.OnCanRead(connection);
      ghost var closes := disconnectData.disconnected;
      callbacks := callbacks + [OnCanRead(closes)];
      DetectListenerInitiatedDisconnect();
      seen := Seen(old(hardware.status), available, got, keepOpen,
                   NextId(old(listener.requestListener.serverTransactionId)), false,
                   if closes then hardware.status else CLOSED, disconnectData.clock.now);
    }

    method HandleCloseWait() returns (ghost seen: Seen)
      requires Valid() && CanCall()
      modifies this`lastStatus, this`callbacks, hardware, disconnectData
      modifies listener, listener.inputBuffer, listener.requestDecoder, listener.request, listener.requestListener
      ensures Valid()
      ensures SeenInCall(seen, old(hardware.status), old(State()).connection.buffer)
      ensures seen.id == NextId(old(listener.requestListener.serverTransactionId))
      ensures Did(SocketSpec.HandleCloseWait(old(State()), seen))
    {
      hide CanRead, Open, Counted, NextId, Closes, HalfClosed;
      var available := hardware.Available();
      if available > 0 {
        seen := AnnounceCanRead(true);
      } else {
        BufferFits(listener.State());
        var connection := new TcpServerConnection(hardware, disconnectData);
        listener.OnHalfClosed(connection);
        callbacks := callbacks + [OnHalfClosed(true)];
        DetectListenerInitiatedDisconnect();
        seen := Seen(old(hardware.status), false, "", false,
                     NextId(old(listener.requestListener.serverTransactionId)), false,
                     hardware.status, disconnectData.clock.now);
      }
    }

    // The connection was open and is so no longer.
    method ConnectionLost() returns (ghost seen: Seen)
      requires Valid() && sockNum == hardware.sockNum == listener.sockNum
      modifies this`lastStatus, this`callbacks, listener, disconnectData
      requires lastStatus == hardware.status
      ensures Valid()
      ensures seen == Seen(hardware.status, false, "", false, NextId(old(listener.requestListener.serverTransactionId)),
                           false, CLOSED, disconnectData.clock.now)
      ensures Did(SocketSpec.ConnectionLost(old(State()), seen))
    {
      hide Counted, NextId;
      seen := Seen(hardware.status, false, "", false, NextId(old(listener.requestListener.serverTransactionId)),
                   false, CLOSED, disconnectData.clock.now);
      if !disconnectData.disconnected {
        disconnectData.RecordDisconnect();
        listener.OnDisconnect();
        callbacks := callbacks + [OnDisconnect];
      }
    }

    // When nothing is told to the listener: what is seen but for the status at the end.
    ghost function Unheard(status: SnSR, listens: bool, after: SnSR): Seen
      reads disconnectData.clock, listener.requestListener
    {
      Seen(status, false, "", false, NextId(listener.requestListener.serverTransactionId), listens, after,
           disconnectData.clock.now)
    }

    // The statuses of a socket that is not connected.
    method HandleUnconnected(status: SnSR, pastStatus: SnSR) returns (ghost seen: Seen)
      requires Valid() && sockNum == hardware.sockNum && !StatusIsOpen(status) && !StatusIsOpen(pastStatus)
      requires status == lastStatus == hardware.status
      modifies this`lastStatus, hardware
      ensures Valid()
      ensures seen == Unheard(status, seen.listens, seen.after)
      ensures if status.CLOSED? && seen.listens then Evolves(LISTEN, seen.after) else seen.after == CLOSED
      ensures
        var s := old(State()).(socket := old(State()).socket.(lastStatus := pastStatus));
        SocketSpec.PerformIO(s, seen) == Ticked(State(), [], [])
    {
      hide CanRead, HalfClosed, Connect, NextId, Counted;
      seen := Unheard(status, false, CLOSED);
      match status
      case CLOSED =>
        var listens := BeginListening();
        if listens {
          seen := Unheard(status, true, lastStatus);
        }
      case SYNRECV => lastStatus := LISTEN;
      case FIN_WAIT | CLOSING | TIME_WAIT | LAST_ACK => DetectCloseTimeout();
      case INIT =>
        if pastStatus.INIT? {
          CloseHardwareSocket();
        }
      case SYNSENT | UDP | IPRAW | MACRAW | PPPOE => CloseHardwareSocket();
      case _ =>
    }

    // The statuses of a connection, new or not, that is open.
    method HandleOpen(status: SnSR, pastStatus: SnSR) returns (ghost seen: Seen)
      requires Valid() && sockNum == hardware.sockNum && StatusIsOpen(status)
      requires status == lastStatus == hardware.status
      requires if StatusIsOpen(pastStatus) then CanCall() else listener.sockNum == MAX_SOCK_NUM
      requires |listener.State().buffer| <= INPUT_BUFFER_SIZE
      modifies this`lastStatus, this`callbacks, hardware, disconnectData
      modifies listener, listener.inputBuffer, listener.requestDecoder, listener.request, listener.requestListener
      ensures Valid()
      ensures SeenInCall(seen, status, old(State()).connection.buffer)
      ensures seen.id == NextId(old(listener.requestListener.serverTransactionId))
      ensures
        var s := old(State()).(socket := old(State()).socket.(lastStatus := pastStatus));
        Did(SocketSpec.PerformIO(s, seen))
    {
      hide CanRead, HalfClosed, Connect, NextId, Counted, Open, AtRest, SocketSpec.AnnounceCanRead,
           SocketSpec.HandleCloseWait, SocketSpec.ConnectionLost;
      ghost var s := State();
      if !StatusIsOpen(pastStatus) {
        AnnounceConnected();
        seen := Unheard(status, false, CLOSED);
        assert |s.connection.buffer + ""| <= INPUT_BUFFER_SIZE;
      } else if status.ESTABLISHED? {
        seen := AnnounceCanRead(false);
      } else {
        seen := HandleCloseWait();
      }
      OnlyWhatIsSeenMatters(s, status, seen);
      CallbacksForget(s, status, pastStatus, seen);
    }

    // Looks at the hardware and tells the listener what there is to tell. Returns
    // what was seen; seen.available says nothing unless it was looked at.
    method PerformIO() returns (ghost seen: Seen)
      requires Valid() && Agree(State())
      modifies this`lastStatus, this`callbacks, hardware, disconnectData
      modifies listener, listener.inputBuffer, listener.requestDecoder, listener.request, listener.requestListener
      ensures Valid()
      ensures seen.id == NextId(old(listener.requestListener.serverTransactionId))
      ensures seen.now == disconnectData.clock.now
      ensures Plausible(old(State()), seen)
      ensures Did(SocketSpec.PerformIO(old(State()), seen))
      ensures Agree(State()) <==> !ConnectsUnseen(old(State()), seen)
    {
      hide CanRead, HalfClosed, Connect, NextId, Counted, Open, AtRest, SocketSpec.AnnounceCanRead,
           SocketSpec.HandleCloseWait, SocketSpec.ConnectionLost, ElapsedMillis, Millis;
      ghost var s := State();
      if sockNum >= MAX_SOCK_NUM {
        seen := Unheard(hardware.status, false, CLOSED);
        PerformIOKeeps(s, seen);
        return;
      }
      var status := hardware.SocketStatus();
      var pastStatus := lastStatus;
      lastStatus := status;
      if StatusIsOpen(pastStatus) && !StatusIsOpen(status) {
        seen := ConnectionLost();
      } else if StatusIsOpen(status) {
        seen := HandleOpen(status, pastStatus);
      } else {
        seen := HandleUnconnected(status, pastStatus);
      }
      OnlyWhatIsSeenMatters(s, status, seen);
      CallbacksForget(s, status, status, seen);
      PerformIOKeeps(s, seen);
    }
  }

  lemma BufferFits(c: ConnectionState)
    requires Open(c)
    ensures |c.buffer + ""| <= INPUT_BUFFER_SIZE
  {
  }
}
