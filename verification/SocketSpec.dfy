// A hardware socket, the server socket that watches it, and the server
// connection that is its listener, composed: what each call of PerformIO does,
// as a function of what the hardware shows; and what all runs keep.

module SocketSpec {
  import opened Ints
  import opened DecoderSpec
  import opened ConnectionSpec

  const DISCONNECT_MAX_MILLIS := 5000

  // The documented values of the status register of a socket.
  datatype SnSR =
    | CLOSED | INIT | LISTEN | SYNSENT | SYNRECV | ESTABLISHED | FIN_WAIT | CLOSING | TIME_WAIT | CLOSE_WAIT
    | LAST_ACK | UDP | IPRAW | MACRAW | PPPOE

  predicate StatusIsOpen(status: SnSR) { status.ESTABLISHED? || status.CLOSE_WAIT? }

  predicate StatusIsClosing(status: SnSR) {
    status.FIN_WAIT? || status.CLOSING? || status.TIME_WAIT? || status.LAST_ACK?
  }

  // What the hardware may do by itself: complete a handshake, notice that the
  // client has finished, go through the statuses of a close that we started, or
  // close. It starts listening, or closing, only on our command.
  predicate Evolves(a: SnSR, b: SnSR) {
    || a == b || b.CLOSED?
    || (a.LISTEN? && (b.SYNRECV? || StatusIsOpen(b)))
    || (a.SYNRECV? && StatusIsOpen(b))
    || (a.ESTABLISHED? && b.CLOSE_WAIT?)
    || (StatusIsClosing(a) && StatusIsClosing(b))
  }

  lemma EvolvesOn(a: SnSR, b: SnSR, c: SnSR)
    requires Evolves(a, b) && Evolves(b, c)
    ensures Evolves(a, c)
  {
  }

  datatype SocketState = SocketState(sockNum: nat, lastStatus: SnSR, disconnected: bool, disconnectMillis: uint32)

  datatype System = System(hardware: SnSR, socket: SocketState, connection: ConnectionState)

  // Each callback, and for two of them whether the listener closes the connection in it.
  datatype Callback = OnConnect | OnCanRead(closes: bool) | OnHalfClosed(closes: bool) | OnDisconnect

  // What happens around the socket during a call of PerformIO: the status read at
  // first; whether bytes are waiting, and which are read; what the request
  // listener answers, and the next transaction id; whether a listener can be set
  // up; the status read at the end, if it is; and the time.
  datatype Seen = Seen(
    status: SnSR, available: bool, got: string, keepOpen: bool, id: uint32, listens: bool, after: SnSR, now: nat)

  datatype Ticked = Ticked(system: System, callbacks: seq<Callback>, events: seq<Event>)

  function Millis(now: nat): uint32 { now % 0x1_0000_0000 }

  // ----------------------------------------------------------- One call

  function SetStatus(s: System, status: SnSR): System {
    s.(hardware := status, socket := s.socket.(lastStatus := status))
  }

  // A callback to the connection, which leaves it as c. Making the object that
  // is passed to it forgets the last disconnect.
  function Call(s: System, e: Seen, c: ConnectionState, closes: bool): System {
    System(if closes then e.after else e.status,
           SocketState(s.socket.sockNum, if closes then e.after else e.status, closes,
                       if closes then Millis(e.now) else 0),
           c)
  }

  function AnnounceConnected(s: System, e: Seen): Ticked {
    Ticked(Call(s, e, Connect(s.connection, s.socket.sockNum), false), [OnConnect], [])
  }

  function AnnounceCanRead(s: System, e: Seen): Ticked {
    var r := CanRead(s.connection, e.got, e.id, e.keepOpen);
    var closes := Closes(r.events, e.keepOpen);
    Ticked(Call(s, e, r.state, closes), [OnCanRead(closes)], r.events)
  }

  function HandleCloseWait(s: System, e: Seen): Ticked {
    if e.available then AnnounceCanRead(s, e)
    else
      var r := HalfClosed(s.connection);
      Ticked(Call(s, e, r.state, true), [OnHalfClosed(true)], r.events)
  }

  function ElapsedMillis(start: uint32, now: nat): uint32 { (Millis(now) - start) % 0x1_0000_0000 }

  predicate CloseTimedOut(s: System, e: Seen) {
    s.socket.disconnected && ElapsedMillis(s.socket.disconnectMillis, e.now) > DISCONNECT_MAX_MILLIS
  }

  // The connection was open and is so no longer, without action on our part.
  function ConnectionLost(s: System, e: Seen): Ticked {
    var s' := SetStatus(s, e.status);
    if s.socket.disconnected then Ticked(s', [], [])
    else
      Ticked(s'.(socket := s'.socket.(disconnected := true, disconnectMillis := Millis(e.now)),
                 connection := Disconnect(s.connection)), [OnDisconnect], [])
  }

  function PerformIO(s: System, e: Seen): Ticked {
    var wasOpen := StatusIsOpen(s.socket.lastStatus);
    if s.socket.sockNum >= MAX_SOCK_NUM then Ticked(s, [], [])
    else if wasOpen && !StatusIsOpen(e.status) then ConnectionLost(s, e)
    else
      match e.status
      case CLOSED => Ticked(SetStatus(s, if e.listens then e.after else CLOSED), [], [])
      case LISTEN => Ticked(SetStatus(s, LISTEN), [], [])
      case SYNRECV => Ticked(SetStatus(s, LISTEN).(hardware := SYNRECV), [], [])
      case ESTABLISHED => if wasOpen then AnnounceCanRead(s, e) else AnnounceConnected(s, e)
      case CLOSE_WAIT => if wasOpen then HandleCloseWait(s, e) else AnnounceConnected(s, e)
      case FIN_WAIT | CLOSING | TIME_WAIT | LAST_ACK =>
        Ticked(SetStatus(s, if CloseTimedOut(s, e) then CLOSED else e.status), [], [])
      case INIT => Ticked(SetStatus(s, if s.socket.lastStatus.INIT? then CLOSED else INIT), [], [])
      case SYNSENT | UDP | IPRAW | MACRAW | PPPOE => Ticked(SetStatus(s, CLOSED), [], [])
  }

  // Nothing depends on what the hardware was before it was looked at,
  lemma OnlyWhatIsSeenMatters(s: System, hardware: SnSR, e: Seen)
    requires s.socket.sockNum < MAX_SOCK_NUM
    ensures PerformIO(s.(hardware := hardware), e) == PerformIO(s, e)
  {
    hide CanRead, HalfClosed, Closes, Connect, ElapsedMillis, Millis;
  }

  // nor, in a callback, on what was remembered of it.
  lemma CallbacksForget(s: System, hardware: SnSR, last: SnSR, e: Seen)
    ensures var s' := System(hardware, s.socket.(lastStatus := last), s.connection);
      && AnnounceConnected(s', e) == AnnounceConnected(s, e)
      && AnnounceCanRead(s', e) == AnnounceCanRead(s, e) && HandleCloseWait(s', e) == HandleCloseWait(s, e)
      && ConnectionLost(s', e) == ConnectionLost(s, e)
  {
    hide CanRead, HalfClosed, Closes, Connect;
  }

  // ----------------------------------------------------------- What all runs keep

  // The socket is set to listen by this call, if that is possible.
  predicate StartsListening(s: System, e: Seen) {
    s.socket.sockNum < MAX_SOCK_NUM && e.status.CLOSED? && !StatusIsOpen(s.socket.lastStatus) && e.listens
  }

  // What the hardware may show. Disconnecting leaves the open statuses.
  ghost predicate Plausible(s: System, e: Seen) {
    && Evolves(s.hardware, e.status)
    && |s.connection.buffer + e.got| <= INPUT_BUFFER_SIZE
    && (StartsListening(s, e) ==> Evolves(LISTEN, e.after))
    && (!StartsListening(s, e) ==> StatusIsClosing(e.after) || e.after.CLOSED?)
  }

  // The server socket and its listener agree: the listener has a socket exactly
  // while the last status was open, and the socket remembers that it closed a
  // connection that is closing.
  ghost predicate Agree(s: System) {
    var last := s.socket.lastStatus;
    if s.socket.sockNum < MAX_SOCK_NUM then
      && Evolves(last, s.hardware)
      && (last.CLOSED? || last.LISTEN? || last.SYNRECV? || StatusIsOpen(last) || StatusIsClosing(last))
      && (if StatusIsOpen(last) then
            Open(s.connection) && s.connection.sockNum == s.socket.sockNum && !s.socket.disconnected
          else
            s.connection.sockNum == MAX_SOCK_NUM)
      && (StatusIsClosing(last) ==> s.socket.disconnected)
    else
      s.connection.sockNum == MAX_SOCK_NUM
  }

  // A client's connection is complete in the instant between our starting to
  // listen and our looking at the status again.
  predicate ConnectsUnseen(s: System, e: Seen) { StartsListening(s, e) && StatusIsOpen(e.after) }

  // Every call keeps the agreement, except exactly those in which a client
  // connects in that instant.
  lemma PerformIOKeeps(s: System, e: Seen)
    requires Agree(s) && Plausible(s, e)
    ensures Agree(PerformIO(s, e).system) <==> !ConnectsUnseen(s, e)
  {
    hide CanRead, Open, Connect, Closes;
    if s.socket.sockNum < MAX_SOCK_NUM {
      EvolvesOn(s.socket.lastStatus, s.hardware, e.status);
      ConnectOpens(s.connection, s.socket.sockNum);
      assert Connect(s.connection, s.socket.sockNum).HasSocket();
      if StatusIsOpen(s.socket.lastStatus) {
        OpenIs(s.connection);
        CanReadKeepsOpen(s.connection, e.got, e.id, e.keepOpen);
        CanReadCloses(s.connection, e.got, e.id, e.keepOpen);
      }
    }
  }

  // The conditions that the code asserts of the previous and the current status.
  ghost predicate AssertionsHold(s: System, e: Seen) {
    var last := s.socket.lastStatus;
    if s.socket.sockNum >= MAX_SOCK_NUM || (StatusIsOpen(last) && !StatusIsOpen(e.status)) then true
    else
      match e.status
      case CLOSED => e.listens ==> e.after.LISTEN?
      case LISTEN | SYNRECV => last.LISTEN?
      case ESTABLISHED => last.LISTEN? || last.ESTABLISHED?
      case CLOSE_WAIT => last.LISTEN? || StatusIsOpen(last)
      case FIN_WAIT | CLOSING | TIME_WAIT | LAST_ACK => StatusIsOpen(last) || StatusIsClosing(last)
      case _ => false
  }

  // They all hold, but for the one that is made just after starting to listen,
  // if it sees a client that is connecting, and those made of what it saw.
  lemma AssertionsAreTrue(s: System, e: Seen)
    requires Agree(s) && Plausible(s, e)
    ensures AssertionsHold(s, e) <==>
      && (StartsListening(s, e) ==> e.after.LISTEN?)
      && (s.socket.sockNum < MAX_SOCK_NUM && s.socket.lastStatus.SYNRECV? ==> e.status.CLOSED?)
  {
    hide Open;
    if s.socket.sockNum < MAX_SOCK_NUM {
      EvolvesOn(s.socket.lastStatus, s.hardware, e.status);
    }
  }

  // ------------------------------------------------------------ Callbacks of a run

  // Where a listener is in the life of its connections, judged by the callbacks.
  datatype Phase = Unconnected | Connected | Wrong

  function NextPhase(p: Phase, c: Callback): Phase {
    match (p, c)
    case (Unconnected, OnConnect) => Connected
    case (Connected, OnCanRead(closes)) => if closes then Unconnected else Connected
    case (Connected, OnHalfClosed(closes)) => if closes then Unconnected else Connected
    case (Connected, OnDisconnect) => Unconnected
    case _ => Wrong
  }

  function PhaseAfter(p: Phase, callbacks: seq<Callback>): Phase
    decreases |callbacks|
  {
    if callbacks == [] then p else PhaseAfter(NextPhase(p, callbacks[0]), callbacks[1..])
  }

  lemma {:induction false} PhaseAfterBoth(p: Phase, a: seq<Callback>, b: seq<Callback>)
    ensures PhaseAfter(p, a + b) == PhaseAfter(PhaseAfter(p, a), b)
    decreases |a|
  {
    if a == [] {
      assert a + b == b;
    } else {
      assert (a + b)[1..] == a[1..] + b;
      PhaseAfterBoth(NextPhase(p, a[0]), a[1..], b);
    }
  }

  function PhaseOf(c: ConnectionState): Phase { if c.HasSocket() then Connected else Unconnected }

  // A call makes at most one callback, and one that is due.
  lemma OneCallback(s: System, e: Seen)
    requires Agree(s) && Plausible(s, e)
    ensures var t := PerformIO(s, e);
      |t.callbacks| <= 1 && PhaseAfter(PhaseOf(s.connection), t.callbacks) == PhaseOf(t.system.connection)
  {
    hide CanRead, Open, Closes, Connect;
    if s.socket.sockNum < MAX_SOCK_NUM {
      EvolvesOn(s.socket.lastStatus, s.hardware, e.status);
      ConnectOpens(s.connection, s.socket.sockNum);
      if StatusIsOpen(s.socket.lastStatus) {
        OpenIs(s.connection);
        CanReadKeepsOpen(s.connection, e.got, e.id, e.keepOpen);
        CanReadCloses(s.connection, e.got, e.id, e.keepOpen);
      }
    }
  }

  // A run: successive calls of PerformIO, with all their callbacks and events.
  function Run(s: System, es: seq<Seen>): Ticked
    decreases |es|
  {
    if es == [] then Ticked(s, [], [])
    else
      var t := PerformIO(s, es[0]);
      var q := Run(t.system, es[1..]);
      Ticked(q.system, t.callbacks + q.callbacks, t.events + q.events)
  }

  ghost predicate PlausibleRun(s: System, es: seq<Seen>)
    decreases |es|
  {
    es == [] || (Plausible(s, es[0]) && PlausibleRun(PerformIO(s, es[0]).system, es[1..]))
  }

  // In no call does a client connect unseen.
  ghost predicate AllSeen(s: System, es: seq<Seen>)
    decreases |es|
  {
    es == [] || (!ConnectsUnseen(s, es[0]) && AllSeen(PerformIO(s, es[0]).system, es[1..]))
  }

  // In some call a client connects unseen, and the next call makes a callback: it
  // does unless the connection is over by then, and the end of the one before it
  // was recorded.
  ghost predicate Missed(s: System, es: seq<Seen>)
    decreases |es|
  {
    es != [] &&
    ((ConnectsUnseen(s, es[0]) && |es| > 1 && (StatusIsOpen(es[1].status) || !s.socket.disconnected))
     || Missed(PerformIO(s, es[0]).system, es[1..]))
  }

  // The socket is connected and the listener was not told.
  ghost predicate Unseen(s: System) {
    && s.socket.sockNum < MAX_SOCK_NUM && StatusIsOpen(s.socket.lastStatus)
    && Evolves(s.socket.lastStatus, s.hardware) && s.connection.sockNum == MAX_SOCK_NUM
  }

  lemma ConnectsUnseenIs(s: System, e: Seen)
    requires Agree(s) && Plausible(s, e) && ConnectsUnseen(s, e)
    ensures var t := PerformIO(s, e);
      && Unseen(t.system) && t.callbacks == [] && t.events == [] && !s.connection.HasSocket()
      && t.system.socket.disconnected == s.socket.disconnected
  {
    hide Open;
  }

  // The call after a client has connected unseen.
  lemma AfterUnseen(s: System, e: Seen)
    requires Unseen(s) && Plausible(s, e)
    ensures !ConnectsUnseen(s, e)
    ensures var t := PerformIO(s, e);
      if StatusIsOpen(e.status) then
        && |t.callbacks| == 1 && (t.callbacks[0].OnCanRead? || t.callbacks[0].OnHalfClosed?)
        && (Unseen(t.system) || (StatusIsClosing(t.system.hardware) || t.system.hardware.CLOSED?))
      else t.callbacks == (if s.socket.disconnected then [] else [OnDisconnect]) && t.events == []
           && Agree(t.system) && !t.system.connection.HasSocket()
  {
    hide Open, CanRead;
    EvolvesOn(s.socket.lastStatus, s.hardware, e.status);
    assert StatusIsOpen(e.status) ==> CanRead(s.connection, e.got, e.id, e.keepOpen).state.sockNum == MAX_SOCK_NUM by {
      StaysWithout(s.connection, e.got, e.id, e.keepOpen);
    }
  }

  lemma StaysWithout(c: ConnectionState, got: string, id: uint32, keepOpen: bool)
    requires c.sockNum == MAX_SOCK_NUM
    ensures CanRead(c, got, id, keepOpen).state.sockNum == MAX_SOCK_NUM
  {
    hide DecodeBuffer;
  }

  // As long as the connection lasts, it is never announced: all that the listener
  // hears of it is that it can be read, or that its client has finished.
  lemma {:induction false} UnseenIsNotAnnounced(s: System, es: seq<Seen>)
    requires Unseen(s) && PlausibleRun(s, es) && forall k :: 0 <= k < |es| ==> StatusIsOpen(es[k].status)
    ensures OnConnect !in Run(s, es).callbacks && |Run(s, es).callbacks| == |es|
    decreases |es|
  {
    hide PerformIO, Unseen;
    if es != [] {
      AfterUnseen(s, es[0]);
      var t := PerformIO(s, es[0]).system;
      assert es[1..] != [] ==> Plausible(t, es[1..][0]) && StatusIsOpen(es[1..][0].status);
      if Unseen(t) {
        UnseenIsNotAnnounced(t, es[1..]);
      }
    }
  }

  lemma {:induction false} WrongStays(callbacks: seq<Callback>)
    ensures PhaseAfter(Wrong, callbacks) == Wrong
    decreases |callbacks|
  {
    if callbacks != [] {
      WrongStays(callbacks[1..]);
    }
  }

  // In every run the callbacks of each connection are OnConnect, then OnCanRead
  // and OnHalfClosed until the listener closes it, or else OnDisconnect, and
  // afterwards the listener has a socket exactly if a connection is not over; but
  // for the runs, and exactly those, in which a client connects unseen and is not
  // gone before the next call.
  lemma {:induction false} CallbacksInOrder(s: System, es: seq<Seen>)
    requires Agree(s) && PlausibleRun(s, es)
    ensures var t := Run(s, es);
      PhaseAfter(PhaseOf(s.connection), t.callbacks) == if Missed(s, es) then Wrong else PhaseOf(t.system.connection)
    ensures AllSeen(s, es) ==> Agree(Run(s, es).system) && !Missed(s, es)
    decreases |es|
  {
    hide PerformIO, Agree, Plausible, ConnectsUnseen, Unseen;
    if es != [] {
      var t, more := PerformIO(s, es[0]), es[1..];
      PerformIOKeeps(s, es[0]);
      OneCallback(s, es[0]);
      PhaseAfterBoth(PhaseOf(s.connection), t.callbacks, Run(t.system, more).callbacks);
      if !ConnectsUnseen(s, es[0]) {
        CallbacksInOrder(t.system, more);
      } else {
        ConnectsUnseenIs(s, es[0]);
        if more != [] {
          var q := PerformIO(t.system, more[0]);
          AfterUnseen(t.system, more[0]);
          assert more[1..] == es[2..];
          PhaseAfterBoth(Unconnected, q.callbacks, Run(q.system, more[1..]).callbacks);
          WrongStays(Run(q.system, more[1..]).callbacks);
          if !StatusIsOpen(more[0].status) {
            CallbacksInOrder(q.system, more[1..]);
          }
        }
      }
    }
  }

  // ------------------------------------------------------------ Requests of a run

  // Where the requests of a listener are, judged by its callbacks and by what the
  // request listener is told in them.
  datatype Life = NoConnection | InConnection(stage: Lifecycle) | Broken

  // Requests belong to a connection; each is announced once, before its only
  // outcome. When the listener closes a connection, no request is left without an
  // outcome; when it is lost, the request in hand has none.
  function NextLife(l: Life, callbacks: seq<Callback>, events: seq<Event>): Life {
    if callbacks == [] then (if events == [] then l else Broken)
    else if |callbacks| > 1 then Broken
    else
      match (l, callbacks[0])
      case (NoConnection, OnConnect) => if events == [] then InConnection(Idle) else Broken
      case (InConnection(_), OnDisconnect) => if events == [] then NoConnection else Broken
      case (InConnection(stage), OnCanRead(closes)) =>
        var end := After(stage, events);
        if closes then (if end == Ended || end == Idle then NoConnection else Broken)
        else if end == InRequest || end == Idle then InConnection(end) else Broken
      case (InConnection(stage), OnHalfClosed(closes)) =>
        var end := After(stage, events);
        if closes && (end == Ended || end == EndedUnannounced || (end == Idle && events == [])) then NoConnection
        else Broken
      case _ => Broken
  }

  function LifeAfter(l: Life, s: System, es: seq<Seen>): Life
    decreases |es|
  {
    if es == [] then l
    else
      var t := PerformIO(s, es[0]);
      LifeAfter(NextLife(l, t.callbacks, t.events), t.system, es[1..])
  }

  function LifeOf(c: ConnectionState): Life { if c.HasSocket() then InConnection(Stage(c)) else NoConnection }

  lemma OneCallKeepsLife(s: System, e: Seen)
    requires Agree(s) && Plausible(s, e)
    ensures var t := PerformIO(s, e); NextLife(LifeOf(s.connection), t.callbacks, t.events) == LifeOf(t.system.connection)
  {
    hide CanRead, Open, Closes, Connect, After, HalfClosed, Stage;
    if s.socket.sockNum < MAX_SOCK_NUM {
      EvolvesOn(s.socket.lastStatus, s.hardware, e.status);
      ConnectOpens(s.connection, s.socket.sockNum);
      StageAtFirst(s.connection, s.socket.sockNum);
      if StatusIsOpen(s.socket.lastStatus) {
        OpenIs(s.connection);
        CanReadKeepsOpen(s.connection, e.got, e.id, e.keepOpen);
        CanReadCloses(s.connection, e.got, e.id, e.keepOpen);
        CanReadLifecycle(s.connection, e.got, e.id, e.keepOpen);
        HalfClosedLifecycle(s.connection);
        HalfClosedIsOver(s.connection);
        StageIs(CanRead(s.connection, e.got, e.id, e.keepOpen).state);
      }
    }
  }

  lemma StageAtFirst(c: ConnectionState, sockNum: nat)
    ensures Stage(Connect(c, sockNum)) == Idle
  {
  }

  lemma StageIs(c: ConnectionState)
    ensures Stage(c) == Idle || Stage(c) == InRequest
  {
  }

  lemma HalfClosedIsOver(c: ConnectionState)
    requires Open(c)
    ensures var end := After(Stage(c), HalfClosed(c).events);
      end == Ended || end == EndedUnannounced || (end == Idle && HalfClosed(c).events == [])
  {
  }

  lemma {:induction false} BrokenStays(s: System, es: seq<Seen>)
    ensures LifeAfter(Broken, s, es) == Broken
    decreases |es|
  {
    hide PerformIO, After;
    if es != [] {
      BrokenStays(PerformIO(s, es[0]).system, es[1..]);
    }
  }

  // The lifecycle of requests in every run, over all its connections: every
  // request is announced exactly once before its only outcome, in the callbacks
  // of its own connection; it goes without an outcome only if the connection is
  // lost; and an outcome without announcement comes only when the client sends no
  // more, as HalfClosedLifecycle says. It is broken in those runs, and only those,
  // in which a client connects unseen and is not gone before the next call.
  lemma {:induction false} RequestsInOrder(s: System, es: seq<Seen>)
    requires Agree(s) && PlausibleRun(s, es)
    ensures LifeAfter(LifeOf(s.connection), s, es) ==
      if Missed(s, es) then Broken else LifeOf(Run(s, es).system.connection)
    decreases |es|
  {
    hide PerformIO, Agree, Plausible, ConnectsUnseen, NextLife, Unseen, LifeOf;
    if es != [] {
      var t, more := PerformIO(s, es[0]), es[1..];
      OneCallKeepsLife(s, es[0]);
      if !ConnectsUnseen(s, es[0]) {
        PerformIOKeeps(s, es[0]);
        RequestsInOrder(t.system, more);
      } else {
        ConnectsUnseenIs(s, es[0]);
        if more != [] {
          var q := PerformIO(t.system, more[0]);
          AfterUnseen(t.system, more[0]);
          UnseenLife(t.system, more[0]);
          assert more[1..] == es[2..];
          BrokenStays(q.system, more[1..]);
          if !StatusIsOpen(more[0].status) {
            RequestsInOrder(q.system, more[1..]);
          }
        }
      }
    }
  }

  // The call after a client has connected unseen, for the requests.
  lemma UnseenLife(s: System, e: Seen)
    requires Unseen(s) && Plausible(s, e)
    ensures LifeOf(s.connection) == NoConnection
    ensures var t := PerformIO(s, e);
      NextLife(NoConnection, t.callbacks, t.events) ==
        if StatusIsOpen(e.status) || !s.socket.disconnected then Broken else NoConnection
    ensures !StatusIsOpen(e.status) ==> LifeOf(PerformIO(s, e).system.connection) == NoConnection
  {
    hide PerformIO, After;
    AfterUnseen(s, e);
  }

  // ------------------------------------------------------------ Closing in time

  // A socket that began to close at time d is closed by force in a call made
  // more than 5000 ms later, and not before; if not by so many that the 32-bit
  // clock has come round.
  lemma ClosedByForce(s: System, e: Seen, d: nat)
    requires Agree(s) && Plausible(s, e) && s.socket.sockNum < MAX_SOCK_NUM
    requires StatusIsClosing(s.socket.lastStatus) && StatusIsClosing(e.status)
    requires s.socket.disconnectMillis == Millis(d) && d <= e.now < d + 0x1_0000_0000
    ensures PerformIO(s, e).system.hardware.CLOSED? <==> e.now - d > DISCONNECT_MAX_MILLIS
  {
    ElapsedIs(d, e.now);
  }

  lemma ElapsedIs(d: nat, now: nat)
    requires d <= now < d + 0x1_0000_0000
    ensures ElapsedMillis(Millis(d), now) == now - d
  {
    var a, b := d / 0x1_0000_0000, now / 0x1_0000_0000;
    assert d == a * 0x1_0000_0000 + Millis(d) && now == b * 0x1_0000_0000 + Millis(now);
    assert b == a || b == a + 1;
  }

  // In every run: of the calls made since a socket began to close at time d, if
  // the last comes more than 5000 ms later, then after one of them the socket is
  // no longer closing.
  lemma {:induction false} ClosingEnds(s: System, es: seq<Seen>, d: nat) returns (i: nat)
    requires Agree(s) && PlausibleRun(s, es) && s.socket.sockNum < MAX_SOCK_NUM
    requires StatusIsClosing(s.socket.lastStatus) && s.socket.disconnectMillis == Millis(d)
    requires es != [] && d + DISCONNECT_MAX_MILLIS < es[|es| - 1].now < d + 0x1_0000_0000
    ensures 0 < i <= |es| && !StatusIsClosing(Run(s, es[..i]).system.hardware)
    decreases |es|
  {
    hide Agree, Plausible, CanRead;
    var e := es[0];
    var t := PerformIO(s, e);
    assert es[..1][1..] == [] && es[..1][0] == e;
    if |es| == 1 && StatusIsClosing(e.status) {
      ClosedByForce(s, e, d);
    }
    if !StatusIsClosing(t.system.hardware) {
      return 1;
    }
    StillClosing(s, e);
    PerformIOKeeps(s, e);
    var j := ClosingEnds(t.system, es[1..], d);
    assert es[..j + 1][1..] == es[1..][..j];
    return j + 1;
  }

  // While a socket is closing its time of disconnection stays the same.
  lemma StillClosing(s: System, e: Seen)
    requires Agree(s) && Plausible(s, e) && s.socket.sockNum < MAX_SOCK_NUM
    requires StatusIsClosing(s.socket.lastStatus) && StatusIsClosing(PerformIO(s, e).system.hardware)
    ensures var t := PerformIO(s, e).system;
      && StatusIsClosing(e.status) && StatusIsClosing(t.socket.lastStatus) && t.socket.sockNum == s.socket.sockNum
      && t.socket.disconnectMillis == s.socket.disconnectMillis
  {
    hide CanRead, Open;
    EvolvesOn(s.socket.lastStatus, s.hardware, e.status);
  }
}
