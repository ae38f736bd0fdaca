// The network hardware, as far as the program can see it: sockets whose status
// changes by itself in known ways, and the clock.

module Hardware {
  import opened Ints
  import opened SocketSpec

  // millis() counts in 32 bits.
  class Clock {
    var now: nat

    constructor (now: nat) {
      this.now := now;
    }

    method ReadMillis() returns (m: uint32)
      ensures m == Millis(now)
    {
      return now % 0x1_0000_0000;
    }
  }

  class HardwareSocket {
    const sockNum: nat
    var status: SnSR

    constructor (sockNum: nat)
      ensures this.sockNum == sockNum && status == CLOSED
    {
      this.sockNum := sockNum;
      status := CLOSED;
    }

    // The hardware may have moved on since it was last looked at.
    method SocketStatus() returns (s: SnSR)
      modifies this
      ensures s == status && Evolves(old(status), status)
    {
      var moved: SnSR := *;
      if Evolves(status, moved) {
        status := moved;
      }
      return status;
    }

    method Available() returns (n: nat) {
      n := *;
    }

    // Reads some of the bytes that have arrived into the buffer, from start on.
    method Read(buffer: array<char>, start: nat, size: nat) returns (ret: int, ghost got: string)
      requires start + size <= buffer.Length
      modifies buffer
      ensures ret <= size && |got| == if ret > 0 then ret else 0
      ensures buffer[..start] == old(buffer[..start])
      ensures buffer[start..start + |got|] == got
    {
      ret := *;
      if ret > size {
        ret := size;
      }
      var i := 0;
      while i < ret
        invariant 0 <= i && (i <= ret || i == 0)
        invariant buffer[..start] == old(buffer[..start])
      {
        buffer[start + i] := *;
        i := i + 1;
      }
      got := buffer[start..start + if ret > 0 then ret else 0];
    }

    // Sends a FIN to the client.
    method Disconnect()
      requires StatusIsOpen(status)
      modifies this
      ensures StatusIsClosing(status) || status.CLOSED?
    {
      status := if status.ESTABLISHED? then FIN_WAIT else LAST_ACK;
      var moved := SocketStatus();
    }

    // Closes the socket at once.
    method Close()
      modifies this
      ensures status == CLOSED
    {
      status := CLOSED;
    }

    method InitializeTcpListener() returns (ok: bool)
      requires status.CLOSED?
      modifies this
      ensures status == if ok then LISTEN else CLOSED
    {
      ok := *;
      if ok {
        status := LISTEN;
      }
    }
  }
}
