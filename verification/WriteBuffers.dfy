// WriteBufferedWrappedClientConnection: gathers what is written into blocks for
// a client that may take only part of a block, or break the connection.

module WriteBuffers {
  // The network client. It may take any part of what it is given, and be gone at
  // any time; but then it stays gone.
  class Client {
    var isConnected: bool
    // All that it has taken.
    ghost var delivered: string

    constructor ()
      ensures delivered == ""
    {
      isConnected := *;
      delivered := "";
    }

    method Write(data: string) returns (wrote: nat)
      modifies this
      ensures wrote <= |data| && delivered == old(delivered) + data[..wrote]
      ensures isConnected ==> old(isConnected)
    {
      var taken: int := *;
      wrote := if taken < 0 then 0 else if taken > |data| then |data| else taken;
      delivered := delivered + data[..wrote];
      var goes: bool := *;
      if goes {
        isConnected := false;
      }
    }
  }

  class WriteBufferedConnection {
    const client: Client
    const writeBuffer: array<char>
    var size: nat
    var writeError: bool
    // All that was written to the connection.
    ghost var written: string

    ghost predicate HasWriteError()
      reads this, client
    {
      writeError || !client.isConnected
    }

    // The client has the beginning of what was written; and until there is an
    // error, the buffer has the rest.
    ghost predicate Valid()
      reads this, client, writeBuffer
    {
      && 0 < writeBuffer.Length <= 255 && size <= writeBuffer.Length
      && client.delivered <= written
      && (!HasWriteError() ==> client.delivered + writeBuffer[..size] == written)
    }

    constructor (client: Client, limit: nat)
      requires 0 < limit <= 255 && client.delivered == ""
      ensures Valid() && this.client == client && written == "" && !writeError && fresh(writeBuffer)
      ensures writeBuffer.Length == limit
    {
      this.client, writeBuffer, size, writeError, written := client, new char[limit], 0, false, "";
    }

    // Empties the buffer. All that was written has been delivered, in order,
    // unless there is an error; and an error does not go away.
    method Flush()
      requires Valid()
      modifies this`size, this`writeError, client
      ensures Valid() && size == 0
      ensures !HasWriteError() ==> client.delivered == written
      ensures old(HasWriteError()) ==> HasWriteError() && client.delivered == old(client.delivered)
      ensures old(client.delivered) <= client.delivered
    {
      if size > 0 {
        if !(writeError || !client.isConnected) {
          ghost var block := writeBuffer[..size];
          var cursor, remaining := 0, size;
          var failed := false;
          while true
            invariant 0 <= cursor && cursor + remaining == size == |block| && 0 < remaining
            invariant block == writeBuffer[..size]
            invariant client.delivered == old(client.delivered) + block[..cursor]
            invariant !HasWriteError()
            decreases remaining
            modifies client
          {
            var data := writeBuffer[cursor..cursor + remaining];
            assert data == block[cursor..];
            var wrote := client.Write(data);
            assert block[..cursor] + data[..wrote] == block[..cursor + wrote];
            if wrote <= 0 || !client.isConnected {
              failed := true;
              break;
            }
            if wrote >= remaining {
              assert block[..size] == block;
              break;
            }
            cursor := cursor + wrote;
            remaining := remaining - wrote;
          }
          if failed {
            writeError := true;
          }
        }
        size := 0;
      }
    }

    method FlushIfFull()
      requires Valid()
      modifies this`size, this`writeError, client
      ensures Valid() && size < writeBuffer.Length
      ensures old(HasWriteError()) ==> HasWriteError() && client.delivered == old(client.delivered)
      ensures old(client.delivered) <= client.delivered
    {
      if size >= writeBuffer.Length {
        Flush();
      }
    }

    method WriteByte(b: char) returns (n: nat)
      requires Valid()
      modifies this, writeBuffer, client
      ensures Valid() && n == 1 && written == old(written) + [b]
      ensures old(HasWriteError()) ==> HasWriteError() && client.delivered == old(client.delivered)
      ensures old(client.delivered) <= client.delivered
    {
      if size >= writeBuffer.Length {
        Flush();
      }
      ghost var before := writeBuffer[..size];
      writeBuffer[size] := b;
      size := size + 1;
      written := written + [b];
      assert writeBuffer[..size] == before + [b];
      return 1;
    }

    // Copies as much of the block as there is room for, and flushes, until all is copied.
    method WriteBlock(buf: string) returns (n: nat)
      requires Valid()
      modifies this, writeBuffer, client
      ensures Valid() && n == |buf| && written == old(written) + buf
      ensures old(HasWriteError()) ==> HasWriteError() && client.delivered == old(client.delivered)
      ensures old(client.delivered) <= client.delivered
    {
      FlushIfFull();
      var remaining := |buf|;
      while remaining > 0
        invariant 0 <= remaining <= |buf|
        invariant Valid() && size < writeBuffer.Length
        invariant written == old(written) + buf[..|buf| - remaining]
        invariant old(HasWriteError()) ==> HasWriteError() && client.delivered == old(client.delivered)
        invariant old(client.delivered) <= client.delivered
      {
        var room := writeBuffer.Length - size;
        if room > remaining {
          room := remaining;
        }
        var from := |buf| - remaining;
        ghost var before := writeBuffer[..size];
        CopyIn(buf[from..from + room]);
        assert buf[..from] + buf[from..from + room] == buf[..from + room];
        remaining := remaining - room;
        FlushIfFull();
      }
      assert buf[..|buf|] == buf;
      return |buf|;
    }

    // memcpy to the end of what is in the buffer.
    method CopyIn(text: string)
      requires Valid() && size + |text| <= writeBuffer.Length
      modifies this`size, this`written, writeBuffer
      ensures Valid() && size == old(size) + |text| && written == old(written) + text
    {
      ghost var before := writeBuffer[..size];
      for i := 0 to |text|
        invariant writeBuffer[..size] == before && writeBuffer[size..size + i] == text[..i]
        modifies writeBuffer
      {
        writeBuffer[size + i] := text[i];
      }
      assert text[..|text|] == text;
      assert writeBuffer[..size + |text|] == writeBuffer[..size] + writeBuffer[size..size + |text|];
      size := size + |text|;
      written := written + text;
    }
  }
}
