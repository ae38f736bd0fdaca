// The CRC that guards what is stored in EEPROM, computed half a byte at a time
// with a table of 16 entries.

module Checksums {
  type byte = bv8

  function TableEntry(key: bv32): bv32 {
    var offset := key & 0xF;
    if offset == 0 then 0x00000000 else if offset == 1 then 0x1DB71064
    else if offset == 2 then 0x3B6E20C8 else if offset == 3 then 0x26D930AC
    else if offset == 4 then 0x76DC4190 else if offset == 5 then 0x6B6B51F4
    else if offset == 6 then 0x4DB26158 else if offset == 7 then 0x5005713C
    else if offset == 8 then 0xEDB88320 else if offset == 9 then 0xF00F9344
    else if offset == 10 then 0xD6D6A3E8 else if offset == 11 then 0xCB61B38C
    else if offset == 12 then 0x9B64C2B0 else if offset == 13 then 0x86D3D2D4
    else if offset == 14 then 0xA00AE278 else 0xBDBDF21C
  }

  // Half a step: n is added to the CRC, whose low four bits choose the entry.
  function AddNibble(crc: bv32, n: bv32): bv32 { ApplyEntry(TableEntry(crc ^ n), crc) }

  function ApplyEntry(entry: bv32, crc: bv32): bv32 { entry ^ (crc >> 4) }

  function AppendByte(crc: bv32, v: byte): bv32 { !AddNibble(AddNibble(crc, v as bv32), (v >> 4) as bv32) }

  const INITIAL_CRC: bv32 := 0xFFFF_FFFF

  // The CRC of a text, going on from another.
  function CrcFrom(crc: bv32, bytes: seq<byte>): bv32 {
    if bytes == [] then crc else AppendByte(CrcFrom(crc, bytes[..|bytes| - 1]), bytes[|bytes| - 1])
  }

  function Crc(bytes: seq<byte>): bv32 { CrcFrom(INITIAL_CRC, bytes) }

  // The top four bits of the entries differ, so they tell which entry was used.
  function EntryOf(top: bv32): bv32 {
    if top == 0x0 then 0 else if top == 0x1 then 1 else if top == 0x3 then 2 else if top == 0x2 then 3
    else if top == 0x7 then 4 else if top == 0x6 then 5 else if top == 0x4 then 6 else if top == 0x5 then 7
    else if top == 0xE then 8 else if top == 0xF then 9 else if top == 0xD then 10 else if top == 0xC then 11
    else if top == 0x9 then 12 else if top == 0x8 then 13 else if top == 0xA then 14 else 15
  }

  lemma EntryIsTold(key: bv32)
    ensures EntryOf(TableEntry(key) >> 28) == key & 0xF
  {
  }

  lemma ChoiceIsTold(crc: bv32, n: bv32)
    ensures EntryOf(AddNibble(crc, n) >> 28) == (crc ^ n) & 0xF
  {
    EntryIsTold(crc ^ n);
    var t := TableEntry(crc ^ n);
    assert (t ^ (crc >> 4)) >> 28 == t >> 28;
  }

  // Half a step loses nothing of the CRC.
  lemma NibbleKeepsCrc(a: bv32, b: bv32, n: bv32)
    requires AddNibble(a, n) == AddNibble(b, n)
    ensures a == b
  {
    ChoiceIsTold(a, n);
    ChoiceIsTold(b, n);
    hide TableEntry, EntryOf;
    assert TableEntry(a ^ n) == TableEntry(b ^ n) by { SameEntry(a ^ n, b ^ n); }
  }

  lemma SameEntry(a: bv32, b: bv32)
    requires a & 0xF == b & 0xF
    ensures TableEntry(a) == TableEntry(b)
  {
  }

  // A whole step loses nothing of the CRC,
  lemma ByteKeepsCrc(a: bv32, b: bv32, v: byte)
    requires AppendByte(a, v) == AppendByte(b, v)
    ensures a == b
  {
    hide AddNibble;
    var lo, hi := v as bv32, (v >> 4) as bv32;
    var a1, b1 := AddNibble(a, lo), AddNibble(b, lo);
    NotIsInjective(AddNibble(a1, hi), AddNibble(b1, hi));
    NibbleKeepsCrc(a1, b1, hi);
    NibbleKeepsCrc(a, b, lo);
  }

  lemma NotIsInjective(a: bv32, b: bv32)
    ensures !a == !b ==> a == b
  {
  }

  // After the second half step the first one's result is known but for its low four bits.
  lemma SecondStep(a: bv32, b: bv32, m: bv32, n: bv32)
    requires AddNibble(a, m) == AddNibble(b, n)
    ensures a >> 4 == b >> 4
  {
    ChoiceIsTold(a, m);
    ChoiceIsTold(b, n);
    SameEntry(a ^ m, b ^ n);
    hide TableEntry, EntryOf;
  }

  lemma TopOf(a: bv32)
    ensures a >> 28 == (a >> 4) >> 24
  {
  }

  // That is enough to tell which entry the first one used.
  lemma FirstStep(crc: bv32, m: bv32, n: bv32)
    requires AddNibble(crc, m) >> 4 == AddNibble(crc, n) >> 4
    ensures (crc ^ m) & 0xF == (crc ^ n) & 0xF
  {
    hide *;
    var a, b := AddNibble(crc, m), AddNibble(crc, n);
    TopOf(a);
    TopOf(b);
    ChoiceIsTold(crc, m);
    ChoiceIsTold(crc, n);
  }

  lemma SameNibble(crc: bv32, m: bv32, n: bv32)
    requires (crc ^ m) & 0xF == (crc ^ n) & 0xF
    ensures AddNibble(crc, m) == AddNibble(crc, n)
  {
    hide TableEntry, ApplyEntry;
    SameEntry(crc ^ m, crc ^ n);
  }

  lemma XorIsUndone(crc: bv32, m: bv32, n: bv32)
    requires (crc ^ m) & 0xF == (crc ^ n) & 0xF
    ensures m & 0xF == n & 0xF
  {
    assert (crc ^ m) & 0xF == (crc & 0xF) ^ (m & 0xF);
    assert (crc ^ n) & 0xF == (crc & 0xF) ^ (n & 0xF);
  }

  lemma Nibbles(v: byte, w: byte)
    requires v as bv32 & 0xF == w as bv32 & 0xF
    requires (v >> 4) as bv32 & 0xF == (w >> 4) as bv32 & 0xF
    ensures v == w
  {
  }

  // What is added in the two half steps is told by the result.
  lemma BothNibblesAreTold(crc: bv32, v0: bv32, v4: bv32, w0: bv32, w4: bv32)
    requires AddNibble(AddNibble(crc, v0), v4) == AddNibble(AddNibble(crc, w0), w4)
    ensures v0 & 0xF == w0 & 0xF && v4 & 0xF == w4 & 0xF
  {
    hide *;
    SecondStep(AddNibble(crc, v0), AddNibble(crc, w0), v4, w4);
    FirstStep(crc, v0, w0);
    SameNibble(crc, v0, w0);
    XorIsUndone(crc, v0, w0);
    LastNibbleIsTold(AddNibble(crc, v0), v4, w4);
  }

  lemma LastNibbleIsTold(crc: bv32, m: bv32, n: bv32)
    requires AddNibble(crc, m) == AddNibble(crc, n)
    ensures m & 0xF == n & 0xF
  {
    hide *;
    ChoiceIsTold(crc, m);
    ChoiceIsTold(crc, n);
    XorIsUndone(crc, m, n);
  }

  // and nothing of the byte.
  lemma ByteIsTold(crc: bv32, v: byte, w: byte)
    requires AppendByte(crc, v) == AppendByte(crc, w)
    ensures v == w
  {
    hide AddNibble;
    NotIsInjective(AddNibble(AddNibble(crc, v as bv32), (v >> 4) as bv32),
                   AddNibble(AddNibble(crc, w as bv32), (w >> 4) as bv32));
    BothNibblesAreTold(crc, v as bv32, (v >> 4) as bv32, w as bv32, (w >> 4) as bv32);
    Nibbles(v, w);
  }

  lemma {:induction false} CrcFromSplits(crc: bv32, a: seq<byte>, b: seq<byte>)
    ensures CrcFrom(crc, a + b) == CrcFrom(CrcFrom(crc, a), b)
    decreases |b|
  {
    hide AppendByte;
    if b == [] {
      assert a + b == a;
    } else {
      assert (a + b)[..|a + b| - 1] == a + b[..|b| - 1];
      CrcFromSplits(crc, a, b[..|b| - 1]);
    }
  }

  // Different CRCs stay different, whatever follows.
  lemma {:induction false} DifferenceStays(a: bv32, b: bv32, bytes: seq<byte>)
    requires a != b
    ensures CrcFrom(a, bytes) != CrcFrom(b, bytes)
  {
    hide AppendByte;
    if bytes != [] {
      var init := bytes[..|bytes| - 1];
      DifferenceStays(a, b, init);
      if CrcFrom(a, bytes) == CrcFrom(b, bytes) {
        ByteKeepsCrc(CrcFrom(a, init), CrcFrom(b, init), bytes[|bytes| - 1]);
      }
    }
  }

  // Changing exactly one byte, of a text of any length, changes its CRC.
  lemma OneByteIsDetected(bytes: seq<byte>, k: nat, v: byte)
    requires k < |bytes| && v != bytes[k]
    ensures Crc(bytes[k := v]) != Crc(bytes)
  {
    hide AppendByte;
    var a, w, b := bytes[..k], bytes[k], bytes[k + 1..];
    assert bytes == a + [w] + b && bytes[k := v] == a + [v] + b;
    CrcFromSplits(INITIAL_CRC, a + [w], b);
    CrcFromSplits(INITIAL_CRC, a + [v], b);
    var crc := CrcFrom(INITIAL_CRC, a);
    assert (a + [w])[..k] == a && (a + [v])[..k] == a;
    if AppendByte(crc, v) == AppendByte(crc, w) {
      ByteIsTold(crc, v, w);
    }
    DifferenceStays(AppendByte(crc, v), AppendByte(crc, w), b);
  }

  // ------------------------------------------------------------------ As bytes

  // A CRC as it is stored, its low byte first.
  function ToBytes(crc: bv32): (bytes: seq<byte>)
    ensures |bytes| == 4
  {
    [(crc & 0xFF) as byte, ((crc >> 8) & 0xFF) as byte, ((crc >> 16) & 0xFF) as byte, (crc >> 24) as byte]
  }

  function FromBytes(bytes: seq<byte>): bv32
    requires |bytes| == 4
  {
    (bytes[0] as bv32) | ((bytes[1] as bv32) << 8) | ((bytes[2] as bv32) << 16) | ((bytes[3] as bv32) << 24)
  }

  lemma FromToBytes(crc: bv32)
    ensures FromBytes(ToBytes(crc)) == crc
  {
  }

  lemma ToFromBytes(bytes: seq<byte>)
    requires |bytes| == 4
    ensures ToBytes(FromBytes(bytes)) == bytes
  {
  }
}
