// The network addresses that a device makes up once and keeps in its EEPROM.

module SavedAddresses {
  import opened Wrappers
  import opened Checksums

  // "addrs", which marks where the addresses are.
  const NAME: seq<byte> := [0x61, 0x64, 0x64, 0x72, 0x73]
  const IMAGE_SIZE := 19

  datatype Pair = Pair(ip: seq<byte>, mac: seq<byte>)
  {
    predicate Valid() { |ip| == 4 && |mac| == 6 }
  }

  // ------------------------------------------------------- What is in the EEPROM

  function Image(p: Pair): (e: seq<byte>)
    requires p.Valid()
    ensures |e| == IMAGE_SIZE
  {
    NAME + p.ip + p.mac + ToBytes(Crc(p.ip + p.mac))
  }

  predicate HasPrefix(mac: seq<byte>, prefix: seq<byte>)
    requires |mac| == 6 && |prefix| == 3
  {
    mac[..3] == prefix
  }

  // What load finds: the addresses, if the name and the CRC are right, and the
  // prefix, if one is asked for.
  function Load(e: seq<byte>, prefix: Option<seq<byte>>): (r: Option<Pair>)
    requires |e| >= IMAGE_SIZE && (prefix.Some? ==> |prefix.value| == 3)
    ensures r.Some? ==> r.value.Valid()
  {
    var p := Pair(e[5..9], e[9..15]);
    if e[..5] == NAME && FromBytes(e[15..19]) == Crc(p.ip + p.mac) && (prefix.Some? ==> HasPrefix(p.mac, prefix.value))
    then Some(p) else None
  }

  lemma ImageParts(p: Pair, rest: seq<byte>)
    requires p.Valid()
    ensures var e := Image(p) + rest;
      e[..5] == NAME && e[5..9] == p.ip && e[9..15] == p.mac && e[15..19] == ToBytes(Crc(p.ip + p.mac))
  {
    hide Crc, ToBytes;
  }

  // What is saved is loaded, unless another prefix is asked for.
  lemma SavedIsLoaded(p: Pair, rest: seq<byte>, prefix: Option<seq<byte>>)
    requires p.Valid() && (prefix.Some? ==> |prefix.value| == 3)
    ensures Load(Image(p) + rest, prefix) ==
      if prefix.Some? && !HasPrefix(p.mac, prefix.value) then None else Some(p)
  {
    hide Crc, ToBytes, FromBytes;
    ImageParts(p, rest);
    FromToBytes(Crc(p.ip + p.mac));
  }

  // Whatever is loaded was saved like that: loading accepts exactly the images.
  lemma LoadedIsImage(e: seq<byte>, prefix: Option<seq<byte>>)
    requires |e| >= IMAGE_SIZE && (prefix.Some? ==> |prefix.value| == 3)
    ensures Load(e, prefix).Some? ==> e[..IMAGE_SIZE] == Image(Load(e, prefix).value)
  {
    hide Crc, ToBytes, FromBytes;
    ToFromBytes(e[15..19]);
    assert e[..IMAGE_SIZE] == e[..5] + e[5..9] + e[9..15] + e[15..19];
  }

  // Two images that differ in one byte at most are the same.
  lemma ImagesDiffer(p: Pair, q: Pair, k: nat, v: byte)
    requires p.Valid() && q.Valid() && k < IMAGE_SIZE && Image(q) == Image(p)[k := v]
    ensures v == Image(p)[k]
  {
    hide Crc, ToBytes, Image;
    var a, b, e := p.ip + p.mac, q.ip + q.mac, Image(p);
    Slices(p);
    Slices(q);
    if k < 5 {
      assert e[..5][k] == e[k] && Image(q)[..5][k] == v;
    } else if k < 15 {
      assert b == a[k - 5 := v];
      assert a[k - 5] == e[k];
      assert e[15..19] == Image(q)[15..19];
      FromToBytes(Crc(a));
      FromToBytes(Crc(b));
      if v != e[k] {
        OneByteIsDetected(a, k - 5, v);
      }
    } else {
      assert a == e[5..15] == Image(q)[5..15] == b;
      assert e[15..19][k - 15] == e[k] && Image(q)[15..19][k - 15] == v;
    }
  }

  lemma Slices(p: Pair)
    requires p.Valid()
    ensures var e := Image(p); e[..5] == NAME && e[5..15] == p.ip + p.mac && e[15..19] == ToBytes(Crc(p.ip + p.mac))
  {
    hide Crc, ToBytes;
  }

  // After any single stored byte changes, nothing is loaded.
  lemma CorruptionIsDetected(p: Pair, rest: seq<byte>, k: nat, v: byte, prefix: Option<seq<byte>>)
    requires p.Valid() && k < IMAGE_SIZE && v != Image(p)[k] && (prefix.Some? ==> |prefix.value| == 3)
    ensures Load((Image(p) + rest)[k := v], prefix) == None
  {
    hide Load, Image;
    var e := (Image(p) + rest)[k := v];
    LoadedIsImage(e, prefix);
    if Load(e, prefix).Some? {
      assert e[..IMAGE_SIZE] == Image(p)[k := v];
      ImagesDiffer(p, Load(e, prefix).value, k, v);
    }
  }

  // -------------------------------------------------------------- Addresses made up

  // The first byte of a MAC address that is locally administered and of one station.
  function ToOuiUnicast(b: byte): (r: byte)
    ensures r & 2 == 2 && r & 1 == 0 && r & 0xFC == b & 0xFC
  {
    (b | 2) & !1
  }

  // ------------------------------------------------------------------- In place

  class Crc32 {
    var value: bv32

    constructor ()
      ensures value == INITIAL_CRC
    {
      value := 0xFFFF_FFFF;
    }

    method AddByte(v: byte)
      modifies this
      ensures value == AppendByte(old(value), v)
    {
      hide AddNibble;
      value := AddNibble(value, v as bv32);
      value := AddNibble(value, (v >> 4) as bv32);
      value := !value;
    }

    method Put(eeprom: array<byte>, address: nat) returns (after: nat)
      requires address + 4 <= eeprom.Length
      modifies eeprom
      ensures after == address + 4
      ensures eeprom[..] == old(eeprom[..address]) + ToBytes(value) + old(eeprom[after..])
    {
      hide ToBytes;
      var bytes := ToBytes(value);
      for i := 0 to 4
        invariant eeprom[..] == old(eeprom[..address]) + bytes[..i] + old(eeprom[address + i..])
      {
        eeprom[address + i] := bytes[i];
      }
      return address + 4;
    }

    method Verify(eeprom: array<byte>, address: nat) returns (ok: bool)
      requires address + 4 <= eeprom.Length
      ensures ok <==> FromBytes(eeprom[address..address + 4]) == value
    {
      return value == FromBytes(eeprom[address..address + 4]);
    }
  }

  method SaveName(eeprom: array<byte>, toAddress: nat, name: seq<byte>) returns (after: nat)
    requires toAddress + |name| <= eeprom.Length
    modifies eeprom
    ensures after == toAddress + |name|
    ensures eeprom[..] == old(eeprom[..toAddress]) + name + old(eeprom[after..])
  {
    var i := 0;
    while i < |name|
      invariant i <= |name|
      invariant eeprom[..] == old(eeprom[..toAddress]) + name[..i] + old(eeprom[toAddress + i..])
    {
      eeprom[toAddress + i] := name[i];
      i := i + 1;
    }
    return toAddress + i;
  }

  method VerifyName(eeprom: array<byte>, atAddress: nat, name: seq<byte>) returns (ok: bool, after: nat)
    requires atAddress + |name| <= eeprom.Length
    ensures ok <==> eeprom[atAddress..atAddress + |name|] == name
    ensures ok ==> after == atAddress + |name|
  {
    var i := 0;
    while i < |name|
      invariant i <= |name| && eeprom[atAddress..atAddress + i] == name[..i]
    {
      if eeprom[atAddress + i] != name[i] {
        assert eeprom[atAddress..atAddress + |name|][i] != name[i];
        return false, 0;
      }
      i := i + 1;
    }
    return true, atAddress + i;
  }

  method PutBytes(eeprom: array<byte>, address: nat, src: array<byte>, crc: Crc32)
    requires address + src.Length <= eeprom.Length && eeprom != src
    modifies eeprom, crc
    ensures eeprom[..] == old(eeprom[..address]) + src[..] + old(eeprom[address + src.Length..])
    ensures crc.value == CrcFrom(old(crc.value), src[..])
  {
    hide AppendByte;
    var i := 0;
    while i < src.Length
      invariant i <= src.Length
      invariant eeprom[..] == old(eeprom[..address]) + src[..i] + old(eeprom[address + i..])
      invariant crc.value == CrcFrom(old(crc.value), src[..i])
    {
      assert src[..i + 1][..i] == src[..i];
      crc.AddByte(src[i]);
      eeprom[address + i] := src[i];
      i := i + 1;
    }
    assert src[..i] == src[..];
  }

  method GetBytes(eeprom: array<byte>, address: nat, dest: array<byte>, crc: Crc32)
    requires address + dest.Length <= eeprom.Length && eeprom != dest
    modifies dest, crc
    ensures dest[..] == eeprom[address..address + dest.Length]
    ensures crc.value == CrcFrom(old(crc.value), dest[..])
  {
    hide AppendByte;
    var i := 0;
    while i < dest.Length
      invariant i <= dest.Length
      invariant dest[..i] == eeprom[address..address + i]
      invariant crc.value == CrcFrom(old(crc.value), dest[..i])
    {
      var b := eeprom[address + i];
      crc.AddByte(b);
      ghost var before := dest[..i];
      dest[i] := b;
      assert dest[..i + 1][..i] == before;
      i := i + 1;
    }
    assert dest[..i] == dest[..];
  }

  class Addresses {
    const ip: array<byte>
    const mac: array<byte>

    ghost predicate Valid()
      reads this
    {
      ip.Length == 4 && mac.Length == 6 && ip != mac
    }

    ghost function State(): (p: Pair)
      requires Valid()
      reads this, ip, mac
      ensures p.Valid()
    {
      Pair(ip[..], mac[..])
    }

    constructor ()
      ensures Valid() && fresh(ip) && fresh(mac)
    {
      ip, mac := new byte[4], new byte[6];
    }

    method Save(eeprom: array<byte>)
      requires Valid() && eeprom.Length >= IMAGE_SIZE && eeprom != ip && eeprom != mac
      modifies eeprom
      ensures eeprom[..] == Image(State()) + old(eeprom[IMAGE_SIZE..])
    {
      hide ToBytes, CrcFrom;
      var ipAddress := SaveName(eeprom, 0, NAME);
      var crc := new Crc32();
      PutBytes(eeprom, ipAddress, ip, crc);
      PutBytes(eeprom, ipAddress + 4, mac, crc);
      CrcFromSplits(INITIAL_CRC, ip[..], mac[..]);
      var after := crc.Put(eeprom, ipAddress + 10);
    }

    // Reads the addresses, and says whether they are good.
    method LoadFrom(eeprom: array<byte>, prefix: Option<seq<byte>>) returns (ok: bool)
      requires Valid() && eeprom.Length >= IMAGE_SIZE && eeprom != ip && eeprom != mac
      requires prefix.Some? ==> |prefix.value| == 3
      modifies ip, mac
      ensures ok <==> Load(eeprom[..], prefix).Some?
      ensures ok ==> Load(eeprom[..], prefix) == Some(State())
    {
      hide FromBytes, CrcFrom;
      var named, ipAddress := VerifyName(eeprom, 0, NAME);
      assert eeprom[0..5] == eeprom[..][..5];
      if !named {
        return false;
      }
      var crc := new Crc32();
      GetBytes(eeprom, ipAddress, ip, crc);
      GetBytes(eeprom, ipAddress + 4, mac, crc);
      CrcFromSplits(INITIAL_CRC, ip[..], mac[..]);
      assert eeprom[..][5..9] == ip[..] && eeprom[..][9..15] == mac[..];
      var verified := crc.Verify(eeprom, ipAddress + 10);
      assert eeprom[15..19] == eeprom[..][15..19];
      if !verified {
        return false;
      }
      if prefix.Some? && mac[..3] != prefix.value {
        assert mac[..3] == mac[..][..3];
        return false;
      }
      assert mac[..3] == mac[..][..3];
      return true;
    }

    // Makes up a MAC address with the prefix, if there is one, and a link-local
    // IP address.
    method Generate(prefix: Option<seq<byte>>)
      requires Valid() && (prefix.Some? ==> |prefix.value| == 3)
      modifies ip, mac
      ensures prefix.Some? ==> HasPrefix(mac[..], prefix.value)
      ensures prefix.None? ==> mac[0] & 2 == 2 && mac[0] & 1 == 0
      ensures ip[0] == 169 && ip[1] == 254 && 1 <= ip[2] <= 254
    {
      var first := 0;
      if prefix.Some? {
        first := 3;
        mac[0], mac[1], mac[2] := prefix.value[0], prefix.value[1], prefix.value[2];
      }
      for i := first to 6
        invariant prefix.Some? ==> mac[..3] == prefix.value
        invariant prefix.None? && i > 0 ==> mac[0] & 2 == 2 && mac[0] & 1 == 0
      {
        var r: byte := *;
        if i == 0 {
          r := ToOuiUnicast(r);
        }
        mac[i] := r;
      }
      assert mac[..][..3] == mac[..3];
      var c: byte, d: byte := *, *;
      if c > 253 {
        c := 0;
      }
      ip[0], ip[1], ip[2], ip[3] := 169, 254, c + 1, d;
    }

    // Whatever was stored, a device ends up with addresses that it will find again.
    method LoadOrGenAndSave(eeprom: array<byte>, prefix: Option<seq<byte>>)
      requires Valid() && eeprom.Length >= IMAGE_SIZE && eeprom != ip && eeprom != mac
      requires prefix.Some? ==> |prefix.value| == 3
      modifies ip, mac, eeprom
      ensures Load(eeprom[..], prefix) == Some(State())
      ensures eeprom[IMAGE_SIZE..] == old(eeprom[IMAGE_SIZE..])
      ensures old(Load(eeprom[..], prefix)).Some? ==>
        eeprom[..] == old(eeprom[..]) && Some(State()) == old(Load(eeprom[..], prefix))
    {
      hide Load, Image;
      var ok := LoadFrom(eeprom, prefix);
      if ok {
        return;
      }
      Generate(prefix);
      Save(eeprom);
      SavedIsLoaded(State(), old(eeprom[IMAGE_SIZE..]), prefix);
    }
  }
}
