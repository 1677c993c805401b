/**
 * `arp_decode` and `arp_encode`: the request and reply exchange of RFC 826, rewritten inside one
 * packet buffer overlaid with the packed header structures.
 */
module ArpProtocol {
  import opened Machine
  import opened Addresses
  import opened ArpTable
  import opened Frame

  const ARP_HARDWARE_TYPE: u16 := 1
  const ARP_OPCODE_REQUEST: u16 := 1
  const ARP_OPCODE_REPLY: u16 := 2

  const ARP_HEADER_SIZE := 42
  const ARP_HARDWARE := 14
  const ARP_PROTOCOL := 16
  const ARP_LENGTHS := 18
  const ARP_OPCODE := 20
  const ARP_MAC_SRC := 22
  const ARP_IP_SRC := 28
  const ARP_MAC_DEST := 32
  const ARP_IP_DEST := 38

  // ---------- what the packets must be ----------

  /** The reply RFC 826 asks for: the request turned round, field by field. */
  function ArpReply(f: seq<byte>, host: HostConfig): (r: seq<byte>)
    requires |f| >= ARP_HEADER_SIZE
    ensures |r| == |f|
  {
    MacAt(f, ARP_MAC_SRC) + host.mac + f[MAC_TYPE..ARP_OPCODE] + [0, 2] +
    host.mac + host.ip + MacAt(f, ARP_MAC_SRC) + IpAt(f, ARP_IP_SRC) + f[ARP_HEADER_SIZE..]
  }

  /** A broadcast request for `hop`, over whatever the buffer held. */
  function ArpRequest(f: seq<byte>, host: HostConfig, hop: Ip): (r: seq<byte>)
    requires |f| >= ARP_HEADER_SIZE
    ensures |r| == |f|
  {
    BROADCAST_MAC + host.mac + [0x08, 0x06] + [0, 1, 0x08, 0x00, 6, 4, 0, 1] +
    host.mac + host.ip + NO_MAC + hop + f[ARP_HEADER_SIZE..]
  }

  /** The packet with a complete Ethernet header for IP. */
  function Addressed(f: seq<byte>, host: HostConfig, destination: Mac): (r: seq<byte>)
    requires |f| >= MAC_HEADER_SIZE
    ensures |r| == |f|
  {
    destination + host.mac + [0x08, 0x00] + f[MAC_HEADER_SIZE..]
  }

  datatype ArpOutcome = ArpOutcome(table: seq<Entry>, frame: seq<byte>, reply: nat)

  /** `arp_decode`: the new table, the buffer, and the length to transmit. */
  function Decoded(host: HostConfig, now: byte, table: seq<Entry>, f: seq<byte>, length: nat): (r: ArpOutcome)
    requires length <= |f| && 0 < |table|
    ensures |r.table| == |table| && |r.frame| == |f|
  {
    if length < ARP_HEADER_SIZE || IpAt(f, ARP_IP_DEST) != host.ip then ArpOutcome(table, f, 0)
    else
      var learned := Updated(AsWritten, table, now, IpAt(f, ARP_IP_SRC), MacAt(f, ARP_MAC_SRC));
      if NetworkWord(f, ARP_OPCODE) == ARP_OPCODE_REQUEST then ArpOutcome(learned, ArpReply(f, host), ARP_HEADER_SIZE)
      else if NetworkWord(f, ARP_OPCODE) == ARP_OPCODE_REPLY then ArpOutcome(learned, f, 0)
      else ArpOutcome(table, f, 0)
  }

  /** `arp_encode`: the buffer and the length to transmit. */
  function Encoded(host: HostConfig, table: seq<Entry>, f: seq<byte>, length: nat): (r: (seq<byte>, nat))
    requires |f| >= ARP_HEADER_SIZE
    ensures |r.0| == |f|
  {
    var hop := NextHop(host, IpAt(f, IP_DEST));
    if IpAt(f, IP_DEST) == BROADCAST_IP then (Addressed(f, host, BROADCAST_MAC), length)
    else if SlotOf(table, hop) < |table| then (Addressed(f, host, table[SlotOf(table, hop)].mac), length)
    else (ArpRequest(f, host, hop), ARP_HEADER_SIZE)
  }

  // ---------- the code ----------

  method Decode(cache: ArpCache, host: HostConfig, length: u16, packet: array<byte>) returns (reply: u16)
    requires cache.Valid() && length <= packet.Length
    modifies cache.table, packet
    ensures ArpOutcome(cache.table[..], packet[..], reply)
         == Decoded(host, cache.time, old(cache.table[..]), old(packet[..]), length)
  {
    if length < ARP_HEADER_SIZE {
      return 0;
    }
    ghost var f := packet[..];
    var opcode := GetNetworkWord(packet, ARP_OPCODE);
    if opcode == ARP_OPCODE_REQUEST {
      if !Same(IpAt(packet[..], ARP_IP_DEST), host.ip) {
        return 0;
      }
      cache.Update(IpAt(packet[..], ARP_IP_SRC), MacAt(packet[..], ARP_MAC_SRC));
      TurnRound(host, packet);
      return ARP_HEADER_SIZE;
    }
    if opcode == ARP_OPCODE_REPLY {
      if Same(IpAt(packet[..], ARP_IP_DEST), host.ip) {
        cache.Update(IpAt(packet[..], ARP_IP_SRC), MacAt(packet[..], ARP_MAC_SRC));
      }
    }
    return 0;
  }

  lemma CopiesMakeReply(f: seq<byte>, host: HostConfig)
    requires |f| >= ARP_HEADER_SIZE
    ensures var mac, ip := MacAt(f, ARP_MAC_SRC), IpAt(f, ARP_IP_SRC);
            var f2 := Splice(Splice(f, ARP_MAC_DEST, mac), MAC_DEST, mac);
            var f4 := Splice(Splice(f2, ARP_MAC_SRC, host.mac), MAC_SRC, host.mac);
            Splice(Splice(Splice(f4, ARP_IP_DEST, ip), ARP_IP_SRC, host.ip), ARP_OPCODE, [0, 2]) == ArpReply(f, host)
  {
    var mac, ip := MacAt(f, ARP_MAC_SRC), IpAt(f, ARP_IP_SRC);
    var f2 := Splice(Splice(f, ARP_MAC_DEST, mac), MAC_DEST, mac);
    var f4 := Splice(Splice(f2, ARP_MAC_SRC, host.mac), MAC_SRC, host.mac);
    HardwareCopies(f, host);
    ProtocolCopies(f, f4, host);
  }

  lemma HardwareCopies(f: seq<byte>, host: HostConfig)
    requires |f| >= ARP_HEADER_SIZE
    ensures var mac := MacAt(f, ARP_MAC_SRC);
            var f2 := Splice(Splice(f, ARP_MAC_DEST, mac), MAC_DEST, mac);
            Splice(Splice(f2, ARP_MAC_SRC, host.mac), MAC_SRC, host.mac)
            == mac + host.mac + f[MAC_TYPE..ARP_MAC_SRC] + host.mac + IpAt(f, ARP_IP_SRC) + mac + f[ARP_IP_DEST..]
  {
    var mac := MacAt(f, ARP_MAC_SRC);
    var f1 := Splice(f, ARP_MAC_DEST, mac);
    var f2 := Splice(f1, MAC_DEST, mac);
    assert f2 == mac + f[MAC_SRC..ARP_MAC_DEST] + mac + f[ARP_IP_DEST..];
    var f3 := Splice(f2, ARP_MAC_SRC, host.mac);
    assert f3 == mac + f[MAC_SRC..ARP_MAC_SRC] + host.mac + IpAt(f, ARP_IP_SRC) + mac + f[ARP_IP_DEST..];
  }

  lemma ProtocolCopies(f: seq<byte>, g: seq<byte>, host: HostConfig)
    requires |f| >= ARP_HEADER_SIZE
    requires g == MacAt(f, ARP_MAC_SRC) + host.mac + f[MAC_TYPE..ARP_MAC_SRC] + host.mac + IpAt(f, ARP_IP_SRC)
                + MacAt(f, ARP_MAC_SRC) + f[ARP_IP_DEST..]
    ensures |g| == |f|
    ensures Splice(Splice(Splice(g, ARP_IP_DEST, IpAt(f, ARP_IP_SRC)), ARP_IP_SRC, host.ip), ARP_OPCODE, [0, 2])
         == ArpReply(f, host)
  {
    var mac, ip := MacAt(f, ARP_MAC_SRC), IpAt(f, ARP_IP_SRC);
    var before, opcode := mac + host.mac + f[MAC_TYPE..ARP_OPCODE], f[ARP_OPCODE..ARP_MAC_SRC];
    assert g == before + opcode + (host.mac + ip + mac + f[ARP_IP_DEST..]);
    var g1 := Splice(g, ARP_IP_DEST, ip);
    assert g1 == before + opcode + (host.mac + ip + mac + ip + f[ARP_HEADER_SIZE..]);
    SetSourceAndOpcode(before, opcode, host.mac, ip, host.ip, mac + ip + f[ARP_HEADER_SIZE..]);
    assert g1 == before + opcode + host.mac + ip + (mac + ip + f[ARP_HEADER_SIZE..]);
    assert before + [0, 2] + host.mac + host.ip + (mac + ip + f[ARP_HEADER_SIZE..]) == ArpReply(f, host);
  }

  lemma SetSourceAndOpcode(before: seq<byte>, opcode: seq<byte>, mac: Mac, from: Ip, to: Ip, after: seq<byte>)
    requires |before| == ARP_OPCODE && |opcode| == 2
    ensures Splice(Splice(before + opcode + mac + from + after, ARP_IP_SRC, to), ARP_OPCODE, [0, 2])
         == before + [0, 2] + mac + to + after
  {
    var g := before + opcode + mac + from + after;
    assert Splice(g, ARP_IP_SRC, to) == before + opcode + mac + to + after;
  }

  /** The copies of `arp_decode`, in its order: each source is read before it is overwritten. */
  method TurnRound(host: HostConfig, packet: array<byte>)
    requires packet.Length >= ARP_HEADER_SIZE
    modifies packet
    ensures packet[..] == ArpReply(old(packet[..]), host)
  {
    ghost var f := packet[..];
    ghost var mac, ip := MacAt(f, ARP_MAC_SRC), IpAt(f, ARP_IP_SRC);
    Put(packet, ARP_MAC_DEST, packet[ARP_MAC_SRC..ARP_MAC_SRC + 6]);
    ghost var f1 := packet[..];
    SpliceElsewhere(f, ARP_MAC_DEST, mac, ARP_MAC_SRC, 6);
    SpliceElsewhere(f, ARP_MAC_DEST, mac, ARP_IP_SRC, 4);
    assert packet[ARP_MAC_SRC..ARP_MAC_SRC + 6] == mac;
    Put(packet, MAC_DEST, packet[ARP_MAC_SRC..ARP_MAC_SRC + 6]);
    ghost var f2 := packet[..];
    SpliceElsewhere(f1, MAC_DEST, mac, ARP_IP_SRC, 4);
    Put(packet, ARP_MAC_SRC, host.mac);
    ghost var f3 := packet[..];
    SpliceElsewhere(f2, ARP_MAC_SRC, host.mac, ARP_IP_SRC, 4);
    Put(packet, MAC_SRC, host.mac);
    SpliceElsewhere(f3, MAC_SRC, host.mac, ARP_IP_SRC, 4);
    assert packet[ARP_IP_SRC..ARP_IP_SRC + 4] == ip;
    Put(packet, ARP_IP_DEST, packet[ARP_IP_SRC..ARP_IP_SRC + 4]);
    Put(packet, ARP_IP_SRC, host.ip);
    PutNetworkWord(packet, ARP_OPCODE, ARP_OPCODE_REPLY);
    CopiesMakeReply(f, host);
  }

  method Encode(cache: ArpCache, host: HostConfig, length: u16, packet: array<byte>) returns (send: u16)
    requires cache.Valid() && packet.Length >= ARP_HEADER_SIZE
    modifies packet
    ensures (packet[..], send as nat) == Encoded(host, cache.table[..], old(packet[..]), length)
  {
    ghost var f := packet[..];
    var destination := IpAt(packet[..], IP_DEST);
    if Same(destination, BROADCAST_IP) {
      Put(packet, MAC_DEST, BROADCAST_MAC);
      CompletesHeader(f, host, BROADCAST_MAC);
    } else {
      var hop := if !SameUnderMask(destination, host.ip, host.netmask) then host.router else destination;
      var i := 0;
      while i < ARP_TABLE_SIZE && !Same(hop, cache.table[i].ip)
        invariant 0 <= i <= ARP_TABLE_SIZE
        invariant forall j :: 0 <= j < i ==> cache.table[j].ip != hop
      {
        i := i + 1;
      }
      assert SlotOf(cache.table[..], hop) == i;
      if i == ARP_TABLE_SIZE {
        WriteRequest(host, hop, packet);
        return ARP_HEADER_SIZE;
      }
      Put(packet, MAC_DEST, cache.table[i].mac);
      CompletesHeader(f, host, cache.table[i].mac);
    }
    Put(packet, MAC_SRC, host.mac);
    PutNetworkWord(packet, MAC_TYPE, MAC_TYPE_IP4);
    send := length;
  }

  lemma CompletesHeader(f: seq<byte>, host: HostConfig, destination: Mac)
    requires |f| >= MAC_HEADER_SIZE
    ensures Splice(Splice(Splice(f, MAC_DEST, destination), MAC_SRC, host.mac), MAC_TYPE, [0x08, 0x00])
         == Addressed(f, host, destination)
  {
    var f1 := Splice(f, MAC_DEST, destination);
    assert f1 == destination + f[MAC_SRC..];
    var f2 := Splice(f1, MAC_SRC, host.mac);
    assert f2 == destination + host.mac + f[MAC_TYPE..];
  }

  /** The request of `arp_encode`, written over the packet in its order. */
  method WriteRequest(host: HostConfig, hop: Ip, packet: array<byte>)
    requires packet.Length >= ARP_HEADER_SIZE
    modifies packet
    ensures packet[..] == ArpRequest(old(packet[..]), host, hop)
  {
    ghost var f := packet[..];
    WriteAddresses(host, hop, packet);
    ghost var g := packet[..];
    WriteConstants(packet);
    RequestComplete(f, g, host, hop);
  }

  method WriteAddresses(host: HostConfig, hop: Ip, packet: array<byte>)
    requires packet.Length >= ARP_HEADER_SIZE
    modifies packet
    ensures packet[..] == WithAddresses(old(packet[..]), host, hop)
  {
    Put(packet, MAC_DEST, BROADCAST_MAC);
    Put(packet, ARP_MAC_DEST, NO_MAC);
    Put(packet, MAC_SRC, host.mac);
    Put(packet, ARP_MAC_SRC, host.mac);
    Put(packet, ARP_IP_DEST, hop);
    Put(packet, ARP_IP_SRC, host.ip);
  }

  function WithAddresses(f: seq<byte>, host: HostConfig, hop: Ip): (r: seq<byte>)
    requires |f| >= ARP_HEADER_SIZE
    ensures |r| == |f|
  {
    var f2 := Splice(Splice(f, MAC_DEST, BROADCAST_MAC), ARP_MAC_DEST, NO_MAC);
    var f4 := Splice(Splice(f2, MAC_SRC, host.mac), ARP_MAC_SRC, host.mac);
    Splice(Splice(f4, ARP_IP_DEST, hop), ARP_IP_SRC, host.ip)
  }

  /** The ten constant bytes between the two halves of the header. */
  method WriteConstants(packet: array<byte>)
    requires packet.Length >= ARP_HEADER_SIZE
    modifies packet
    ensures packet[..] == WithConstants(old(packet[..]), MAC_TYPE)
  {
    WriteHardwareConstants(packet);
    PutNetworkWord(packet, ARP_PROTOCOL, MAC_TYPE_IP4);
    Put(packet, ARP_LENGTHS + 1, [4]);
    PutNetworkWord(packet, MAC_TYPE, MAC_TYPE_ARP);
  }

  method WriteHardwareConstants(packet: array<byte>)
    requires packet.Length >= ARP_HEADER_SIZE
    modifies packet
    ensures packet[..]
         == Splice(Splice(Splice(old(packet[..]), ARP_OPCODE, [0, 1]), ARP_HARDWARE, [0, 1]), ARP_LENGTHS, [6])
  {
    PutNetworkWord(packet, ARP_OPCODE, ARP_OPCODE_REQUEST);
    PutNetworkWord(packet, ARP_HARDWARE, ARP_HARDWARE_TYPE);
    Put(packet, ARP_LENGTHS, [6]);
  }

  /** The six stores, relative to the offset of the type field. */
  function WithConstants(g: seq<byte>, base: nat): (r: seq<byte>)
    requires base + 10 <= |g|
  {
    var g3 := Splice(Splice(Splice(g, base + 8, [0, 1]), base + 2, [0, 1]), base + 6, [6]);
    Splice(Splice(Splice(g3, base + 4, [0x08, 0x00]), base + 7, [4]), base, [0x08, 0x06])
  }

  lemma ConstantsInMiddle(front: seq<byte>, m: seq<byte>, back: seq<byte>)
    requires |m| == 10
    ensures WithConstants(front + m + back, |front|) == front + WithConstants(m, 0) + back
  {
    SpliceMiddle(front, m, back, 8, [0, 1]);
    var m1 := Splice(m, 8, [0, 1]);
    SpliceMiddle(front, m1, back, 2, [0, 1]);
    var m2 := Splice(m1, 2, [0, 1]);
    SpliceMiddle(front, m2, back, 6, [6]);
    var m3 := Splice(m2, 6, [6]);
    SpliceMiddle(front, m3, back, 4, [0x08, 0x00]);
    var m4 := Splice(m3, 4, [0x08, 0x00]);
    SpliceMiddle(front, m4, back, 7, [4]);
    var m5 := Splice(m4, 7, [4]);
    SpliceMiddle(front, m5, back, 0, [0x08, 0x06]);
  }

  lemma RequestComplete(f: seq<byte>, g: seq<byte>, host: HostConfig, hop: Ip)
    requires |f| >= ARP_HEADER_SIZE && g == WithAddresses(f, host, hop)
    ensures WithConstants(g, MAC_TYPE) == ArpRequest(f, host, hop)
  {
    var front, back := BROADCAST_MAC + host.mac, host.mac + host.ip + NO_MAC + hop + f[ARP_HEADER_SIZE..];
    var m := f[MAC_TYPE..ARP_MAC_SRC];
    RequestHardware(f, host);
    RequestProtocol(f, g, host, hop);
    ConstantsInMiddle(front, m, back);
    ConstantBytes(m);
  }

  lemma RequestHardware(f: seq<byte>, host: HostConfig)
    requires |f| >= ARP_HEADER_SIZE
    ensures var f2 := Splice(Splice(f, MAC_DEST, BROADCAST_MAC), ARP_MAC_DEST, NO_MAC);
            Splice(Splice(f2, MAC_SRC, host.mac), ARP_MAC_SRC, host.mac)
            == BROADCAST_MAC + host.mac + f[MAC_TYPE..ARP_MAC_SRC] + host.mac + f[ARP_IP_SRC..ARP_MAC_DEST]
             + NO_MAC + f[ARP_IP_DEST..]
  {
    var f2 := Splice(Splice(f, MAC_DEST, BROADCAST_MAC), ARP_MAC_DEST, NO_MAC);
    assert f2 == BROADCAST_MAC + f[MAC_SRC..ARP_MAC_DEST] + NO_MAC + f[ARP_IP_DEST..];
    var f3 := Splice(f2, MAC_SRC, host.mac);
    assert f3 == BROADCAST_MAC + host.mac + f[MAC_TYPE..ARP_MAC_DEST] + NO_MAC + f[ARP_IP_DEST..];
  }

  lemma RequestProtocol(f: seq<byte>, g: seq<byte>, host: HostConfig, hop: Ip)
    requires |f| >= ARP_HEADER_SIZE
    requires var h := BROADCAST_MAC + host.mac + f[MAC_TYPE..ARP_MAC_SRC] + host.mac + f[ARP_IP_SRC..ARP_MAC_DEST]
                    + NO_MAC + f[ARP_IP_DEST..];
             |h| == |f| && g == Splice(Splice(h, ARP_IP_DEST, hop), ARP_IP_SRC, host.ip)
    ensures g == (BROADCAST_MAC + host.mac) + f[MAC_TYPE..ARP_MAC_SRC]
               + (host.mac + host.ip + NO_MAC + hop + f[ARP_HEADER_SIZE..])
  {
    var front := BROADCAST_MAC + host.mac + f[MAC_TYPE..ARP_MAC_SRC] + host.mac;
    var h := front + f[ARP_IP_SRC..ARP_MAC_DEST] + NO_MAC + f[ARP_IP_DEST..];
    var h1 := Splice(h, ARP_IP_DEST, hop);
    assert h1 == front + f[ARP_IP_SRC..ARP_MAC_DEST] + NO_MAC + hop + f[ARP_HEADER_SIZE..];
    assert g == front + host.ip + NO_MAC + hop + f[ARP_HEADER_SIZE..];
  }

  lemma SpliceMiddle(front: seq<byte>, middle: seq<byte>, back: seq<byte>, at: nat, bytes: seq<byte>)
    requires at + |bytes| <= |middle|
    ensures Splice(front + middle + back, |front| + at, bytes) == front + Splice(middle, at, bytes) + back
  {
  }

  /** The last store to each byte wins. */
  lemma ConstantBytes(m: seq<byte>)
    requires |m| == 10
    ensures WithConstants(m, 0) == [0x08, 0x06] + [0, 1, 0x08, 0x00, 6, 4, 0, 1]
  {
    var m1 := Splice(m, 8, [0, 1]);
    assert m1 == m[..8] + [0, 1];
    var m2 := Splice(m1, 2, [0, 1]);
    assert m2 == m[..2] + [0, 1] + m[4..8] + [0, 1];
    var m3 := Splice(m2, 6, [6]);
    assert m3 == m[..2] + [0, 1] + m[4..6] + [6, m[7], 0, 1];
    var m4 := Splice(m3, 4, [0x08, 0x00]);
    assert m4 == m[..2] + [0, 1, 0x08, 0x00, 6, m[7], 0, 1];
    var m5 := Splice(m4, 7, [4]);
    assert m5 == m[..2] + [0, 1, 0x08, 0x00, 6, 4, 0, 1];
  }
}
