/** `net_decode`, the dispatch over the protocols, and what two hosts running it achieve together. */
module Net {
  import opened Machine
  import opened Addresses
  import opened Checksum
  import opened ArpTable
  import opened Frame
  import opened IpReply
  import opened OnesComplement
  import opened Samples
  import Arp = ArpProtocol
  import Icmp
  import Udp

  /** Everything `net_decode` consults: configuration, ARP clock and table, port bindings. */
  datatype StackState = StackState(host: HostConfig, now: byte, table: seq<Entry>, slots: seq<Udp.Slot>)

  predicate IsIp(f: seq<byte>, length: nat, protocol: byte)
    requires length <= |f|
  {
    length >= IP_HEADER_SIZE && NetworkWord(f, MAC_TYPE) == MAC_TYPE_IP4 && f[IP_PROTOCOL] == protocol
  }

  /** A UDP datagram whose checksum is to be recomputed lies in memory; nothing is asked of other frames. */
  predicate Acceptable(slots: seq<Udp.Slot>, f: seq<byte>, length: nat)
    requires length <= |f|
  {
    IsIp(f, length, IP_PROTOCOL_UDP) && Udp.Delivered(slots, f, length) ==> Udp.Checkable(f)
  }

  /** One past the last byte read by a recomputed UDP checksum. */
  function ReadEnd(slots: seq<Udp.Slot>, f: seq<byte>, length: nat): (end: nat)
    requires length <= |f|
  {
    if IsIp(f, length, IP_PROTOCOL_UDP) then Udp.ReadEnd(slots, f, length) else 0
  }

  /** The ARP table after any frame whatever. */
  function TableAfter(s: StackState, f: seq<byte>, length: nat): (r: seq<Entry>)
    requires length <= |f| && 0 < |s.table|
    ensures |r| == |s.table|
  {
    if length >= MAC_HEADER_SIZE && NetworkWord(f, MAC_TYPE) == MAC_TYPE_ARP then
      Arp.Decoded(s.host, s.now, s.table, f, length).table
    else s.table
  }

  function Decoded(s: StackState, f: seq<byte>, length: nat): (r: Arp.ArpOutcome)
    requires length <= |f| && 0 < |s.table| && Acceptable(s.slots, f, length)
    ensures r.table == TableAfter(s, f, length) && |r.table| == |s.table| && |r.frame| == |f|
  {
    if length >= MAC_HEADER_SIZE && NetworkWord(f, MAC_TYPE) == MAC_TYPE_ARP then
      Arp.Decoded(s.host, s.now, s.table, f, length)
    else if IsIp(f, length, IP_PROTOCOL_ICMP) && Icmp.IsEchoRequest(f, length) then
      Arp.ArpOutcome(s.table, Icmp.EchoReply(f, s.host), Icmp.ICMP_HEADER_SIZE)
    else if IsIp(f, length, IP_PROTOCOL_UDP) then
      var (frame, reply) := Udp.Decoded(s.host, s.slots, f, length);
      Arp.ArpOutcome(s.table, frame, reply)
    else
      Arp.ArpOutcome(s.table, f, 0)
  }

  class Stack {
    var host: HostConfig
    const arp: ArpCache
    const udp: Udp.UdpBindings

    ghost predicate Valid()
      reads this, arp, udp
    {
      arp.Valid() && udp.Valid()
    }

    ghost function State(): (s: StackState)
      requires Valid()
      reads this, arp, arp.table, udp, udp.slots
      ensures 0 < |s.table|
    {
      StackState(host, arp.time, arp.table[..], udp.slots[..])
    }

    constructor ()
      ensures Valid() && fresh(arp) && fresh(arp.table) && fresh(udp) && fresh(udp.slots)
      ensures arp.time == 0 && forall i :: 0 <= i < arp.table.Length ==> arp.table[i] == Entry(0, NO_MAC, EMPTY_IP)
      ensures Udp.Packed(udp.slots[..], 0)
    {
      host := HostConfig(NO_MAC, EMPTY_IP, EMPTY_IP, EMPTY_IP);
      arp := new ArpCache();
      udp := new Udp.UdpBindings();
    }

    /** The configuration half of `net_init`; module Startup adds the timer. */
    method Init(config: HostConfig)
      requires Valid()
      modifies this, arp.table
      ensures Valid() && host == config && arp.time == old(arp.time)
      ensures forall i :: 0 <= i < arp.table.Length ==> arp.table[i] == old(arp.table[i]).(ip := EMPTY_IP)
      ensures Mapping(arp.table[..]) == map[]
    {
      arp.Init();
      host := config;
    }

    method Decode(length: u16, packet: array<byte>) returns (reply: u16, ghost end: nat)
      requires Valid() && length <= packet.Length && Acceptable(udp.slots[..], packet[..], length)
      modifies packet, arp.table
      ensures Valid()
      ensures Arp.ArpOutcome(arp.table[..], packet[..], reply) == Decoded(old(State()), old(packet[..]), length)
      ensures end == ReadEnd(udp.slots[..], old(packet[..]), length)
    {
      end := 0;
      if length < MAC_HEADER_SIZE {
        return 0, 0;
      }
      var kind := GetNetworkWord(packet, MAC_TYPE);
      if kind == MAC_TYPE_ARP {
        reply := Arp.Decode(arp, host, length, packet);
        return;
      }
      if kind == MAC_TYPE_IP4 {
        if length < IP_HEADER_SIZE {
          return 0, 0;
        }
        reply, end := DecodeIp(length, packet);
        return;
      }
      return 0, 0;
    }

    /** The inner switch; `tcp_decode` never answers, as its state machine is missing. */
    method DecodeIp(length: u16, packet: array<byte>) returns (reply: u16, ghost end: nat)
      requires Valid() && IP_HEADER_SIZE <= length <= packet.Length
      requires Acceptable(udp.slots[..], packet[..], length)
      requires NetworkWord(packet[..], MAC_TYPE) == MAC_TYPE_IP4
      modifies packet
      ensures Valid()
      ensures Arp.ArpOutcome(arp.table[..], packet[..], reply) == Decoded(old(State()), old(packet[..]), length)
      ensures end == ReadEnd(udp.slots[..], old(packet[..]), length)
    {
      ghost var table := arp.table[..];
      end := 0;
      if packet[IP_PROTOCOL] == IP_PROTOCOL_ICMP {
        reply := Icmp.Decode(host, length, packet);
      } else if packet[IP_PROTOCOL] == IP_PROTOCOL_UDP {
        reply, end := Udp.Decode(udp, host, length, packet);
      } else {
        reply := 0;
      }
      assert arp.table[..] == table;
    }
  }

  // ---------- invariants of every run ----------

  /** No received frame of any kind breaks the distinctness of live addresses. */
  lemma DecodeKeepsKeysDistinct(s: StackState, f: seq<byte>, length: nat)
    requires length <= |f| && 0 < |s.table|
    requires DistinctKeys(s.table)
    ensures DistinctKeys(TableAfter(s, f, length))
  {
    if length >= Arp.ARP_HEADER_SIZE {
      UpdateKeepsKeysDistinct(AsWritten, s.table, s.now, IpAt(f, Arp.ARP_IP_SRC), MacAt(f, Arp.ARP_MAC_SRC));
    }
  }

  // ---------- staying within memory ----------

  /**
   * A datagram delivered to a bound port that declares too much for `size` bytes: to be checksummed, or,
   * without a checksum, to be echoed; the 16-bit echo length wraps from 65502 up.
   */
  predicate Overlong(slots: seq<Udp.Slot>, f: seq<byte>, length: nat, size: nat)
    requires length <= |f|
  {
    && IsIp(f, length, IP_PROTOCOL_UDP) && Udp.Delivered(slots, f, length)
    && if NetworkWord(f, Udp.UDP_CHECKSUM) != 0 then Udp.ChecksumEnd(f) > size
       else size < Udp.UDP_SRC_PORT + NetworkWord(f, Udp.UDP_LENGTH) < 0x1_0000
  }

  /** The one frame on which `net_decode` does not return: a checksum to recompute over 65535 bytes. */
  predicate Endless(slots: seq<Udp.Slot>, f: seq<byte>, length: nat)
    requires length <= |f|
  {
    && IsIp(f, length, IP_PROTOCOL_UDP) && Udp.Delivered(slots, f, length)
    && NetworkWord(f, Udp.UDP_CHECKSUM) != 0 && NetworkWord(f, Udp.UDP_LENGTH) == 0xFFFF
  }

  /** Wherever a checksum is recomputed, its loop ends after some round exactly if the frame is not that one. */
  lemma EndlessNeverReturns(slots: seq<Udp.Slot>, f: seq<byte>, length: nat)
    requires length <= |f| && ReadEnd(slots, f, length) > 0
    ensures (exists rounds: nat :: CounterAfter(rounds) >= NetworkWord(f, Udp.UDP_LENGTH))
       <==> !Endless(slots, f, length)
  {
    WordLoopEnds(NetworkWord(f, Udp.UDP_LENGTH));
  }

  /** Room for every datagram whose checksum loop ends. */
  const MEMORY_SIZE := 65568

  lemma AcceptableUnlessEndless(slots: seq<Udp.Slot>, f: seq<byte>, length: nat)
    requires length <= |f| && MEMORY_SIZE <= |f|
    ensures Acceptable(slots, f, length) <==> !Endless(slots, f, length)
  {
  }

  /**
   * Exactly when decoding and answering a frame reads or sends beyond the first `size` bytes, the endless
   * one included. Every read but the checksum's lies within the received length, which is all that
   * `Stack.Decode` asks of the array.
   */
  lemma LeavesExactly(s: StackState, f: seq<byte>, length: nat, size: nat)
    requires length <= size && length <= |f| && 0 < |s.table|
    requires Acceptable(s.slots, f, length) || Endless(s.slots, f, length)
    ensures ReadEnd(s.slots, f, length) > size
         || (!Endless(s.slots, f, length) && Decoded(s, f, length).reply > size)
       <==> Overlong(s.slots, f, length, size)
  {
  }

  /** Nothing is written beyond the bytes that were received, whatever is read or sent. */
  lemma WritesWithinReceived(s: StackState, f: seq<byte>, length: nat)
    requires length <= |f| && 0 < |s.table| && Acceptable(s.slots, f, length)
    ensures Decoded(s, f, length).frame[length..] == f[length..]
  {
    if IsIp(f, length, IP_PROTOCOL_ICMP) && Icmp.IsEchoRequest(f, length) {
      RestStays(Icmp.EchoReply(f, s.host), f, Icmp.ICMP_HEADER_SIZE, length);
    } else {
      var r := Decoded(s, f, length).frame;
      if r != f {
        assert r[Udp.UDP_HEADER_SIZE..] == f[Udp.UDP_HEADER_SIZE..];
        RestStays(r, f, Udp.UDP_HEADER_SIZE, length);
      }
    }
  }

  lemma RestStays(r: seq<byte>, f: seq<byte>, n: nat, length: nat)
    requires |r| == |f| && n <= |f| && length <= |f| && r[n..] == f[n..]
    ensures n <= length ==> r[length..] == f[length..]
  {
    if n <= length {
      assert r[length..] == r[n..][length - n..] && f[length..] == f[n..][length - n..];
    }
  }

  /** Frames too short for an IP header leave only when a 16-bit echo length has wrapped. */
  lemma RuntsExactly(s: StackState, f: seq<byte>, length: nat)
    requires length <= |f| && 0 < |s.table| && Acceptable(s.slots, f, length)
    ensures 0 < Decoded(s, f, length).reply < IP_HEADER_SIZE
       <==> IsIp(f, length, IP_PROTOCOL_UDP) && Udp.Delivered(s.slots, f, length)
            && Udp.ChecksumPasses(f) && NetworkWord(f, Udp.UDP_LENGTH) > 65502
  {
  }

  /** A frame with a proper IP header for port 7 that declares so many bytes of datagram. */
  function Probe(declared: u16, checksum: u16): (f: seq<byte>)
    ensures |f| == Udp.UDP_HEADER_SIZE
  {
    SampleFrame(28, IP_PROTOCOL_UDP,
      [0xEB, 0xD4, 0, 7, declared / 0x100, declared % 0x100, checksum / 0x100, checksum % 0x100])
  }

  lemma ProbeFields(declared: u16, checksum: u16, f: seq<byte>, length: nat)
    requires Udp.UDP_HEADER_SIZE <= length <= |f| && f[..Udp.UDP_HEADER_SIZE] == Probe(declared, checksum)
    ensures IsIp(f, length, IP_PROTOCOL_UDP) && NetworkWord(f, Udp.UDP_DEST_PORT) == Udp.ECHO_PORT
    ensures NetworkWord(f, Udp.UDP_LENGTH) == declared && NetworkWord(f, Udp.UDP_CHECKSUM) == checksum
  {
    var g := Probe(declared, checksum);
    SampleIsProper(28, IP_PROTOCOL_UDP, g[IP_HEADER_SIZE..]);
    var payload: seq<byte> :=
      [0xEB, 0xD4, 0, 7, declared / 0x100, declared % 0x100, checksum / 0x100, checksum % 0x100];
    assert g[IP_HEADER_SIZE..] == payload;
    PayloadWord(g, payload, 2);
    PayloadWord(g, payload, 4);
    PayloadWord(g, payload, 6);
    assert forall i :: 0 <= i < Udp.UDP_HEADER_SIZE ==> f[i] == g[i];
  }

  /** A probe without a checksum is answered, whatever was received with it. */
  lemma ProbeIsAnswered(s: StackState, declared: u16, memory: seq<byte>, length: nat)
    requires Udp.UDP_HEADER_SIZE <= length <= |memory| && memory[..Udp.UDP_HEADER_SIZE] == Probe(declared, 0)
    requires 0 < |s.table| && Udp.BindingOf(s.slots, Udp.ECHO_PORT) < |s.slots|
    ensures Acceptable(s.slots, memory, length)
    ensures Decoded(s, memory, length).reply == ToU16(34 + declared)
  {
    ProbeFields(declared, 0, memory, length);
  }

  /** Of 1000 bytes declared in a frame that brings 42 to 500, the echo sends 1034. */
  lemma EchoOverrunsBuffer(s: StackState, memory: seq<byte>, length: nat)
    requires Udp.UDP_HEADER_SIZE <= length <= 500 && 1034 <= |memory|
    requires memory[..Udp.UDP_HEADER_SIZE] == Probe(1000, 0)
    requires 0 < |s.table| && Udp.BindingOf(s.slots, Udp.ECHO_PORT) < |s.slots|
    ensures Acceptable(s.slots, memory, length) && Overlong(s.slots, memory, length, 500)
    ensures Decoded(s, memory, length).reply == 1034
  {
    ProbeFields(1000, 0, memory, length);
    ProbeIsAnswered(s, 1000, memory, length);
  }

  /** With a checksum to recompute, as many are read. */
  lemma ChecksumOverrunsBuffer(s: StackState, memory: seq<byte>, length: nat)
    requires Udp.UDP_HEADER_SIZE <= length <= 500 && 1034 <= |memory|
    requires memory[..Udp.UDP_HEADER_SIZE] == Probe(1000, 1)
    requires 0 < |s.table| && Udp.BindingOf(s.slots, Udp.ECHO_PORT) < |s.slots|
    ensures Acceptable(s.slots, memory, length) && Overlong(s.slots, memory, length, 500)
    ensures ReadEnd(s.slots, memory, length) == 1034
  {
    ProbeFields(1000, 1, memory, length);
  }

  /** Of 65504 bytes declared the echo sends two. */
  lemma EchoSendsRunt(s: StackState, memory: seq<byte>, length: nat)
    requires Udp.UDP_HEADER_SIZE <= length <= |memory| && memory[..Udp.UDP_HEADER_SIZE] == Probe(65504, 0)
    requires 0 < |s.table| && Udp.BindingOf(s.slots, Udp.ECHO_PORT) < |s.slots|
    ensures Acceptable(s.slots, memory, length) && Decoded(s, memory, length).reply == 2
  {
    ProbeIsAnswered(s, 65504, memory, length);
  }

  // ---------- the ARP exchange between two hosts ----------

  /** The fields of the request a receiver reads, from the first 42 bytes it got. */
  lemma RequestFields(f: seq<byte>, host: HostConfig, hop: Ip, g: seq<byte>)
    requires |f| >= Arp.ARP_HEADER_SIZE && |g| >= Arp.ARP_HEADER_SIZE
    requires g[..Arp.ARP_HEADER_SIZE] == Arp.ArpRequest(f, host, hop)[..Arp.ARP_HEADER_SIZE]
    ensures NetworkWord(g, MAC_TYPE) == MAC_TYPE_ARP && NetworkWord(g, Arp.ARP_OPCODE) == Arp.ARP_OPCODE_REQUEST
    ensures MacAt(g, Arp.ARP_MAC_SRC) == host.mac
    ensures IpAt(g, Arp.ARP_IP_SRC) == host.ip && IpAt(g, Arp.ARP_IP_DEST) == hop
  {
    var q := Arp.ArpRequest(f, host, hop)[..Arp.ARP_HEADER_SIZE];
    assert q == BROADCAST_MAC + host.mac + [0x08, 0x06] + [0, 1, 0x08, 0x00, 6, 4, 0, 1]
              + host.mac + host.ip + NO_MAC + hop;
    PrefixFields(g);
    assert q[MAC_TYPE..MAC_TYPE + 2] == [0x08, 0x06] && q[Arp.ARP_OPCODE..Arp.ARP_OPCODE + 2] == [0, 1];
    assert q[MAC_TYPE] == 0x08 && q[MAC_TYPE + 1] == 0x06 && q[Arp.ARP_OPCODE] == 0 && q[Arp.ARP_OPCODE + 1] == 1;
    assert q[Arp.ARP_MAC_SRC..Arp.ARP_MAC_SRC + 6] == host.mac && q[Arp.ARP_IP_SRC..Arp.ARP_IP_SRC + 4] == host.ip;
    assert q[Arp.ARP_IP_DEST..Arp.ARP_IP_DEST + 4] == hop;
  }

  /** Header fields depend only on the first 42 bytes. */
  lemma PrefixFields(g: seq<byte>)
    requires |g| >= Arp.ARP_HEADER_SIZE
    ensures var q := g[..Arp.ARP_HEADER_SIZE];
            && NetworkWord(g, MAC_TYPE) == NetworkWord(q, MAC_TYPE)
            && NetworkWord(g, Arp.ARP_OPCODE) == NetworkWord(q, Arp.ARP_OPCODE)
            && MacAt(g, Arp.ARP_MAC_SRC) == MacAt(q, Arp.ARP_MAC_SRC)
            && IpAt(g, Arp.ARP_IP_SRC) == IpAt(q, Arp.ARP_IP_SRC)
            && IpAt(g, Arp.ARP_IP_DEST) == IpAt(q, Arp.ARP_IP_DEST)
  {
  }

  lemma ReplyFields(f: seq<byte>, host: HostConfig, g: seq<byte>)
    requires |f| >= Arp.ARP_HEADER_SIZE && |g| >= Arp.ARP_HEADER_SIZE
    requires NetworkWord(f, MAC_TYPE) == MAC_TYPE_ARP
    requires g[..Arp.ARP_HEADER_SIZE] == Arp.ArpReply(f, host)[..Arp.ARP_HEADER_SIZE]
    ensures NetworkWord(g, MAC_TYPE) == MAC_TYPE_ARP && NetworkWord(g, Arp.ARP_OPCODE) == Arp.ARP_OPCODE_REPLY
    ensures MacAt(g, Arp.ARP_MAC_SRC) == host.mac && IpAt(g, Arp.ARP_IP_SRC) == host.ip
    ensures IpAt(g, Arp.ARP_IP_DEST) == IpAt(f, Arp.ARP_IP_SRC)
  {
    var r := Arp.ArpReply(f, host)[..Arp.ARP_HEADER_SIZE];
    var middle := f[MAC_TYPE..Arp.ARP_OPCODE];
    assert r == MacAt(f, Arp.ARP_MAC_SRC) + host.mac + middle + [0, 2]
              + host.mac + host.ip + MacAt(f, Arp.ARP_MAC_SRC) + IpAt(f, Arp.ARP_IP_SRC);
    PrefixFields(g);
    assert middle[0] == f[MAC_TYPE] && middle[1] == f[MAC_TYPE + 1];
    assert r[MAC_TYPE] == middle[0] && r[MAC_TYPE + 1] == middle[1];
    assert r[Arp.ARP_OPCODE..Arp.ARP_OPCODE + 2] == [0, 2];
    assert r[Arp.ARP_OPCODE] == 0 && r[Arp.ARP_OPCODE + 1] == 2;
    assert r[Arp.ARP_MAC_SRC..Arp.ARP_MAC_SRC + 6] == host.mac && r[Arp.ARP_IP_SRC..Arp.ARP_IP_SRC + 4] == host.ip;
    assert r[Arp.ARP_IP_DEST..Arp.ARP_IP_DEST + 4] == IpAt(f, Arp.ARP_IP_SRC);
  }

  /** A receiver's buffer once the 42 bytes of an ARP frame have arrived at its front. */
  function Arrived(sent: seq<byte>, buffer: seq<byte>): (r: seq<byte>)
    requires |sent| >= Arp.ARP_HEADER_SIZE && |buffer| >= Arp.ARP_HEADER_SIZE
    ensures |r| == |buffer| && r[..Arp.ARP_HEADER_SIZE] == sent[..Arp.ARP_HEADER_SIZE]
  {
    sent[..Arp.ARP_HEADER_SIZE] + buffer[Arp.ARP_HEADER_SIZE..]
  }

  /** What `net_decode` makes of a delivered frame; an ARP frame is always acceptable to it. */
  function Answered(s: StackState, sent: seq<byte>, buffer: seq<byte>): (r: Arp.ArpOutcome)
    requires |sent| >= Arp.ARP_HEADER_SIZE && |buffer| >= Arp.ARP_HEADER_SIZE && 0 < |s.table|
    ensures |r.table| == |s.table| && |r.frame| >= Arp.ARP_HEADER_SIZE
  {
    var f := Arrived(sent, buffer);
    if Acceptable(s.slots, f, Arp.ARP_HEADER_SIZE) then Decoded(s, f, Arp.ARP_HEADER_SIZE)
    else Arp.ArpOutcome(s.table, f, 0)
  }

  /** The packet goes to one neighbour, `neighbour`, directly or as the router. */
  predicate HandedTo(host: HostConfig, packet: seq<byte>, neighbour: Ip)
  {
    && |packet| >= Arp.ARP_HEADER_SIZE
    && IpAt(packet, IP_DEST) != BROADCAST_IP && NextHop(host, IpAt(packet, IP_DEST)) == neighbour
  }

  /**
   * Request and answer. `a` misses for its next hop, which is `b`; the request reaches `b` in some
   * buffer, and the answer reaches `a`, whose table may have changed meanwhile (`later`). Whatever
   * either table held, both hosts then map each other, and every packet of `a` with that next hop
   * is sent to `b`'s hardware address.
   */
  lemma Handshake(a: StackState, b: StackState, later: StackState, packet: seq<byte>, length: nat,
                  bufferB: seq<byte>, bufferA: seq<byte>)
    requires HandedTo(a.host, packet, b.host.ip) && SlotOf(a.table, b.host.ip) == |a.table|
    requires !IsEmpty(a.host.ip) && !IsEmpty(b.host.ip)
    requires 0 < |b.table| && 0 < |later.table| && later.host == a.host
    requires |bufferB| >= Arp.ARP_HEADER_SIZE && |bufferA| >= Arp.ARP_HEADER_SIZE
    ensures var (request, size) := Arp.Encoded(a.host, a.table, packet, length);
            var atB := Answered(b, request, bufferB);
            var atA := Answered(later, atB.frame, bufferA);
            && size == Arp.ARP_HEADER_SIZE && atB.reply == Arp.ARP_HEADER_SIZE && atA.reply == 0
            && Lookup(atB.table, a.host.ip) == Some(a.host.mac)
            && Lookup(atA.table, b.host.ip) == Some(b.host.mac)
            && forall p: seq<byte>, n: nat :: HandedTo(a.host, p, b.host.ip)
                 ==> Arp.Encoded(a.host, atA.table, p, n) == (Arp.Addressed(p, a.host, b.host.mac), n)
  {
    var request := Arp.Encoded(a.host, a.table, packet, length).0;
    var atB := Answered(b, request, bufferB);
    RequestFields(packet, a.host, b.host.ip, Arrived(request, bufferB));
    LearnedIsFound(AsWritten, b.table, b.now, a.host.ip, a.host.mac);
    ReplyFields(Arrived(request, bufferB), b.host, Arrived(atB.frame, bufferA));
    LearnedIsFound(AsWritten, later.table, later.now, b.host.ip, b.host.mac);
  }

  // ---------- echo services, end to end ----------

  /**
   * An echo request addressed to the host, with a verifying IP header, is answered with 98 bytes. They hold
   * the datagram they declare for an IP length of at most 84, and are the reply of RFC 792 exactly when the
   * request is repliable: at 84, and below it if the bytes after the datagram are harmless.
   */
  lemma PingIsAnswered(s: StackState, f: seq<byte>, length: nat)
    requires Icmp.ICMP_HEADER_SIZE <= length <= |f| && 0 < |s.table|
    requires IsIp(f, length, IP_PROTOCOL_ICMP) && Icmp.IsEchoRequest(f, length)
    requires f[MAC_HEADER_SIZE] == 0x45 && HeaderVerifies(f) && IpAt(f, IP_DEST) == s.host.ip
    ensures var r := Decoded(s, f, length);
            && r.reply == 98 && r.table == s.table
            && Icmp.Answers(r.frame, f, s.host, Icmp.ICMP_HEADER_SIZE)
            && var sent := r.frame[..r.reply];
               && (Icmp.DeclaredEnd(sent) <= |sent| <==> NetworkWord(f, IP_LENGTH) <= 84)
               && (Icmp.IsEchoReplyTo(sent, f, s.host) <==> Icmp.Repliable(f))
               && (NetworkWord(f, IP_LENGTH) == 84 ==> Icmp.Repliable(f))
  {
    Icmp.EchoReplyIsValid(f, s.host);
    Icmp.ReplyIsExact(f, s.host);
  }

  /** A datagram for the echo port that passes the checksum test comes back, and passes it again. */
  lemma DatagramIsEchoed(s: StackState, f: seq<byte>, length: nat)
    requires Udp.UDP_HEADER_SIZE <= length <= |f| && 0 < |s.table|
    requires IsIp(f, length, IP_PROTOCOL_UDP) && Udp.Checkable(f)
    requires NetworkWord(f, Udp.UDP_DEST_PORT) == Udp.ECHO_PORT
    requires Udp.BindingOf(s.slots, Udp.ECHO_PORT) < |s.slots|
    requires Udp.ChecksumPasses(f)
    requires f[MAC_HEADER_SIZE] == 0x45 && HeaderVerifies(f) && IpAt(f, IP_DEST) == s.host.ip
    requires NetworkWord(f, IP_LENGTH) == NetworkWord(f, Udp.UDP_LENGTH) + 20
    requires MAC_HEADER_SIZE + NetworkWord(f, IP_LENGTH) <= length <= 0xFFFF
    ensures var r := Decoded(s, f, length);
            && r.reply == MAC_HEADER_SIZE + NetworkWord(f, IP_LENGTH) && r.table == s.table
            && Udp.IsEchoOf(r.frame, f, s.host)
            && Udp.Checkable(r.frame) && Udp.ChecksumPasses(r.frame)
  {
    Udp.EchoIsFaithful(f, s.host);
    var r := Decoded(s, f, length).frame;
    assert r[Udp.UDP_LENGTH..Udp.UDP_CHECKSUM][0] == f[Udp.UDP_LENGTH..Udp.UDP_CHECKSUM][0];
    assert r[Udp.UDP_LENGTH..Udp.UDP_CHECKSUM][1] == f[Udp.UDP_LENGTH..Udp.UDP_CHECKSUM][1];
    assert r[Udp.UDP_CHECKSUM..Udp.UDP_HEADER_SIZE][0] == 0;
    assert r[Udp.UDP_CHECKSUM..Udp.UDP_HEADER_SIZE][1] == 0;
  }

  /** What the checksum test asks of a datagram that is valid as RFC 768 has it. */
  ghost predicate PassesIfValid(f: seq<byte>)
    requires Udp.Readable(f) && Udp.WellFormed(f)
  {
    var src, dst, cleared := IpAt(f, IP_SRC), IpAt(f, IP_DEST), Cleared(Udp.Segment(f), 6);
    if NetworkWord(f, Udp.UDP_CHECKSUM) == 0xFFFF then
      CoveredSum(IP_PROTOCOL_UDP, src, dst, cleared, Udp.NextByte(f))
      == 0x1_0000 * Lost(IP_PROTOCOL_UDP, src, dst, |cleared|)
    else Exact(IP_PROTOCOL_UDP, src, dst, cleared, Udp.NextByte(f))
  }

  /** A datagram valid under RFC 768 is echoed exactly when its checksum is computed exactly; else it is dropped. */
  lemma ValidDatagramIsEchoed(s: StackState, f: seq<byte>, length: nat)
    requires Udp.UDP_HEADER_SIZE <= length <= |f| && 0 < |s.table| && length <= 0xFFFF
    requires IsIp(f, length, IP_PROTOCOL_UDP) && Udp.IsProperDatagram(f) && IpAt(f, IP_DEST) == s.host.ip
    requires NetworkWord(f, Udp.UDP_DEST_PORT) == Udp.ECHO_PORT
    requires Udp.BindingOf(s.slots, Udp.ECHO_PORT) < |s.slots|
    requires MAC_HEADER_SIZE + NetworkWord(f, IP_LENGTH) <= length
    ensures var r := Decoded(s, f, length);
            && (r.reply == MAC_HEADER_SIZE + NetworkWord(f, IP_LENGTH) && Udp.IsEchoOf(r.frame, f, s.host)
                <==> PassesIfValid(f))
            && (!PassesIfValid(f) ==> r.reply == 0)
  {
    if NetworkWord(f, Udp.UDP_CHECKSUM) == 0xFFFF {
      Udp.DropsComputedZero(f);
    } else {
      Udp.AcceptsValidDatagrams(f);
    }
    if Udp.ChecksumPasses(f) {
      DatagramIsEchoed(s, f, length);
    }
  }

  /** One that is invalid under RFC 768 is not answered where its checksum is computed exactly. */
  lemma InvalidDatagramIsDropped(s: StackState, f: seq<byte>, length: nat)
    requires Udp.UDP_HEADER_SIZE <= length <= |f| && 0 < |s.table| && IsIp(f, length, 17)
    requires Udp.Readable(f) && Udp.WellFormed(f) && 0 < NetworkWord(f, Udp.UDP_CHECKSUM) < 0xFFFF
    requires var src, dst, segment := IpAt(f, IP_SRC), IpAt(f, IP_DEST), Udp.Segment(f);
             Exact(17, src, dst, Cleared(segment, 6), Udp.NextByte(f)) && !Verifies(17, src, dst, segment)
    ensures Decoded(s, f, length).reply == 0
  {
    Udp.AcceptsValidDatagrams(f);
  }

  // ---------- an echo answered by an echo ----------

  /** The parts of an echo that decide what a peer makes of it. */
  lemma EchoFields(f: seq<byte>, host: HostConfig)
    requires |f| >= Udp.UDP_HEADER_SIZE
    ensures var r := Udp.EchoReply(Udp.WithoutChecksum(f), host);
            && NetworkWord(r, MAC_TYPE) == NetworkWord(f, MAC_TYPE) && r[IP_PROTOCOL] == f[IP_PROTOCOL]
            && NetworkWord(r, Udp.UDP_SRC_PORT) == Udp.ECHO_PORT
            && NetworkWord(r, Udp.UDP_DEST_PORT) == NetworkWord(f, Udp.UDP_SRC_PORT)
            && NetworkWord(r, Udp.UDP_LENGTH) == NetworkWord(f, Udp.UDP_LENGTH)
            && NetworkWord(r, Udp.UDP_CHECKSUM) == 0
            && r[Udp.UDP_HEADER_SIZE..] == f[Udp.UDP_HEADER_SIZE..]
  {
    var g := Udp.WithoutChecksum(f);
    var r := Udp.EchoReply(g, host);
    var kept := f[MAC_TYPE..IP_SRC];
    assert g[MAC_TYPE..IP_SRC] == kept && g[..Udp.UDP_CHECKSUM] == f[..Udp.UDP_CHECKSUM];
    assert Turned(g, host)[MAC_TYPE..IP_SRC] == kept;
    assert r[MAC_TYPE..IP_SRC] == kept;
    assert r[MAC_TYPE] == kept[0] && r[MAC_TYPE + 1] == kept[1] && r[IP_PROTOCOL] == kept[11];
    var tail := [0, 7] + g[Udp.UDP_SRC_PORT..Udp.UDP_DEST_PORT] + g[Udp.UDP_LENGTH..];
    assert r[IP_HEADER_SIZE..] == tail;
    assert forall i :: 0 <= i < |tail| ==> r[IP_HEADER_SIZE + i] == tail[i];
    assert forall i :: 0 <= i < Udp.UDP_CHECKSUM ==> g[i] == g[..Udp.UDP_CHECKSUM][i] == f[i];
    assert tail[0] == 0 && tail[1] == 7 && tail[2] == f[Udp.UDP_SRC_PORT] && tail[3] == f[Udp.UDP_SRC_PORT + 1];
    assert tail[4] == f[Udp.UDP_LENGTH] && tail[5] == f[Udp.UDP_LENGTH + 1] && tail[6] == 0 && tail[7] == 0;
    assert r[Udp.UDP_HEADER_SIZE..] == tail[8..] == g[Udp.UDP_HEADER_SIZE..] == f[Udp.UDP_HEADER_SIZE..];
  }

  /** A datagram that host `s` echoes, with nothing in the frame but the datagram. */
  ghost predicate IsEchoed(s: StackState, f: seq<byte>)
  {
    && Udp.UDP_HEADER_SIZE <= |f| <= 0xFFFF && |f| == Udp.UDP_SRC_PORT + NetworkWord(f, Udp.UDP_LENGTH)
    && IsIp(f, |f|, IP_PROTOCOL_UDP) && Udp.Delivered(s.slots, f, |f|)
    && (NetworkWord(f, Udp.UDP_CHECKSUM) != 0 ==> Udp.Readable(f)) && Udp.ChecksumPasses(f)
  }

  /**
   * An echo that reaches a peer running this code is echoed back exactly if the peer has bound the source
   * port of the first datagram: neither addresses nor a checksum stand in the way.
   */
  lemma EchoIsEchoedExactly(a: StackState, b: StackState, f: seq<byte>)
    requires 0 < |a.table| && 0 < |b.table| && IsEchoed(a, f)
    ensures var r := Decoded(a, f, |f|);
            && r.reply == |f| && NetworkWord(r.frame, Udp.UDP_SRC_PORT) == Udp.ECHO_PORT
            && r.frame[Udp.UDP_HEADER_SIZE..] == f[Udp.UDP_HEADER_SIZE..]
            && Acceptable(b.slots, r.frame, |f|)
            && (IsEchoed(b, r.frame) <==> Udp.BindingOf(b.slots, NetworkWord(f, Udp.UDP_SRC_PORT)) < |b.slots|)
            && Decoded(b, r.frame, |f|).reply == if IsEchoed(b, r.frame) then |f| else 0
  {
    EchoFields(f, a.host);
  }

  /** What a host sends on a frame that fills its buffer; nothing, if it would have to send more than came. */
  function AnswerTo(s: StackState, f: seq<byte>): (r: seq<byte>)
    requires 0 < |s.table|
  {
    if !Acceptable(s.slots, f, |f|) then []
    else var out := Decoded(s, f, |f|); if out.reply <= |f| then out.frame[..out.reply] else []
  }

  lemma EchoIsAnswered(a: StackState, b: StackState, f: seq<byte>)
    requires 0 < |a.table| && 0 < |b.table| && IsEchoed(a, f)
    ensures var r := AnswerTo(a, f);
            && |r| == |f| && r[Udp.UDP_HEADER_SIZE..] == f[Udp.UDP_HEADER_SIZE..]
            && NetworkWord(r, Udp.UDP_SRC_PORT) == Udp.ECHO_PORT
            && (IsEchoed(b, r) <==> Udp.BindingOf(b.slots, NetworkWord(f, Udp.UDP_SRC_PORT)) < |b.slots|)
            && (!IsEchoed(b, r) ==> AnswerTo(b, r) == [])
  {
    EchoIsEchoedExactly(a, b, f);
    var g := Decoded(a, f, |f|).frame;
    assert g[..|f|] == g;
    assert Decoded(b, g, |f|).frame[..0] == [];
  }

  /** The hosts take turns, the first of them on the frames of even number. */
  function HostAt(a: StackState, b: StackState, i: nat): (s: StackState)
  {
    if i % 2 == 0 then a else b
  }

  /** Each frame is what the host whose turn it is sends on the one before. */
  ghost predicate IsVolley(a: StackState, b: StackState, frames: seq<seq<byte>>)
  {
    && 0 < |a.table| && 0 < |b.table| && frames != []
    && forall i {:trigger AnswerTo(HostAt(a, b, i), frames[i])} :: 0 <= i < |frames| - 1 ==>
         frames[i + 1] == AnswerTo(HostAt(a, b, i), frames[i])
  }

  predicate BindsEcho(s: StackState)
  {
    Udp.BindingOf(s.slots, Udp.ECHO_PORT) < |s.slots|
  }

  ghost predicate BindsEchoAlone(s: StackState)
  {
    forall port: u16 :: Udp.BindingOf(s.slots, port) < |s.slots| <==> port == Udp.ECHO_PORT
  }

  /** From port 7 to port 7 the same data goes to and fro for ever. */
  lemma {:induction false} EchoesGoOn(a: StackState, b: StackState, frames: seq<seq<byte>>, n: nat)
    requires IsVolley(a, b, frames) && BindsEcho(a) && BindsEcho(b) && n < |frames|
    requires IsEchoed(a, frames[0]) && NetworkWord(frames[0], Udp.UDP_SRC_PORT) == Udp.ECHO_PORT
    ensures IsEchoed(HostAt(a, b, n), frames[n]) && NetworkWord(frames[n], Udp.UDP_SRC_PORT) == Udp.ECHO_PORT
    ensures |frames[n]| == |frames[0]| && frames[n][Udp.UDP_HEADER_SIZE..] == frames[0][Udp.UDP_HEADER_SIZE..]
  {
    if n > 0 {
      EchoesGoOn(a, b, frames, n - 1);
      EchoIsAnswered(HostAt(a, b, n - 1), HostAt(a, b, n), frames[n - 1]);
    }
  }

  lemma {:induction false} SilenceStays(a: StackState, b: StackState, frames: seq<seq<byte>>, i: nat, n: nat)
    requires IsVolley(a, b, frames) && i <= n < |frames| && frames[i] == []
    ensures frames[n] == []
  {
    if i < n {
      SilenceStays(a, b, frames, i, n - 1);
      assert frames[n] == AnswerTo(HostAt(a, b, n - 1), frames[n - 1]);
    }
  }

  /** Two hosts with the echo service alone answer each other without end exactly if the source port is 7. */
  lemma EchoNeverStopsExactly(a: StackState, b: StackState, frames: seq<seq<byte>>, n: nat)
    requires IsVolley(a, b, frames) && BindsEchoAlone(a) && BindsEchoAlone(b) && IsEchoed(a, frames[0])
    requires 2 <= n < |frames|
    ensures frames[n] != [] <==> NetworkWord(frames[0], Udp.UDP_SRC_PORT) == Udp.ECHO_PORT
  {
    if NetworkWord(frames[0], Udp.UDP_SRC_PORT) == Udp.ECHO_PORT {
      EchoesGoOn(a, b, frames, n);
    } else {
      EchoIsAnswered(a, b, frames[0]);
      assert frames[1] == AnswerTo(HostAt(a, b, 0), frames[0]);
      assert frames[2] == AnswerTo(HostAt(a, b, 1), frames[1]);
      SilenceStays(a, b, frames, 2, n);
    }
  }
}
