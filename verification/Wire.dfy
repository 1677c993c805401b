/**
 * What a host sends in answer to what it receives, told on bytes alone: offsets and values as RFC 826, 791,
 * 792 and 768 lay them out, apart from the functions that follow the code.
 */
module Wire {
  import opened Addresses
  import opened ArpTable
  import opened Checksum
  import opened Frame
  import opened IpReply
  import opened Machine
  import opened OnesComplement
  import Arp = ArpProtocol
  import Icmp
  import Net
  import Udp

  // ---------- what is received ----------

  /** An ARP request for an address. */
  predicate AsksFor(c: seq<byte>, ip: Ip)
  {
    |c| >= 42 && c[12..14] == [0x08, 0x06] && c[20..22] == [0, 1] && c[38..42] == ip
  }

  /** An ARP request for an address, or a reply to it: its sender is learned. */
  predicate Introduces(c: seq<byte>, ip: Ip)
  {
    |c| >= 42 && c[12..14] == [0x08, 0x06] && (c[20..22] == [0, 1] || c[20..22] == [0, 2]) && c[38..42] == ip
  }

  /** An echo request that fills the 98-byte structure. */
  predicate AsksForEcho(c: seq<byte>)
  {
    |c| >= 98 && c[12..14] == [0x08, 0x00] && c[23] == 1 && c[34] == 8 && c[35] == 0
  }

  predicate IsBound(slots: seq<Udp.Slot>, port: int)
  {
    exists i :: 0 <= i < |slots| && slots[i].Bound? && slots[i].port == port
  }

  /** A UDP datagram for a bound port. */
  predicate BringsDatagram(slots: seq<Udp.Slot>, c: seq<byte>)
  {
    |c| >= 42 && c[12..14] == [0x08, 0x00] && c[23] == 17 && IsBound(slots, NetworkWord(c, 36))
  }

  /** The length a UDP header declares. */
  function Declared(c: seq<byte>): (n: u16)
    requires |c| >= 42
  {
    NetworkWord(c, 38)
  }

  /** If a datagram for a bound port is received, then all of it. */
  predicate Contained(slots: seq<Udp.Slot>, c: seq<byte>)
  {
    BringsDatagram(slots, c) ==> 34 + Declared(c) <= |c|
  }

  // ---------- what is sent ----------

  function ArpAnswer(c: seq<byte>, host: HostConfig): (r: seq<byte>)
    requires |c| >= 42
    ensures |r| == 42
  {
    c[22..28] + host.mac + c[12..20] + [0, 2] + host.mac + host.ip + c[22..28] + c[28..32]
  }

  /** The IP header returned to its sender. */
  function Returned(c: seq<byte>, host: HostConfig): (r: seq<byte>)
    requires |c| >= 34
    ensures |r| == 34
  {
    c[6..12] + host.mac + c[12..26] + host.ip + c[26..30]
  }

  function EchoAnswer(c: seq<byte>, host: HostConfig): (r: seq<byte>)
    requires |c| >= 98
    ensures |r| == 98
  {
    var checksum := RfcChecksum([0, 0, 0, 0] + c[38..98]);
    Returned(c, host) + [0, 0, checksum / 0x100, checksum % 0x100] + c[38..98]
  }

  /** Ports: 7 to where the datagram came from; no checksum; everything else that followed as it came. */
  function DatagramTurned(c: seq<byte>, host: HostConfig): (r: seq<byte>)
    requires |c| >= 42
    ensures |r| == |c|
  {
    Returned(c, host) + [0, 7] + c[34..36] + c[38..40] + [0, 0] + c[42..]
  }

  /** The checksum test on a datagram that the driver's terminator follows. */
  predicate Passes(c: seq<byte>)
    requires |c| >= 42
  {
    Udp.Checkable(c + [0]) && Udp.ChecksumPasses(c + [0])
  }

  /** The frame sent in answer, if any. */
  function Answer(host: HostConfig, slots: seq<Udp.Slot>, c: seq<byte>): (r: seq<byte>)
  {
    if AsksFor(c, host.ip) then ArpAnswer(c, host)
    else if AsksForEcho(c) then EchoAnswer(c, host)
    else if BringsDatagram(slots, c) && 34 + Declared(c) <= |c| && Passes(c) then
      DatagramTurned(c, host)[..34 + Declared(c)]
    else []
  }

  // ---------- the code, frame by frame ----------

  lemma TypeOnBytes(f: seq<byte>)
    requires |f| >= 14
    ensures f[12..14] == [0x08, 0x06] <==> NetworkWord(f, MAC_TYPE) == 0x0806
    ensures f[12..14] == [0x08, 0x00] <==> NetworkWord(f, MAC_TYPE) == 0x0800
  {
    var t := f[12..14];
    assert t == [t[0], t[1]];
  }

  lemma OpcodeOnBytes(f: seq<byte>)
    requires |f| >= 42
    ensures f[20..22] == [0, 1] <==> NetworkWord(f, Arp.ARP_OPCODE) == 1
    ensures f[20..22] == [0, 2] <==> NetworkWord(f, Arp.ARP_OPCODE) == 2
  {
    var t := f[20..22];
    assert t == [t[0], t[1]];
  }

  /**
   * Exactly the ARP requests for the host's address are answered, with 42 bytes; on any other ARP frame
   * the buffer stays as it is.
   */
  lemma ArpOnBytes(s: Net.StackState, f: seq<byte>, length: nat)
    requires 14 <= length <= |f| && 0 < |s.table| && f[12..14] == [0x08, 0x06]
    ensures Net.Acceptable(s.slots, f, length)
    ensures var r := Net.Decoded(s, f, length);
            && (r.reply != 0 <==> length >= 42 && f[20..22] == [0, 1] && f[38..42] == s.host.ip)
            && r.reply == (if AsksFor(f[..length], s.host.ip) then 42 else 0)
            && r.frame == if AsksFor(f[..length], s.host.ip) then ArpAnswer(f, s.host) + f[42..] else f
  {
    TypeOnBytes(f);
    if length >= 42 {
      OpcodeOnBytes(f);
      var c := f[..length];
      assert c[12..14] == f[12..14] && c[20..22] == f[20..22] && c[38..42] == f[38..42];
      assert Arp.ArpReply(f, s.host) == ArpAnswer(f, s.host) + f[42..];
    }
  }

  /** Of ICMP, exactly the echo requests of 98 bytes or more are answered, with 98; else the buffer stays as it is. */
  lemma EchoOnBytes(s: Net.StackState, f: seq<byte>, length: nat)
    requires 34 <= length <= |f| && 0 < |s.table| && f[12..14] == [0x08, 0x00] && f[23] == 1
    ensures Net.Acceptable(s.slots, f, length)
    ensures var r := Net.Decoded(s, f, length);
            && (r.reply != 0 <==> length >= 98 && f[34] == 8 && f[35] == 0)
            && r.reply == (if AsksForEcho(f[..length]) then 98 else 0) && r.table == s.table
            && r.frame == if AsksForEcho(f[..length]) then EchoAnswer(f, s.host) + f[98..] else f
  {
    TypeOnBytes(f);
    var c := f[..length];
    assert c[12..14] == f[12..14];
    if length >= 98 {
      EchoReplyOnBytes(f, s.host);
    }
  }

  lemma EchoReplyOnBytes(f: seq<byte>, host: HostConfig)
    requires |f| >= 98
    ensures Icmp.EchoReply(f, host) == EchoAnswer(f, host) + f[98..]
  {
    TurnedOnBytes(f, host);
    assert Icmp.Message(f, 0) == [0, 0, 0, 0] + f[38..98];
  }

  lemma TurnedOnBytes(f: seq<byte>, host: HostConfig)
    requires |f| >= 34
    ensures Turned(f, host) == Returned(f, host) + f[34..]
  {
    assert Turned(f, host)[..34] == Returned(f, host);
  }

  lemma BoundExactly(slots: seq<Udp.Slot>, port: u16)
    ensures Udp.BindingOf(slots, port) < |slots| <==> IsBound(slots, port)
  {
  }

  /** A datagram for a bound port is echoed if it passes the checksum test, and its length is sent as 16 bits. */
  lemma DatagramOnBytes(s: Net.StackState, f: seq<byte>, length: nat)
    requires 42 <= length <= |f| && 0 < |s.table| && f[12..14] == [0x08, 0x00] && f[23] == 17
    requires IsBound(s.slots, NetworkWord(f, 36)) && Net.Acceptable(s.slots, f, length)
    ensures Udp.Checkable(f)
    ensures Net.Decoded(s, f, length)
         == if Udp.ChecksumPasses(f) then
              Arp.ArpOutcome(s.table, DatagramTurned(f, s.host), (34 + Declared(f)) % 0x1_0000)
            else Arp.ArpOutcome(s.table, f[..40] + [0, 0] + f[42..], 0)
  {
    DatagramIsDelivered(s, f, length);
    EchoedOnBytes(f, s.host);
  }

  lemma DatagramIsDelivered(s: Net.StackState, f: seq<byte>, length: nat)
    requires 42 <= length <= |f| && 0 < |s.table| && f[12..14] == [0x08, 0x00] && f[23] == 17
    requires IsBound(s.slots, NetworkWord(f, 36)) && Net.Acceptable(s.slots, f, length)
    ensures Udp.Checkable(f)
    ensures Net.Decoded(s, f, length)
         == if Udp.ChecksumPasses(f) then
              Arp.ArpOutcome(s.table, Udp.EchoReply(Udp.WithoutChecksum(f), s.host), Udp.EchoLength(f))
            else Arp.ArpOutcome(s.table, Udp.WithoutChecksum(f), 0)
  {
    TypeOnBytes(f);
    BoundExactly(s.slots, NetworkWord(f, 36));
  }

  lemma EchoedOnBytes(f: seq<byte>, host: HostConfig)
    requires |f| >= 42
    ensures Udp.EchoReply(Udp.WithoutChecksum(f), host) == DatagramTurned(f, host)
    ensures Udp.EchoLength(f) == (34 + Declared(f)) % 0x1_0000
    ensures Udp.WithoutChecksum(f) == f[..40] + [0, 0] + f[42..]
  {
    var g := Udp.WithoutChecksum(f);
    assert g == f[..40] + [0, 0] + f[42..];
    TurnedOnBytes(g, host);
    SameReturned(g, f[..40], host);
    SameReturned(f, f[..40], host);
    SameSlice(g, f[..40], 34, 36);
    SameSlice(f, f[..40], 34, 36);
    assert g[38..] == f[38..40] + [0, 0] + f[42..];
  }

  /** No other frame is answered or changed: too short, of another type or protocol, or for an unbound port. */
  lemma OthersUnanswered(s: Net.StackState, f: seq<byte>, length: nat)
    requires length <= |f| && 0 < |s.table|
    requires var c := f[..length]; !AsksFor(c, s.host.ip) && !AsksForEcho(c) && !BringsDatagram(s.slots, c)
    ensures Net.Acceptable(s.slots, f, length)
    ensures Net.Decoded(s, f, length).reply == 0 && Net.Decoded(s, f, length).frame == f
  {
    var c := f[..length];
    if length >= 14 {
      TypeOnBytes(f);
      assert c[12..14] == f[12..14];
      if f[12..14] == [0x08, 0x06] {
        ArpOnBytes(s, f, length);
      } else if length >= 42 {
        BoundExactly(s.slots, NetworkWord(f, Udp.UDP_DEST_PORT));
      }
    }
  }

  /** The table learns the sender of each request or reply for the host's address, and nothing else. */
  lemma TableOnBytes(s: Net.StackState, f: seq<byte>, length: nat)
    requires length <= |f| && 0 < |s.table|
    ensures Net.TableAfter(s, f, length)
         == if Introduces(f[..length], s.host.ip) then Updated(AsWritten, s.table, s.now, f[28..32], f[22..28])
            else s.table
  {
    var c := f[..length];
    if length >= 42 {
      TypeOnBytes(f);
      OpcodeOnBytes(f);
      assert c[12..14] == f[12..14] && c[20..22] == f[20..22] && c[38..42] == f[38..42];
    }
  }

  /** The first slot that holds an address. */
  predicate IsFirstSlot(table: seq<Entry>, ip: Ip, i: nat)
  {
    i < |table| && table[i].ip == ip && forall j :: 0 <= j < i ==> table[j].ip != ip
  }

  /**
   * What `arp_encode` makes of a packet: broadcast packets go to six 0xFF; others to the hardware address in
   * the first slot that holds the next hop; and without one, the packet gives way to a request for it.
   */
  lemma EncodedOnBytes(host: HostConfig, table: seq<Entry>, f: seq<byte>, length: nat, hop: Ip)
    requires |f| >= 42
    requires hop == if forall k :: 0 <= k < 4 ==> AgreeWhereSet(f[30 + k], host.ip[k], host.netmask[k]) then f[30..34]
                    else host.router
    ensures var (frame, send) := Arp.Encoded(host, table, f, length);
            if f[30..34] == [0xFF, 0xFF, 0xFF, 0xFF] then
              && send == length
              && frame == [0xFF, 0xFF, 0xFF, 0xFF, 0xFF, 0xFF] + host.mac + [0x08, 0x00] + f[14..]
            else
              && (forall i: nat :: IsFirstSlot(table, hop, i) ==>
                    send == length && frame == table[i].mac + host.mac + [0x08, 0x00] + f[14..])
              && ((forall i :: 0 <= i < |table| ==> table[i].ip != hop) ==>
                    send == 42
                    && frame == [0xFF, 0xFF, 0xFF, 0xFF, 0xFF, 0xFF] + host.mac + [0x08, 0x06]
                                + [0, 1, 0x08, 0x00, 6, 4, 0, 1]
                                + host.mac + host.ip + [0, 0, 0, 0, 0, 0] + hop + f[42..])
  {
    NextHopByBits(host, f[30..34]);
  }

  // ---------- the answer to what is received ----------

  /** The checksum test looks at the headers, the declared datagram, and the byte after an odd one. */
  lemma SamePrefixSameTest(f: seq<byte>, g: seq<byte>, n: nat)
    requires 42 <= n <= |f| && n <= |g| && f[..n] == g[..n]
    requires 34 + Declared(f) + Declared(f) % 2 <= n && Declared(f) <= 65534
    ensures Udp.Checkable(f) && Udp.Checkable(g) && (Udp.ChecksumPasses(f) <==> Udp.ChecksumPasses(g))
  {
    assert forall i :: 0 <= i < n ==> f[i] == g[i];
    Udp.WithoutChecksumReadable(f);
    Udp.WithoutChecksumReadable(g);
    var x, y := Udp.WithoutChecksum(f), Udp.WithoutChecksum(g);
    assert forall i :: 0 <= i < n ==> x[i] == (if 40 <= i < 42 then 0 else f[i]) == y[i];
    assert Udp.Segment(x) == Udp.Segment(y) && Udp.NextByte(x) == Udp.NextByte(y);
    assert IpAt(f, IP_SRC) == IpAt(g, IP_SRC) && IpAt(f, IP_DEST) == IpAt(g, IP_DEST);
  }

  lemma SameSlice(f: seq<byte>, c: seq<byte>, lo: nat, hi: nat)
    requires lo <= hi <= |c| <= |f| && f[..|c|] == c
    ensures f[lo..hi] == c[lo..hi]
  {
    assert forall i :: 0 <= i < |c| ==> f[i] == c[i];
  }

  lemma SameReturned(f: seq<byte>, c: seq<byte>, host: HostConfig)
    requires 34 <= |c| <= |f| && f[..|c|] == c
    ensures Returned(f, host) == Returned(c, host)
  {
    SameSlice(f, c, 6, 12);
    SameSlice(f, c, 12, 26);
    SameSlice(f, c, 26, 30);
  }

  lemma SameArpAnswer(f: seq<byte>, c: seq<byte>, host: HostConfig)
    requires 42 <= |c| <= |f| && f[..|c|] == c
    ensures ArpAnswer(f, host) == ArpAnswer(c, host)
  {
    SameSlice(f, c, 12, 20);
    SameSlice(f, c, 22, 28);
    SameSlice(f, c, 28, 32);
  }

  /** Memory that begins with what was received, and a terminator. */
  predicate Received(f: seq<byte>, c: seq<byte>)
  {
    |c| < |f| && |c| <= 0xFFFF && f[..|c|] == c && (|c| > 0 ==> f[|c|] == 0)
  }

  predicate Sends(out: Arp.ArpOutcome, answer: seq<byte>)
  {
    out.reply == |answer| <= |out.frame| && out.frame[..out.reply] == answer
  }

  /** In memory that begins with `c`, terminated, what is decoded and sent is the answer to `c`. */
  lemma AnswerIsSent(s: Net.StackState, f: seq<byte>, c: seq<byte>)
    requires Received(f, c) && 0 < |s.table| && Contained(s.slots, c)
    ensures Net.Acceptable(s.slots, f, |c|) && Sends(Net.Decoded(s, f, |c|), Answer(s.host, s.slots, c))
  {
    if AsksFor(c, s.host.ip) {
      ArpIsSent(s, f, c);
    } else if AsksForEcho(c) {
      EchoIsSent(s, f, c);
    } else if BringsDatagram(s.slots, c) {
      DatagramIsSent(s, f, c);
    } else {
      OthersUnanswered(s, f, |c|);
    }
  }

  lemma ArpIsSent(s: Net.StackState, f: seq<byte>, c: seq<byte>)
    requires Received(f, c) && 0 < |s.table| && AsksFor(c, s.host.ip)
    ensures Net.Acceptable(s.slots, f, |c|) && Sends(Net.Decoded(s, f, |c|), ArpAnswer(c, s.host))
  {
    SameSlice(f, c, 12, 14);
    ArpOnBytes(s, f, |c|);
    SameArpAnswer(f, c, s.host);
  }

  lemma EchoIsSent(s: Net.StackState, f: seq<byte>, c: seq<byte>)
    requires Received(f, c) && 0 < |s.table| && AsksForEcho(c)
    ensures Net.Acceptable(s.slots, f, |c|) && Sends(Net.Decoded(s, f, |c|), EchoAnswer(c, s.host))
  {
    SameSlice(f, c, 12, 14);
    assert f[23] == c[23];
    EchoOnBytes(s, f, |c|);
    SameSlice(f, c, 38, 98);
    SameReturned(f, c, s.host);
  }

  lemma DatagramReceived(s: Net.StackState, f: seq<byte>, c: seq<byte>)
    requires Received(f, c) && BringsDatagram(s.slots, c) && Contained(s.slots, c)
    ensures BringsDatagram(s.slots, f) && Declared(f) == Declared(c)
    ensures Udp.Checkable(f) && (Udp.ChecksumPasses(f) <==> Passes(c))
    ensures Net.Acceptable(s.slots, f, |c|)
  {
    var n, g := |c| + 1, c + [0];
    assert f[..n] == g[..n];
    assert forall i :: 0 <= i < |c| ==> f[i] == c[i] == g[i];
    SameSlice(f, c, 12, 14);
    SamePrefixSameTest(f, g, n);
  }

  lemma DatagramIsSent(s: Net.StackState, f: seq<byte>, c: seq<byte>)
    requires Received(f, c) && 0 < |s.table| && BringsDatagram(s.slots, c) && Contained(s.slots, c)
    ensures Net.Acceptable(s.slots, f, |c|)
    ensures Sends(Net.Decoded(s, f, |c|), if Passes(c) then DatagramTurned(c, s.host)[..34 + Declared(c)] else [])
  {
    DatagramReceived(s, f, c);
    DatagramOnBytes(s, f, |c|);
    FirstOfTurned(s, f, c, Net.Decoded(s, f, |c|));
  }

  lemma FirstOfTurned(s: Net.StackState, f: seq<byte>, c: seq<byte>, r: Arp.ArpOutcome)
    requires Received(f, c) && |c| >= 42 && 34 + Declared(c) <= |c| && Declared(f) == Declared(c)
    requires r.reply == if Passes(c) then (34 + Declared(f)) % 0x1_0000 else 0
    requires Passes(c) ==> r.frame == DatagramTurned(f, s.host)
    ensures Sends(r, if Passes(c) then DatagramTurned(c, s.host)[..34 + Declared(c)] else [])
  {
    TurnedPrefixOnBytes(f, c, s.host, 34 + Declared(c));
  }

  lemma TurnedPrefixOnBytes(f: seq<byte>, c: seq<byte>, host: HostConfig, end: nat)
    requires |c| >= 42 && |c| <= |f| && f[..|c|] == c && end <= |c|
    ensures DatagramTurned(f, host)[..end] == DatagramTurned(c, host)[..end]
  {
    assert f == c + f[|c|..];
    assert DatagramTurned(f, host) == DatagramTurned(c, host) + f[|c|..];
  }

  // ---------- what the answers are worth ----------

  /** The answer to a proper echo request for the host: a valid message, and the RFC 792 reply if it can be. */
  lemma PingAnswered(host: HostConfig, slots: seq<Udp.Slot>, c: seq<byte>)
    requires AsksForEcho(c) && c[14] == 0x45 && RfcChecksum(c[14..34]) == 0 && c[30..34] == host.ip
    ensures var r := Answer(host, slots, c);
            |r| == 98 && Icmp.Answers(r, c, host, 98) && (Icmp.IsEchoReplyTo(r, c, host) <==> Icmp.Repliable(c))
  {
    Icmp.EchoReplyIsValid(c, host);
    Icmp.ReplyIsExact(c, host);
    EchoReplyOnBytes(c, host);
    assert Icmp.Sent(c, host) == EchoAnswer(c, host);
    Icmp.ReplyMessageVerifies(c, host);
    assert Icmp.EchoReply(c, host)[34..98] == EchoAnswer(c, host)[34..98];
    Icmp.AnswersCut(Icmp.EchoReply(c, host), c, host, 98);
  }

  /** The datagram, and the byte read after an odd one. */
  function SegmentOf(c: seq<byte>): (r: seq<byte>)
    requires |c| >= 42 && 34 + Declared(c) <= |c|
  {
    c[34..34 + Declared(c)]
  }

  function NextOf(c: seq<byte>): (r: byte)
    requires |c| >= 42 && 34 + Declared(c) <= |c|
  {
    if Declared(c) % 2 == 0 || 34 + Declared(c) == |c| then 0 else c[34 + Declared(c)]
  }

  /**
   * A datagram for a bound port against RFC 768: without a checksum it is answered; where the checksum is
   * computed exactly it is answered if and only if it is valid; a valid one exactly there; and one whose
   * checksum field is 0xFFFF never, if it is faithful.
   */
  lemma DatagramAnsweredIfValid(host: HostConfig, slots: seq<Udp.Slot>, c: seq<byte>)
    requires BringsDatagram(slots, c) && |c| <= 0xFFFF && 8 <= Declared(c) <= |c| - 34
    ensures var answered, field := Answer(host, slots, c) != [], NetworkWord(c, 40);
            var src, dst, cleared := c[26..30], c[30..34], Splice(SegmentOf(c), 6, [0, 0]);
            var exact, valid := Exact(17, src, dst, cleared, NextOf(c)), Verifies(17, src, dst, SegmentOf(c));
            && (field == 0 ==> answered)
            && (0 < field < 0xFFFF && exact ==> (answered <==> valid))
            && (0 < field < 0xFFFF && valid ==> (answered <==> exact))
            && (field == 0xFFFF && Faithful(17, src, dst, cleared, NextOf(c)) ==> !answered)
  {
    var g := c + [0];
    assert g[..|c|] == c;
    assert forall i :: 0 <= i < |c| ==> g[i] == c[i];
    assert Udp.Segment(g) == SegmentOf(c) && Udp.NextByte(g) == NextOf(c);
    SameSlice(g, c, 26, 30);
    SameSlice(g, c, 30, 34);
    AnsweredIfPassing(host, slots, c);
    if 0 < NetworkWord(c, 40) < 0xFFFF {
      Udp.AcceptsValidDatagrams(g);
    } else if NetworkWord(c, 40) == 0xFFFF {
      Udp.DropsComputedZero(g);
    }
  }

  lemma AnsweredIfPassing(host: HostConfig, slots: seq<Udp.Slot>, c: seq<byte>)
    requires BringsDatagram(slots, c) && 8 <= Declared(c) <= |c| - 34
    ensures Answer(host, slots, c) != [] <==> Passes(c)
  {
    if Passes(c) {
      assert |DatagramTurned(c, host)[..34 + Declared(c)]| > 0;
    }
  }

  // ---------- answers to answers ----------

  /**
   * An answer that reaches a host running this code, with any padding behind it, is answered again only if it
   * is an echoed datagram, and then exactly if the first source port is bound there: ARP exchanges and pings
   * end with the answer.
   */
  lemma OnlyEchoesAreAnswered(a: HostConfig, aSlots: seq<Udp.Slot>, b: HostConfig, bSlots: seq<Udp.Slot>,
                              c: seq<byte>, padding: seq<byte>)
    requires Answer(a, aSlots, c) != [] && Contained(aSlots, c)
    ensures var r := Answer(a, aSlots, c) + padding;
            && (AsksFor(c, a.ip) || AsksForEcho(c) ==> Answer(b, bSlots, r) == [])
            && (BringsDatagram(aSlots, c) && Declared(c) >= 8 ==>
                  (Answer(b, bSlots, r) != [] <==> IsBound(bSlots, NetworkWord(c, 34))))
  {
    if AsksFor(c, a.ip) {
      ArpAnswerEnds(c, a, ArpAnswer(c, a) + padding, b, bSlots);
    } else if AsksForEcho(c) {
      EchoAnswerEnds(c, a, EchoAnswer(c, a) + padding, b, bSlots);
    } else if Declared(c) >= 8 {
      DatagramAnswerGoesOn(c, a, DatagramTurned(c, a)[..34 + Declared(c)] + padding, b, bSlots);
    }
  }

  lemma ArpAnswerEnds(c: seq<byte>, a: HostConfig, r: seq<byte>, b: HostConfig, bSlots: seq<Udp.Slot>)
    requires AsksFor(c, a.ip) && |r| >= 42 && r[..42] == ArpAnswer(c, a)
    ensures Answer(b, bSlots, r) == []
  {
    ArpAnswerFields(c, a, r);
  }

  lemma EchoAnswerEnds(c: seq<byte>, a: HostConfig, r: seq<byte>, b: HostConfig, bSlots: seq<Udp.Slot>)
    requires AsksForEcho(c) && |r| >= 98 && r[..98] == EchoAnswer(c, a)
    ensures Answer(b, bSlots, r) == []
  {
    EchoAnswerFields(c, a, r);
  }

  lemma DatagramAnswerGoesOn(c: seq<byte>, a: HostConfig, r: seq<byte>, b: HostConfig, bSlots: seq<Udp.Slot>)
    requires |c| >= 42 && c[12..14] == [0x08, 0x00] && c[23] == 17 && 8 <= Declared(c) <= |c| - 34
    requires 34 + Declared(c) <= |r| && r[..34 + Declared(c)] == DatagramTurned(c, a)[..34 + Declared(c)]
    ensures Answer(b, bSlots, r) != [] <==> IsBound(bSlots, NetworkWord(c, 34))
  {
    DatagramAnswerFields(c, a, r);
    assert NetworkWord(r + [0], 40) == NetworkWord(r, 40);
    if IsBound(bSlots, NetworkWord(c, 34)) {
      AnsweredIfPassing(b, bSlots, r);
    }
  }

  lemma ArpAnswerFields(c: seq<byte>, host: HostConfig, r: seq<byte>)
    requires |c| >= 42 && |r| >= 42 && r[..42] == ArpAnswer(c, host)
    ensures r[12..14] == c[12..14] && r[20..22] == [0, 2]
  {
    var q, front := r[..42], c[22..28] + host.mac + c[12..20];
    assert q == front + [0, 2] + (host.mac + host.ip + c[22..28] + c[28..32]);
    assert |front| == 20 && front[12..20] == c[12..20];
    assert q[..20] == front && q[20..22] == [0, 2];
    assert q[12..14] == front[12..20][..2] == c[12..14];
    SameSlice(r, q, 12, 14);
    SameSlice(r, q, 20, 22);
  }

  lemma EchoAnswerFields(c: seq<byte>, host: HostConfig, r: seq<byte>)
    requires |c| >= 98 && |r| >= 98 && r[..98] == EchoAnswer(c, host)
    ensures r[12..14] == c[12..14] && r[23] == c[23] && r[34] == 0
  {
    var q, front := r[..98], Returned(c, host);
    assert front[12..26] == c[12..26];
    assert q[..34] == front && q[34] == 0;
    assert q[12..26] == front[12..26];
    assert q[12..14] == q[12..26][..2] == c[12..14];
    assert r[23] == q[12..26][11] && c[23] == c[12..26][11];
    SameSlice(r, q, 12, 14);
  }

  lemma DatagramAnswerFields(c: seq<byte>, host: HostConfig, r: seq<byte>)
    requires |c| >= 42 && 8 <= Declared(c) <= |c| - 34
    requires 34 + Declared(c) <= |r| && r[..34 + Declared(c)] == DatagramTurned(c, host)[..34 + Declared(c)]
    ensures r[12..14] == c[12..14] && r[23] == c[23] && NetworkWord(r, 36) == NetworkWord(c, 34)
    ensures Declared(r) == Declared(c) && NetworkWord(r, 40) == 0
  {
    var q, t := r[..34 + Declared(c)], DatagramTurned(c, host);
    assert forall i :: 0 <= i < 42 ==> r[i] == q[i] == t[i];
    assert t[12..26] == c[12..26] && t[36..38] == c[34..36] && t[38..40] == c[38..40] && t[40..42] == [0, 0];
    assert t[12] == c[12..26][0] && t[13] == c[12..26][1] && t[23] == c[12..26][11];
    assert t[36] == c[34..36][0] && t[37] == c[34..36][1] && t[38] == c[38..40][0] && t[39] == c[38..40][1];
    assert t[40] == [0, 0][0] && t[41] == [0, 0][1];
    assert r[12..14] == [c[12], c[13]] == c[12..14];
  }
}
