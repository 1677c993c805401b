/** UDP (RFC 768): port bindings, the checksum test of `udp_decode`, and the echo service. */
module Udp {
  import opened Machine
  import opened Addresses
  import opened OnesComplement
  import opened Checksum
  import opened Frame
  import opened IpReply
  import opened Samples

  const UDP_MAX_BINDINGS := 10
  const UDP_SRC_PORT := 34
  const UDP_DEST_PORT := 36
  const UDP_LENGTH := 38
  const UDP_CHECKSUM := 40
  const UDP_HEADER_SIZE := 42
  const UDP_DEFAULT_HEADER_LENGTH := 8
  const ECHO_PORT: u16 := 7

  /** `echo_udp` is the one callback the firmware binds. */
  datatype Callback = EchoUdp

  /** A slot of `udp_bindings`: NULL, or a binding allocated by `udp_bind`. */
  datatype Slot = Null | Bound(port: u16, callback: Callback)

  // ---------- bindings ----------

  /** The first slot bound to a port, or the table length. */
  function BindingOf(slots: seq<Slot>, port: u16): (i: nat)
    ensures i <= |slots|
    ensures i < |slots| ==> slots[i].Bound? && slots[i].port == port
    ensures forall j :: 0 <= j < i ==> slots[j] == Null || slots[j].port != port
  {
    if slots == [] then 0
    else if slots[0].Bound? && slots[0].port == port then 0
    else
      var i := 1 + BindingOf(slots[1..], port);
      assert forall j :: 0 < j < i ==> slots[j] == slots[1..][j - 1];
      i
  }

  /** Tables built by `udp_bind` alone: the first `n` slots bound, the rest NULL. */
  ghost predicate Packed(slots: seq<Slot>, n: nat)
  {
    n <= |slots| && forall i :: 0 <= i < |slots| ==> (slots[i].Bound? <==> i < n)
  }

  /** The search of `udp_decode` looks through a NULL pointer before it finds the port. */
  ghost predicate SearchReadsNull(slots: seq<Slot>, port: u16)
  {
    exists i :: 0 <= i < BindingOf(slots, port) && slots[i] == Null
  }

  lemma SearchReadsNullExactly(slots: seq<Slot>, n: nat, port: u16)
    requires Packed(slots, n)
    ensures SearchReadsNull(slots, port) <==> BindingOf(slots, port) == |slots| && n < |slots|
  {
    if n < |slots| {
      assert slots[n] == Null;
    }
  }

  class UdpBindings {
    const slots: array<Slot>

    ghost predicate Valid()
      reads this
    {
      slots.Length == UDP_MAX_BINDINGS
    }

    constructor ()
      ensures Valid() && fresh(slots) && Packed(slots[..], 0)
    {
      slots := new Slot[UDP_MAX_BINDINGS](_ => Null);
    }

    /** Fills the first NULL slot; the port is then found, at its earliest binding. */
    method Bind(port: u16, callback: Callback, ghost n: nat) returns (bound: bool)
      requires Valid() && Packed(slots[..], n)
      modifies slots
      ensures bound <==> n < UDP_MAX_BINDINGS
      ensures slots[..] == if bound then old(slots[..])[n := Bound(port, callback)] else old(slots[..])
      ensures Packed(slots[..], if bound then n + 1 else n)
      ensures bound ==> BindingOf(slots[..], port) == var i := BindingOf(old(slots[..]), port); if i < n then i else n
    {
      var id := 0;
      while id < UDP_MAX_BINDINGS && slots[id] != Null
        invariant 0 <= id <= UDP_MAX_BINDINGS && id <= n
      {
        id := id + 1;
      }
      if id == UDP_MAX_BINDINGS {
        return false;
      }
      ghost var before := slots[..];
      slots[id] := Bound(port, callback);
      BindingAfterBind(before, n, port, callback);
      return true;
    }
  }

  lemma BindingAfterBind(slots: seq<Slot>, n: nat, port: u16, callback: Callback)
    requires Packed(slots, n) && n < |slots|
    ensures BindingOf(slots[n := Bound(port, callback)], port)
         == var i := BindingOf(slots, port); if i < n then i else n
  {
    var after := slots[n := Bound(port, callback)];
    var i, j := BindingOf(slots, port), BindingOf(after, port);
    if i < n {
      assert after[i] == slots[i];
    } else {
      assert after[n].port == port;
    }
  }

  // ---------- the checksum test ----------

  /** The datagram the UDP length field declares lies in memory, and is no longer than the loop allows. */
  predicate Readable(f: seq<byte>)
  {
    |f| >= UDP_HEADER_SIZE &&
    var length := NetworkWord(f, UDP_LENGTH);
    length <= 65534 && UDP_SRC_PORT + length + length % 2 <= |f|
  }

  /** A datagram whose checksum is to be recomputed lies in memory. */
  predicate Checkable(f: seq<byte>)
  {
    |f| >= UDP_HEADER_SIZE && (NetworkWord(f, UDP_CHECKSUM) != 0 ==> Readable(f))
  }

  /** `udp_header->checksum = 0` */
  function WithoutChecksum(f: seq<byte>): (r: seq<byte>)
    requires |f| >= UDP_HEADER_SIZE
    ensures |r| == |f|
  {
    Splice(f, UDP_CHECKSUM, [0, 0])
  }

  function Segment(f: seq<byte>): (r: seq<byte>)
    requires Readable(f)
    ensures |r| == NetworkWord(f, UDP_LENGTH)
  {
    f[UDP_SRC_PORT..UDP_SRC_PORT + NetworkWord(f, UDP_LENGTH)]
  }

  lemma WithoutChecksumLength(f: seq<byte>)
    requires |f| >= UDP_HEADER_SIZE
    ensures NetworkWord(WithoutChecksum(f), UDP_LENGTH) == NetworkWord(f, UDP_LENGTH)
  {
    assert WithoutChecksum(f)[..UDP_CHECKSUM] == f[..UDP_CHECKSUM];
    assert WithoutChecksum(f)[UDP_LENGTH] == f[UDP_LENGTH];
    assert WithoutChecksum(f)[UDP_LENGTH + 1] == f[UDP_LENGTH + 1];
  }

  lemma WithoutChecksumReadable(f: seq<byte>)
    requires Readable(f)
    ensures Readable(WithoutChecksum(f))
    ensures NetworkWord(WithoutChecksum(f), UDP_LENGTH) == NetworkWord(f, UDP_LENGTH)
    ensures IpAt(WithoutChecksum(f), IP_SRC) == IpAt(f, IP_SRC)
    ensures IpAt(WithoutChecksum(f), IP_DEST) == IpAt(f, IP_DEST)
  {
    WithoutChecksumLength(f);
    SpliceElsewhere(f, UDP_CHECKSUM, [0, 0], IP_SRC, 4);
    SpliceElsewhere(f, UDP_CHECKSUM, [0, 0], IP_DEST, 4);
  }

  /** The byte that an odd datagram's checksum reads past its end. */
  function NextByte(f: seq<byte>): (r: byte)
    requires Readable(f)
  {
    Following(f, UDP_SRC_PORT, |Segment(f)|)
  }

  /** What `udp_checksum` returns over a frame whose field has been cleared. */
  function FrameChecksum(f: seq<byte>): (r: u16)
    requires Readable(f)
  {
    TransportChecksum(IP_PROTOCOL_UDP, IpAt(f, IP_SRC), IpAt(f, IP_DEST), Segment(f), NextByte(f))
  }

  /** A zero field is not checked; any other must equal the recomputed checksum. */
  predicate ChecksumPasses(f: seq<byte>)
    requires Checkable(f)
  {
    if NetworkWord(f, UDP_CHECKSUM) == 0 then true
    else
      WithoutChecksumReadable(f);
      NetworkWord(f, UDP_CHECKSUM) == FrameChecksum(WithoutChecksum(f))
  }

  /** The datagram carries its whole header. */
  predicate WellFormed(f: seq<byte>)
    requires Readable(f)
  {
    |Segment(f)| >= UDP_DEFAULT_HEADER_LENGTH
  }

  lemma SegmentCleared(f: seq<byte>)
    requires Readable(f) && WellFormed(f)
    ensures Readable(WithoutChecksum(f))
    ensures Segment(WithoutChecksum(f)) == Cleared(Segment(f), 6)
    ensures NextByte(WithoutChecksum(f)) == NextByte(f)
    ensures NetworkWord(f, UDP_CHECKSUM) == FieldAt(Segment(f), 6)
  {
    WithoutChecksumReadable(f);
    var g, s := WithoutChecksum(f), Segment(f);
    var end := UDP_SRC_PORT + |s|;
    assert s[6] == f[UDP_CHECKSUM] && s[7] == f[UDP_CHECKSUM + 1];
    assert s[..6] == f[UDP_SRC_PORT..UDP_CHECKSUM] && s[8..] == f[UDP_HEADER_SIZE..end];
    assert g[UDP_SRC_PORT..end] == f[UDP_SRC_PORT..UDP_CHECKSUM] + [0, 0] + f[UDP_HEADER_SIZE..end];
    if |s| % 2 == 1 {
      assert g[end] == f[end];
    }
  }

  /**
   * The acceptance test against RFC 768: where the checksum is exact an ordinary field passes exactly
   * when the sum with the field in place is all ones; and a valid datagram passes exactly there.
   */
  lemma AcceptsValidDatagrams(f: seq<byte>)
    requires Readable(f) && WellFormed(f)
    requires 0 < NetworkWord(f, UDP_CHECKSUM) < 0xFFFF
    ensures var src, dst, s := IpAt(f, IP_SRC), IpAt(f, IP_DEST), Segment(f);
            var exact := Exact(IP_PROTOCOL_UDP, src, dst, Cleared(s, 6), NextByte(f));
            var valid := Verifies(IP_PROTOCOL_UDP, src, dst, s);
            (exact ==> (ChecksumPasses(f) <==> valid)) && (valid ==> (ChecksumPasses(f) <==> exact))
  {
    WithoutChecksumReadable(f);
    SegmentCleared(f);
    AcceptanceIsVerification(IP_PROTOCOL_UDP, IpAt(f, IP_SRC), IpAt(f, IP_DEST), Segment(f), 6, NextByte(f));
  }

  /** A received 0xFFFF, RFC 768's form of a computed zero, is dropped from every faithful datagram. */
  lemma DropsComputedZero(f: seq<byte>)
    requires Readable(f) && WellFormed(f)
    requires NetworkWord(f, UDP_CHECKSUM) == 0xFFFF
    ensures var src, dst, s := IpAt(f, IP_SRC), IpAt(f, IP_DEST), Segment(f);
            var total := CoveredSum(IP_PROTOCOL_UDP, src, dst, Cleared(s, 6), NextByte(f));
            && (ChecksumPasses(f) <==> total == 0x1_0000 * Lost(IP_PROTOCOL_UDP, src, dst, |s|))
            && (Faithful(IP_PROTOCOL_UDP, src, dst, Cleared(s, 6), NextByte(f)) ==> !ChecksumPasses(f))
            && (Verifies(IP_PROTOCOL_UDP, src, dst, s)
                <==> RfcChecksum(Covered(IP_PROTOCOL_UDP, src, dst, Cleared(s, 6))) == 0)
  {
    WithoutChecksumReadable(f);
    SegmentCleared(f);
    ComputedZeroIsRefused(IP_PROTOCOL_UDP, IpAt(f, IP_SRC), IpAt(f, IP_DEST), Segment(f), 6, NextByte(f));
  }

  // ---------- valid datagrams that are dropped ----------

  /** A whole UDP datagram with a proper IP header and a checksum that is valid as RFC 768 has it. */
  ghost predicate IsProperDatagram(f: seq<byte>)
  {
    && Readable(f) && WellFormed(f) && NetworkWord(f, UDP_CHECKSUM) != 0
    && HasProperHeader(f, 20 + NetworkWord(f, UDP_LENGTH), IP_PROTOCOL_UDP, IpAt(f, IP_SRC), IpAt(f, IP_DEST))
    && Verifies(IP_PROTOCOL_UDP, IpAt(f, IP_SRC), IpAt(f, IP_DEST), Segment(f))
  }

  /** The datagram of a sample frame is what its payload begins with. */
  lemma SampleDatagram(payload: seq<byte>, length: byte)
    requires 8 <= length <= 100 && length + length % 2 <= |payload| && NetworkWord(payload, 4) == length
    ensures var f := SampleFrame(20 + length, IP_PROTOCOL_UDP, payload);
            && HasProperHeader(f, 20 + NetworkWord(f, UDP_LENGTH), IP_PROTOCOL_UDP, SENDER, RECEIVER)
            && Readable(f) && WellFormed(f) && Segment(f) == payload[..length]
            && NetworkWord(f, UDP_CHECKSUM) == NetworkWord(payload, 6)
            && NetworkWord(f, UDP_DEST_PORT) == NetworkWord(payload, 2)
            && NextByte(f) == if length % 2 == 1 then payload[length] else 0
  {
    var f := SampleFrame(20 + length, IP_PROTOCOL_UDP, payload);
    SampleIsProper(20 + length, IP_PROTOCOL_UDP, payload);
    PayloadWord(f, payload, 2);
    PayloadWord(f, payload, 4);
    PayloadWord(f, payload, 6);
    SamplePayload(f, payload, length);
  }

  lemma SamplePayload(f: seq<byte>, payload: seq<byte>, length: nat)
    requires |f| >= UDP_SRC_PORT && f[UDP_SRC_PORT..] == payload && length + length % 2 <= |payload|
    ensures |f| == UDP_SRC_PORT + |payload| && f[UDP_SRC_PORT..UDP_SRC_PORT + length] == payload[..length]
    ensures length % 2 == 1 ==> f[UDP_SRC_PORT + length] == payload[length]
  {
    assert length < |payload| ==> f[UDP_SRC_PORT..][length] == payload[length];
  }

  /** An empty datagram for port 7 whose checksum computes to zero, sent as 0xFFFF: valid, and dropped. */
  lemma ValidZeroIsDropped()
    ensures var f := SampleFrame(28, IP_PROTOCOL_UDP, [0xEB, 0xD4, 0, 7, 0, 8, 0xFF, 0xFF]);
            IsProperDatagram(f) && NetworkWord(f, UDP_CHECKSUM) == 0xFFFF && !ChecksumPasses(f)
  {
    ZeroIsDropped([0xEB, 0xD4, 0, 7, 0, 8, 0xFF, 0xFF]);
  }

  lemma ZeroIsDropped(s: seq<byte>)
    requires |s| == 8 && NetworkWord(s, 4) == 8 && NetworkWord(s, 6) == 0xFFFF
    requires NetworkWord(s, 0) + NetworkWord(s, 2) == 0xEBDB
    ensures var f := SampleFrame(28, IP_PROTOCOL_UDP, s);
            IsProperDatagram(f) && NetworkWord(f, UDP_CHECKSUM) == 0xFFFF && !ChecksumPasses(f)
  {
    SampleDatagram(s, 8);
    WordSumOfEight(s);
    SampleSegmentVerifies(IP_PROTOCOL_UDP, s, 1);
    assert s[..8] == s;
    DropsComputedZero(SampleFrame(28, IP_PROTOCOL_UDP, s));
  }

  /** A datagram of nine bytes for port 7 with a 1 behind it in the frame: valid, and dropped. */
  lemma ValidOddDatagramIsDropped()
    ensures var f := SampleFrame(29, IP_PROTOCOL_UDP, [0, 7, 0, 7, 0, 9, 0xEB, 0xCB, 0, 1]);
            IsProperDatagram(f) && NextByte(f) == 1 && !ChecksumPasses(f)
  {
    OddIsDropped([0, 7, 0, 7, 0, 9, 0xEB, 0xCB, 0, 1]);
  }

  lemma OddIsDropped(payload: seq<byte>)
    requires |payload| == 10 && NetworkWord(payload, 4) == 9 && NetworkWord(payload, 6) == 0xEBCB
    requires NetworkWord(payload, 0) + NetworkWord(payload, 2) == 14 && payload[8] == 0 && payload[9] == 1
    ensures var f := SampleFrame(29, IP_PROTOCOL_UDP, payload);
            IsProperDatagram(f) && NextByte(f) == 1 && !ChecksumPasses(f)
  {
    var s := payload[..9];
    SampleDatagram(payload, 9);
    WordSumOfEight(s);
    assert s[8..] == [0];
    SampleSegmentVerifies(IP_PROTOCOL_UDP, s, 0);
    AcceptsValidDatagrams(SampleFrame(29, IP_PROTOCOL_UDP, payload));
  }

  // ---------- decoding and echo ----------

  /** The reply of the echo service: addresses turned round, ports exchanged for 7, payload as received. */
  function EchoReply(f: seq<byte>, host: HostConfig): (r: seq<byte>)
    requires |f| >= UDP_HEADER_SIZE
    ensures |r| == |f|
  {
    Turned(f, host)[..IP_HEADER_SIZE] + [0, 7] + f[UDP_SRC_PORT..UDP_DEST_PORT] + f[UDP_LENGTH..]
  }

  /** 42 + (length - 8), in 16 bits. */
  function EchoLength(f: seq<byte>): (r: u16)
    requires |f| >= UDP_HEADER_SIZE
  {
    ToU16(UDP_HEADER_SIZE - UDP_DEFAULT_HEADER_LENGTH + NetworkWord(f, UDP_LENGTH))
  }

  /** A complete header for a bound port: the declared length is looked at for these alone. */
  predicate Delivered(slots: seq<Slot>, f: seq<byte>, length: nat)
    requires length <= |f|
  {
    length >= UDP_HEADER_SIZE && BindingOf(slots, NetworkWord(f, UDP_DEST_PORT)) < |slots|
  }

  /** One past the last byte a recomputed checksum reads; zero when none is recomputed. */
  function ReadEnd(slots: seq<Slot>, f: seq<byte>, length: nat): (end: nat)
    requires length <= |f|
  {
    if Delivered(slots, f, length) && NetworkWord(f, UDP_CHECKSUM) != 0 then ChecksumEnd(f) else 0
  }

  function ChecksumEnd(f: seq<byte>): (end: nat)
    requires |f| >= UDP_HEADER_SIZE
  {
    UDP_SRC_PORT + NetworkWord(f, UDP_LENGTH) + NetworkWord(f, UDP_LENGTH) % 2
  }

  /** `udp_decode`: the buffer, and the length to transmit. */
  function Decoded(host: HostConfig, slots: seq<Slot>, f: seq<byte>, length: nat): (r: (seq<byte>, nat))
    requires length <= |f| && (Delivered(slots, f, length) ==> Checkable(f))
    ensures |r.0| == |f|
  {
    if !Delivered(slots, f, length) then (f, 0)
    else if !ChecksumPasses(f) then (WithoutChecksum(f), 0)
    else (EchoReply(WithoutChecksum(f), host), EchoLength(f))
  }

  method Decode(bindings: UdpBindings, host: HostConfig, length: u16, packet: array<byte>)
    returns (reply: u16, ghost end: nat)
    requires bindings.Valid() && length <= packet.Length
    requires Delivered(bindings.slots[..], packet[..], length) ==> Checkable(packet[..])
    modifies packet
    ensures (packet[..], reply as nat) == Decoded(host, bindings.slots[..], old(packet[..]), length)
    ensures end == ReadEnd(bindings.slots[..], old(packet[..]), length)
  {
    if length < UDP_HEADER_SIZE {
      return 0, 0;
    }
    var port := GetNetworkWord(packet, UDP_DEST_PORT);
    var id := Find(bindings, port);
    assert Delivered(bindings.slots[..], packet[..], length) <==> id < UDP_MAX_BINDINGS;
    if id == UDP_MAX_BINDINGS {
      return 0, 0;
    }
    reply, end := Deliver(bindings.slots[id].callback, host, packet);
  }

  /** The rest of `udp_decode`, once a binding is found. */
  method Deliver(callback: Callback, host: HostConfig, packet: array<byte>) returns (reply: u16, ghost end: nat)
    requires Checkable(packet[..])
    modifies packet
    ensures reply == if ChecksumPasses(old(packet[..])) then EchoLength(old(packet[..])) else 0
    ensures packet[..] == if ChecksumPasses(old(packet[..])) then EchoReply(WithoutChecksum(old(packet[..])), host)
                          else WithoutChecksum(old(packet[..]))
    ensures end == if NetworkWord(old(packet[..]), UDP_CHECKSUM) != 0 then ChecksumEnd(old(packet[..])) else 0
  {
    ghost var f := packet[..];
    var passes: bool;
    passes, end := Check(packet);
    if !passes {
      return 0, end;
    }
    match callback {
      case EchoUdp =>
        WithoutChecksumLength(f);
        reply := Echo(host, packet);
    }
  }

  method Find(bindings: UdpBindings, port: u16) returns (id: nat)
    requires bindings.Valid()
    ensures id == BindingOf(bindings.slots[..], port)
  {
    id := 0;
    while id < UDP_MAX_BINDINGS && (bindings.slots[id] == Null || bindings.slots[id].port != port)
      invariant 0 <= id <= UDP_MAX_BINDINGS
      invariant forall j :: 0 <= j < id ==> bindings.slots[j] == Null || bindings.slots[j].port != port
    {
      id := id + 1;
    }
  }

  /** The checksum test; a non-zero field is left cleared whatever the outcome. */
  method Check(packet: array<byte>) returns (passes: bool, ghost end: nat)
    requires Checkable(packet[..])
    modifies packet
    ensures passes <==> ChecksumPasses(old(packet[..]))
    ensures packet[..] == WithoutChecksum(old(packet[..]))
    ensures end == if NetworkWord(old(packet[..]), UDP_CHECKSUM) != 0 then ChecksumEnd(old(packet[..])) else 0
  {
    ghost var f := packet[..];
    var checksum := GetNetworkWord(packet, UDP_CHECKSUM);
    if checksum == 0 {
      ZeroFieldIsCleared(f);
      return true, 0;
    }
    WithoutChecksumReadable(f);
    PutNetworkWord(packet, UDP_CHECKSUM, 0);
    var length := GetNetworkWord(packet, UDP_LENGTH);
    var computed: u16;
    computed, end := PseudoHeaderChecksum(IP_PROTOCOL_UDP, length, packet, UDP_SRC_PORT,
                                          IpAt(packet[..], IP_SRC), IpAt(packet[..], IP_DEST));
    assert packet[UDP_SRC_PORT..UDP_SRC_PORT + length] == Segment(WithoutChecksum(f));
    passes := checksum == computed;
  }

  lemma ZeroFieldIsCleared(f: seq<byte>)
    requires |f| >= UDP_HEADER_SIZE && NetworkWord(f, UDP_CHECKSUM) == 0
    ensures WithoutChecksum(f) == f
  {
    assert f[UDP_CHECKSUM..UDP_CHECKSUM + 2] == [0, 0];
    assert f == f[..UDP_CHECKSUM] + [0, 0] + f[UDP_CHECKSUM + 2..];
  }

  /** `echo_udp`: ports first, then the address copies. */
  method Echo(host: HostConfig, packet: array<byte>) returns (reply: u16)
    requires packet.Length >= UDP_HEADER_SIZE
    modifies packet
    ensures packet[..] == EchoReply(old(packet[..]), host)
    ensures reply == EchoLength(old(packet[..]))
  {
    ghost var f := packet[..];
    Put(packet, UDP_DEST_PORT, packet[UDP_SRC_PORT..UDP_SRC_PORT + 2]);
    PutNetworkWord(packet, UDP_SRC_PORT, ECHO_PORT);
    PortsExchanged(f);
    TurnAddresses(host, packet);
    EchoComplete(f, host);
    var length := GetNetworkWord(packet, UDP_LENGTH);
    reply := ToU16(UDP_HEADER_SIZE - UDP_DEFAULT_HEADER_LENGTH + length);
  }

  function WithPorts(f: seq<byte>): (r: seq<byte>)
    requires |f| >= UDP_HEADER_SIZE
    ensures |r| == |f|
  {
    f[..UDP_SRC_PORT] + [0, 7] + f[UDP_SRC_PORT..UDP_DEST_PORT] + f[UDP_LENGTH..]
  }

  lemma PortsExchanged(f: seq<byte>)
    requires |f| >= UDP_HEADER_SIZE
    ensures Splice(Splice(f, UDP_DEST_PORT, f[UDP_SRC_PORT..UDP_SRC_PORT + 2]), UDP_SRC_PORT, [0, 7]) == WithPorts(f)
  {
    var ports := f[UDP_SRC_PORT..UDP_DEST_PORT];
    assert Splice(f, UDP_DEST_PORT, ports) == f[..UDP_DEST_PORT] + ports + f[UDP_LENGTH..];
  }

  lemma EchoComplete(f: seq<byte>, host: HostConfig)
    requires |f| >= UDP_HEADER_SIZE
    ensures Turned(WithPorts(f), host) == EchoReply(f, host)
    ensures NetworkWord(EchoReply(f, host), UDP_LENGTH) == NetworkWord(f, UDP_LENGTH)
  {
    var g, r := WithPorts(f), EchoReply(f, host);
    assert MacAt(g, MAC_SRC) == MacAt(f, MAC_SRC) && IpAt(g, IP_SRC) == IpAt(f, IP_SRC);
    assert g[MAC_TYPE..IP_SRC] == f[MAC_TYPE..IP_SRC];
    assert g[IP_HEADER_SIZE..] == [0, 7] + f[UDP_SRC_PORT..UDP_DEST_PORT] + f[UDP_LENGTH..];
    assert Turned(g, host)[..IP_HEADER_SIZE] == Turned(f, host)[..IP_HEADER_SIZE];
    assert r[UDP_LENGTH..] == f[UDP_LENGTH..];
    assert r[UDP_LENGTH] == f[UDP_LENGTH] && r[UDP_LENGTH + 1] == f[UDP_LENGTH + 1];
  }

  // ---------- the echo a client sees ----------

  ghost predicate IsEchoOf(r: seq<byte>, f: seq<byte>, host: HostConfig)
    requires |f| >= UDP_HEADER_SIZE && |r| == |f|
  {
    && MacAt(r, MAC_DEST) == MacAt(f, MAC_SRC) && MacAt(r, MAC_SRC) == host.mac
    && IpAt(r, IP_DEST) == IpAt(f, IP_SRC) && IpAt(r, IP_SRC) == IpAt(f, IP_DEST)
    && r[MAC_TYPE..IP_SRC] == f[MAC_TYPE..IP_SRC]
    && HeaderVerifies(r)
    && r[UDP_SRC_PORT..UDP_DEST_PORT] == f[UDP_DEST_PORT..UDP_LENGTH]
    && r[UDP_DEST_PORT..UDP_LENGTH] == f[UDP_SRC_PORT..UDP_DEST_PORT]
    && r[UDP_LENGTH..UDP_CHECKSUM] == f[UDP_LENGTH..UDP_CHECKSUM]
    && r[UDP_CHECKSUM..UDP_HEADER_SIZE] == [0, 0]
    && r[UDP_HEADER_SIZE..] == f[UDP_HEADER_SIZE..]
  }

  lemma EchoIsFaithful(f: seq<byte>, host: HostConfig)
    requires |f| >= UDP_HEADER_SIZE && f[MAC_HEADER_SIZE] != 0
    requires HeaderVerifies(f) && IpAt(f, IP_DEST) == host.ip
    requires NetworkWord(f, UDP_DEST_PORT) == ECHO_PORT
    ensures IsEchoOf(EchoReply(WithoutChecksum(f), host), f, host)
  {
    var g := WithoutChecksum(f);
    var r, t := EchoReply(g, host), Turned(f, host);
    TurnedHeaderVerifies(f, host);
    assert f[UDP_DEST_PORT..UDP_LENGTH] == [0, 7];
    assert g[..UDP_CHECKSUM] == f[..UDP_CHECKSUM];
    assert g[UDP_LENGTH..] == f[UDP_LENGTH..UDP_CHECKSUM] + [0, 0] + f[UDP_HEADER_SIZE..];
    TurnedPrefix(f, g, host);
    assert r[..IP_HEADER_SIZE] == t[..IP_HEADER_SIZE];
    assert IpHeader(r) == r[..IP_HEADER_SIZE][MAC_HEADER_SIZE..];
    assert IpHeader(t) == t[..IP_HEADER_SIZE][MAC_HEADER_SIZE..];
    assert MacAt(r, MAC_DEST) == MacAt(t, MAC_DEST) && MacAt(r, MAC_SRC) == MacAt(t, MAC_SRC);
    assert IpAt(r, IP_DEST) == IpAt(t, IP_DEST) && IpAt(r, IP_SRC) == IpAt(t, IP_SRC);
    assert r[MAC_TYPE..IP_SRC] == t[MAC_TYPE..IP_SRC] == f[MAC_TYPE..IP_SRC];
    assert r[UDP_LENGTH..] == g[UDP_LENGTH..];
    assert r[UDP_LENGTH..UDP_CHECKSUM] == g[UDP_LENGTH..UDP_CHECKSUM];
    assert g[UDP_SRC_PORT..UDP_DEST_PORT] == f[UDP_SRC_PORT..UDP_DEST_PORT];
  }

  /** The turned header depends only on the received header. */
  lemma TurnedPrefix(f: seq<byte>, g: seq<byte>, host: HostConfig)
    requires |f| == |g| >= UDP_HEADER_SIZE && g[..UDP_CHECKSUM] == f[..UDP_CHECKSUM]
    ensures Turned(g, host)[..IP_HEADER_SIZE] == Turned(f, host)[..IP_HEADER_SIZE]
  {
    assert g[..IP_HEADER_SIZE] == g[..UDP_CHECKSUM][..IP_HEADER_SIZE] == f[..IP_HEADER_SIZE];
    assert MacAt(g, MAC_SRC) == g[..IP_HEADER_SIZE][MAC_SRC..MAC_SRC + 6] == MacAt(f, MAC_SRC);
    assert IpAt(g, IP_SRC) == g[..IP_HEADER_SIZE][IP_SRC..IP_SRC + 4] == IpAt(f, IP_SRC);
    assert g[MAC_TYPE..IP_SRC] == g[..IP_HEADER_SIZE][MAC_TYPE..IP_SRC] == f[MAC_TYPE..IP_SRC];
  }
}
