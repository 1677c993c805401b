/**
 * What the ICMP and UDP repliers share: hardware and IP addresses turned round in the received
 * buffer, and the received IP header checksum sent back as it came.
 */
module IpReply {
  import opened Machine
  import opened Addresses
  import opened OnesComplement
  import opened Checksum
  import opened Frame

  /** The frame addressed back to its sender, from this host. */
  function Turned(f: seq<byte>, host: HostConfig): (r: seq<byte>)
    requires |f| >= IP_HEADER_SIZE
    ensures |r| == |f|
  {
    MacAt(f, MAC_SRC) + host.mac + f[MAC_TYPE..IP_SRC] + host.ip + IpAt(f, IP_SRC) + f[IP_HEADER_SIZE..]
  }

  /** The four copies, in the order both repliers make them. */
  method TurnAddresses(host: HostConfig, packet: array<byte>)
    requires packet.Length >= IP_HEADER_SIZE
    modifies packet
    ensures packet[..] == Turned(old(packet[..]), host)
  {
    ghost var f := packet[..];
    ghost var mac, ip := MacAt(f, MAC_SRC), IpAt(f, IP_SRC);
    Put(packet, MAC_DEST, packet[MAC_SRC..MAC_SRC + 6]);
    ghost var f1 := packet[..];
    SpliceElsewhere(f, MAC_DEST, mac, IP_SRC, 4);
    Put(packet, MAC_SRC, host.mac);
    SpliceElsewhere(f1, MAC_SRC, host.mac, IP_SRC, 4);
    assert packet[IP_SRC..IP_SRC + 4] == ip;
    Put(packet, IP_DEST, packet[IP_SRC..IP_SRC + 4]);
    Put(packet, IP_SRC, host.ip);
    CopiesTurn(f, host);
  }

  lemma CopiesTurn(f: seq<byte>, host: HostConfig)
    requires |f| >= IP_HEADER_SIZE
    ensures var f2 := Splice(Splice(f, MAC_DEST, MacAt(f, MAC_SRC)), MAC_SRC, host.mac);
            Splice(Splice(f2, IP_DEST, IpAt(f, IP_SRC)), IP_SRC, host.ip) == Turned(f, host)
  {
    var mac, ip := MacAt(f, MAC_SRC), IpAt(f, IP_SRC);
    var f1 := Splice(f, MAC_DEST, mac);
    assert f1 == mac + f[MAC_SRC..];
    var f2 := Splice(f1, MAC_SRC, host.mac);
    assert f2 == mac + host.mac + f[MAC_TYPE..];
    var f3 := Splice(f2, IP_DEST, ip);
    assert f3 == mac + host.mac + f[MAC_TYPE..IP_DEST] + ip + f[IP_HEADER_SIZE..];
    assert f3[..IP_SRC] == mac + host.mac + f[MAC_TYPE..IP_SRC];
    assert f3[IP_DEST..] == ip + f[IP_HEADER_SIZE..];
  }

  /** The twenty header bytes that the IP checksum covers. */
  function IpHeader(f: seq<byte>): (r: seq<byte>)
    requires |f| >= IP_HEADER_SIZE
  {
    f[MAC_HEADER_SIZE..IP_HEADER_SIZE]
  }

  ghost predicate HeaderVerifies(f: seq<byte>)
    requires |f| >= IP_HEADER_SIZE
  {
    RfcChecksum(IpHeader(f)) == 0
  }

  lemma TurnedHeaderSum(f: seq<byte>, host: HostConfig)
    requires |f| >= IP_HEADER_SIZE
    ensures WordSum(IpHeader(Turned(f, host)))
         == WordSum(IpHeader(f)) - WordSum(IpAt(f, IP_DEST)) + WordSum(host.ip)
    ensures WordSum(IpHeader(f)) >= f[MAC_HEADER_SIZE]
    ensures WordSum(IpHeader(Turned(f, host))) >= f[MAC_HEADER_SIZE]
  {
    var kept := f[MAC_HEADER_SIZE..IP_SRC];
    assert IpHeader(f) == kept + (IpAt(f, IP_SRC) + IpAt(f, IP_DEST));
    assert IpHeader(Turned(f, host)) == kept + (host.ip + IpAt(f, IP_SRC));
    WordSumConcat(kept, IpAt(f, IP_SRC) + IpAt(f, IP_DEST));
    WordSumConcat(IpAt(f, IP_SRC), IpAt(f, IP_DEST));
    WordSumConcat(kept, host.ip + IpAt(f, IP_SRC));
    WordSumConcat(host.ip, IpAt(f, IP_SRC));
    assert WordSum(kept) >= Word(kept[0], kept[1]);
  }

  lemma VerifiesIsMultiple(s: seq<byte>)
    requires WordSum(s) > 0
    ensures RfcChecksum(s) == 0 <==> WordSum(s) % 0xFFFF == 0
  {
    DeferredCarries(s);
    var q := FoldForm(WordSum(s));
    if WordSum(s) % 0xFFFF == 0 {
      FoldIs(WordSum(s), 0xFFFF, WordSum(s) / 0xFFFF - 1);
    } else if Fold(WordSum(s)) == 0xFFFF {
      assert WordSum(s) == 0xFFFF * (q + 1);
      Multiple(q + 1);
    }
  }

  lemma Multiple(k: int)
    ensures (0xFFFF * k) % 0xFFFF == 0
  {
  }

  lemma ShiftedMultiple(a: int, d: int)
    requires a % 0xFFFF == 0
    ensures (a + d) % 0xFFFF == 0 <==> d % 0xFFFF == 0
  {
    var k := a / 0xFFFF;
    assert a == 0xFFFF * k;
    if d % 0xFFFF == 0 {
      assert a + d == 0xFFFF * (k + d / 0xFFFF);
    }
  }

  /**
   * The untouched header checksum still verifies exactly when the replaced destination and the
   * host address have congruent word sums: always when the datagram was addressed to the host.
   */
  lemma TurnedHeaderVerifies(f: seq<byte>, host: HostConfig)
    requires |f| >= IP_HEADER_SIZE && f[MAC_HEADER_SIZE] != 0
    requires HeaderVerifies(f)
    ensures HeaderVerifies(Turned(f, host))
       <==> (WordSum(host.ip) - WordSum(IpAt(f, IP_DEST))) % 0xFFFF == 0
    ensures IpAt(f, IP_DEST) == host.ip ==> HeaderVerifies(Turned(f, host))
  {
    TurnedHeaderSum(f, host);
    VerifiesIsMultiple(IpHeader(f));
    VerifiesIsMultiple(IpHeader(Turned(f, host)));
    ShiftedMultiple(WordSum(IpHeader(f)), WordSum(host.ip) - WordSum(IpAt(f, IP_DEST)));
  }
}
