/** Frames with a proper IP header from 10.0.0.2 to 10.0.0.1, on which lemmas show the code at fault. */
module Samples {
  import opened Machine
  import opened Addresses
  import opened OnesComplement
  import opened Frame
  import opened IpReply
  import opened Checksum

  const SENDER: Ip := [10, 0, 0, 2]
  const RECEIVER: Ip := [10, 0, 0, 1]

  function SampleHeader(length: byte, protocol: byte): (h: seq<byte>)
    requires length + protocol <= 0xFC
  {
    [0x45, 0, 0, length, 0, 0, 0, 0, 0x40, protocol, 0x66, 0xFC - length - protocol] + SENDER + RECEIVER
  }

  function SampleFrame(length: byte, protocol: byte, payload: seq<byte>): (f: seq<byte>)
    requires length + protocol <= 0xFC
    ensures |f| == IP_HEADER_SIZE + |payload|
  {
    [2, 0, 0, 0, 0, 1, 2, 0, 0, 0, 0, 2, 8, 0] + SampleHeader(length, protocol) + payload
  }

  lemma SampleHeaderVerifies(length: byte, protocol: byte)
    requires length + protocol <= 0xFC
    ensures RfcChecksum(SampleHeader(length, protocol)) == 0
  {
    var a: seq<byte> := [0x45, 0, 0, length];
    var b: seq<byte> := [0, 0, 0, 0];
    var c: seq<byte> := [0x40, protocol, 0x66, 0xFC - length - protocol];
    assert SampleHeader(length, protocol) == a + (b + (c + (SENDER + RECEIVER)));
    SumOfFive(a, b, c, SENDER, RECEIVER);
    WordSumOfFour(a);
    WordSumOfFour(b);
    WordSumOfFour(c);
    WordSumOfFour(SENDER);
    WordSumOfFour(RECEIVER);
    DeferredCarries(SampleHeader(length, protocol));
  }

  lemma SumOfFive(a: seq<byte>, b: seq<byte>, c: seq<byte>, d: seq<byte>, e: seq<byte>)
    requires |a| == 4 && |b| == 4 && |c| == 4 && |d| == 4
    ensures WordSum(a + (b + (c + (d + e)))) == WordSum(a) + WordSum(b) + WordSum(c) + WordSum(d) + WordSum(e)
  {
    WordSumConcat(a, b + (c + (d + e)));
    WordSumConcat(b, c + (d + e));
    WordSumConcat(c, d + e);
    WordSumConcat(d, e);
  }

  /** A complete and valid IP header without options. */
  ghost predicate HasProperHeader(f: seq<byte>, length: nat, protocol: byte, src: Ip, dst: Ip)
  {
    && |f| >= IP_HEADER_SIZE && NetworkWord(f, MAC_TYPE) == MAC_TYPE_IP4
    && f[MAC_HEADER_SIZE] == 0x45 && HeaderVerifies(f)
    && NetworkWord(f, IP_LENGTH) == length && f[IP_PROTOCOL] == protocol
    && IpAt(f, IP_SRC) == src && IpAt(f, IP_DEST) == dst
  }

  lemma SampleIsProper(length: byte, protocol: byte, payload: seq<byte>)
    requires length + protocol <= 0xFC
    ensures var f := SampleFrame(length, protocol, payload);
            HasProperHeader(f, length, protocol, SENDER, RECEIVER) && f[IP_HEADER_SIZE..] == payload
  {
    var f, h := SampleFrame(length, protocol, payload), SampleHeader(length, protocol);
    assert IpHeader(f) == h;
    assert f[IP_LENGTH] == h[2] && f[IP_LENGTH + 1] == h[3] && f[IP_PROTOCOL] == h[9];
    assert IpAt(f, IP_SRC) == h[12..16] && IpAt(f, IP_DEST) == h[16..20];
    SampleHeaderVerifies(length, protocol);
  }

  lemma PartOfSlice(s: seq<byte>, lo: nat, mid: nat, hi: nat)
    requires lo <= mid <= hi <= |s|
    ensures s[lo..hi][..mid - lo] == s[lo..mid]
  {
  }

  lemma PayloadWord(f: seq<byte>, payload: seq<byte>, at: nat)
    requires |f| >= IP_HEADER_SIZE && f[IP_HEADER_SIZE..] == payload && at + 2 <= |payload|
    ensures NetworkWord(f, IP_HEADER_SIZE + at) == NetworkWord(payload, at)
  {
    assert f[IP_HEADER_SIZE + at] == payload[at] && f[IP_HEADER_SIZE + at + 1] == payload[at + 1];
  }

  lemma WordSumOfEight(s: seq<byte>)
    requires |s| >= 8
    ensures WordSum(s)
         == (Word(s[0], s[1]) + Word(s[2], s[3])) + (Word(s[4], s[5]) + Word(s[6], s[7])) + WordSum(s[8..])
  {
    var a, b, c := s[..4], s[4..8], s[8..];
    assert s == a + (b + c);
    WordSumConcat(a, b + c);
    WordSumConcat(b, c);
    WordSumOfFour(a);
    WordSumOfFour(b);
  }

  /** A segment between the two hosts is valid when its sum and that of its pseudo-header are all ones. */
  lemma SampleSegmentVerifies(protocol: byte, segment: seq<byte>, wraps: nat)
    requires |segment| <= 65534
    requires 0x1403 + protocol + |segment| + WordSum(segment) == 0xFFFF + 0xFFFF * wraps
    ensures Verifies(protocol, SENDER, RECEIVER, segment)
    ensures HighWords(SENDER, RECEIVER) == 0
  {
    CoveredWordSum(protocol, SENDER, RECEIVER, segment);
    WordSumOfFour(SENDER);
    WordSumOfFour(RECEIVER);
    DeferredCarries(Covered(protocol, SENDER, RECEIVER, segment));
    FoldIs(WordSum(Covered(protocol, SENDER, RECEIVER, segment)), 0xFFFF, wraps);
  }
}
