/** ICMP echo (RFC 792), answered in place over the fixed 98-byte structure. */
module Icmp {
  import opened Machine
  import opened Addresses
  import opened OnesComplement
  import opened Checksum
  import opened Frame
  import opened IpReply
  import opened Samples

  const ICMP_TYPE := 34
  const ICMP_CODE := 35
  const ICMP_CHECKSUM := 36
  const ICMP_ID := 38
  const ICMP_HEADER_SIZE := 98
  const ICMP_MESSAGE_SIZE := 64
  const ICMP_DEFAULT_HEADER_LENGTH := 8
  const ICMP_TYPE_ECHO_REQUEST: byte := 8
  const ICMP_TYPE_ECHO_REPLY: byte := 0
  const ICMP_CODE_ECHO_REPLY: byte := 0

  /** The 64 bytes the reply's checksum covers: type and code zero, identifier to data as received. */
  function Message(f: seq<byte>, checksum: u16): (r: seq<byte>)
    requires |f| >= ICMP_HEADER_SIZE
    ensures |r| == ICMP_MESSAGE_SIZE
  {
    [ICMP_TYPE_ECHO_REPLY, ICMP_CODE_ECHO_REPLY, checksum / 0x100, checksum % 0x100] + f[ICMP_ID..ICMP_HEADER_SIZE]
  }

  /** The echo reply: addresses turned round, a fresh message checksum, everything else as received. */
  function EchoReply(f: seq<byte>, host: HostConfig): (r: seq<byte>)
    requires |f| >= ICMP_HEADER_SIZE
    ensures |r| == |f|
  {
    Turned(f, host)[..IP_HEADER_SIZE] + Message(f, RfcChecksum(Message(f, 0))) + f[ICMP_HEADER_SIZE..]
  }

  predicate IsEchoRequest(f: seq<byte>, length: nat)
    requires length <= |f|
  {
    length >= ICMP_HEADER_SIZE && f[ICMP_TYPE] == ICMP_TYPE_ECHO_REQUEST && f[ICMP_CODE] == 0
  }

  method Decode(host: HostConfig, length: u16, packet: array<byte>) returns (reply: u16)
    requires length <= packet.Length
    modifies packet
    ensures reply == if IsEchoRequest(old(packet[..]), length) then ICMP_HEADER_SIZE else 0
    ensures packet[..] == if IsEchoRequest(old(packet[..]), length) then EchoReply(old(packet[..]), host)
                          else old(packet[..])
  {
    if length < ICMP_HEADER_SIZE {
      return 0;
    }
    if packet[ICMP_TYPE] == ICMP_TYPE_ECHO_REQUEST {
      if packet[ICMP_CODE] == 0 {
        reply := Reply(host, packet);
        return;
      }
    }
    return 0;
  }

  method Reply(host: HostConfig, packet: array<byte>) returns (reply: u16)
    requires packet.Length >= ICMP_HEADER_SIZE
    modifies packet
    ensures packet[..] == EchoReply(old(packet[..]), host)
    ensures reply == ICMP_HEADER_SIZE
  {
    ghost var f := packet[..];
    TurnAddresses(host, packet);
    Put(packet, ICMP_CODE, [ICMP_TYPE_ECHO_REPLY]);
    Put(packet, ICMP_TYPE, [ICMP_CODE_ECHO_REPLY]);
    PutNetworkWord(packet, ICMP_CHECKSUM, 0);
    ClearedForChecksum(f, host);
    ghost var g := packet[..];
    var c := InternetChecksum(ICMP_MESSAGE_SIZE, packet, ICMP_TYPE);
    assert packet[ICMP_TYPE..ICMP_TYPE + ICMP_MESSAGE_SIZE] == Message(f, 0);
    RoutineIsRfcChecksum(Message(f, 0), 0);
    PutNetworkWord(packet, ICMP_CHECKSUM, c);
    ChecksumStored(f, host, g, c);
    reply := ICMP_HEADER_SIZE;
  }

  /** The frame just before its checksum is computed. */
  lemma ClearedForChecksum(f: seq<byte>, host: HostConfig)
    requires |f| >= ICMP_HEADER_SIZE
    ensures var t := Turned(f, host);
            Splice(Splice(Splice(t, ICMP_CODE, [0]), ICMP_TYPE, [0]), ICMP_CHECKSUM, [0, 0])
            == t[..IP_HEADER_SIZE] + Message(f, 0) + f[ICMP_HEADER_SIZE..]
  {
    var t := Turned(f, host);
    var t2 := Splice(Splice(t, ICMP_CODE, [0]), ICMP_TYPE, [0]);
    assert t2 == t[..IP_HEADER_SIZE] + [0, 0] + t[ICMP_CHECKSUM..];
    var t3 := Splice(t2, ICMP_CHECKSUM, [0, 0]);
    assert t3 == t[..IP_HEADER_SIZE] + [0, 0, 0, 0] + t[ICMP_ID..];
    assert t[ICMP_ID..] == f[ICMP_ID..] == f[ICMP_ID..ICMP_HEADER_SIZE] + f[ICMP_HEADER_SIZE..];
  }

  lemma ChecksumStored(f: seq<byte>, host: HostConfig, g: seq<byte>, c: u16)
    requires |f| >= ICMP_HEADER_SIZE
    requires g == Turned(f, host)[..IP_HEADER_SIZE] + Message(f, 0) + f[ICMP_HEADER_SIZE..]
    ensures |g| == |f|
    ensures Splice(g, ICMP_CHECKSUM, [c / 0x100, c % 0x100])
         == Turned(f, host)[..IP_HEADER_SIZE] + Message(f, c) + f[ICMP_HEADER_SIZE..]
  {
    var front := Turned(f, host)[..IP_HEADER_SIZE];
    assert g == front + [0, 0, 0, 0] + f[ICMP_ID..ICMP_HEADER_SIZE] + f[ICMP_HEADER_SIZE..];
  }

  /** The message checksum of every reply verifies. */
  lemma ReplyMessageVerifies(f: seq<byte>, host: HostConfig)
    requires |f| >= ICMP_HEADER_SIZE
    ensures RfcChecksum(EchoReply(f, host)[ICMP_TYPE..ICMP_HEADER_SIZE]) == 0
  {
    var m := Message(f, 0);
    var c := RfcChecksum(m);
    StoredChecksumVerifies(m, 2);
    assert Splice(m, 2, [c / 0x100, c % 0x100]) == Message(f, c);
    assert EchoReply(f, host)[ICMP_TYPE..ICMP_HEADER_SIZE] == Message(f, c);
  }

  /**
   * `r` answers the request `f`, both taken to end at `end`: returned to its sender, type and code zero,
   * identifier to data as received, header and message checksums valid.
   */
  ghost predicate Answers(r: seq<byte>, f: seq<byte>, host: HostConfig, end: nat)
    requires ICMP_ID <= end <= |f| && end <= |r|
  {
    && MacAt(r, MAC_DEST) == MacAt(f, MAC_SRC) && MacAt(r, MAC_SRC) == host.mac
    && IpAt(r, IP_DEST) == IpAt(f, IP_SRC) && IpAt(r, IP_SRC) == IpAt(f, IP_DEST)
    && r[MAC_TYPE..IP_SRC] == f[MAC_TYPE..IP_SRC]
    && HeaderVerifies(r)
    && r[ICMP_TYPE] == 0 && r[ICMP_CODE] == 0
    && r[ICMP_ID..end] == f[ICMP_ID..end]
    && RfcChecksum(r[ICMP_TYPE..end]) == 0
  }

  /** Taken as the 98-byte exchange the code is written for, every reply answers its request. */
  lemma EchoReplyIsValid(f: seq<byte>, host: HostConfig)
    requires |f| >= ICMP_HEADER_SIZE && f[MAC_HEADER_SIZE] != 0
    requires HeaderVerifies(f) && IpAt(f, IP_DEST) == host.ip
    ensures Answers(EchoReply(f, host), f, host, ICMP_HEADER_SIZE)
    ensures EchoReply(f, host)[ICMP_HEADER_SIZE..] == f[ICMP_HEADER_SIZE..]
  {
    var r, t := EchoReply(f, host), Turned(f, host);
    ReplyMessageVerifies(f, host);
    TurnedHeaderVerifies(f, host);
    assert IpHeader(r) == IpHeader(t);
    assert r[..IP_HEADER_SIZE] == t[..IP_HEADER_SIZE];
    assert MacAt(r, MAC_DEST) == MacAt(t, MAC_DEST) && MacAt(r, MAC_SRC) == MacAt(t, MAC_SRC);
    assert IpAt(r, IP_DEST) == IpAt(t, IP_DEST) && IpAt(r, IP_SRC) == IpAt(t, IP_SRC);
    assert r[MAC_TYPE..IP_SRC] == t[MAC_TYPE..IP_SRC] == f[MAC_TYPE..IP_SRC];
    assert r[ICMP_ID..] == f[ICMP_ID..ICMP_HEADER_SIZE] + f[ICMP_HEADER_SIZE..];
  }

  // ---------- the datagram the IP header declares ----------

  /** Where the datagram that the IP header declares ends in the frame. */
  function DeclaredEnd(f: seq<byte>): (end: nat)
    requires |f| >= IP_HEADER_SIZE
  {
    MAC_HEADER_SIZE + NetworkWord(f, IP_LENGTH)
  }

  /** The frame sent: the first 98 bytes of the buffer. */
  function Sent(f: seq<byte>, host: HostConfig): (r: seq<byte>)
    requires |f| >= ICMP_HEADER_SIZE
    ensures |r| == ICMP_HEADER_SIZE
  {
    EchoReply(f, host)[..ICMP_HEADER_SIZE]
  }

  /** The reply of RFC 792: it holds the datagram it declares, which answers the whole request. */
  ghost predicate IsEchoReplyTo(r: seq<byte>, f: seq<byte>, host: HostConfig)
    requires |f| >= IP_HEADER_SIZE && |r| >= IP_HEADER_SIZE
  {
    && DeclaredEnd(r) == DeclaredEnd(f) <= |r|
    && ICMP_TYPE + ICMP_DEFAULT_HEADER_LENGTH <= DeclaredEnd(f) <= |f|
    && Answers(r, f, host, DeclaredEnd(f))
  }

  /** The word sum of what the 64-byte checksum covers beyond the declared message. */
  function TrailingSum(f: seq<byte>): (t: nat)
    requires |f| >= ICMP_HEADER_SIZE && DeclaredEnd(f) <= ICMP_HEADER_SIZE
  {
    var trailing := f[DeclaredEnd(f)..ICMP_HEADER_SIZE];
    WordSum(if DeclaredEnd(f) % 2 == 0 then trailing else [0] + trailing)
  }

  /** Trailing bytes that leave the checksum valid: none set, or a multiple of 0xFFFF after data with a bit set. */
  predicate TrailingHarmless(f: seq<byte>)
    requires |f| >= ICMP_HEADER_SIZE && ICMP_ID <= DeclaredEnd(f) <= ICMP_HEADER_SIZE
  {
    TrailingSum(f) == 0 || (TrailingSum(f) % 0xFFFF == 0 && WordSum(f[ICMP_ID..DeclaredEnd(f)]) > 0)
  }

  /** Exactly the requests whose reply is the reply of RFC 792. */
  predicate Repliable(f: seq<byte>)
    requires |f| >= ICMP_HEADER_SIZE
  {
    && ICMP_TYPE + ICMP_DEFAULT_HEADER_LENGTH <= DeclaredEnd(f) <= ICMP_HEADER_SIZE
    && TrailingHarmless(f)
  }

  lemma SentDeclares(f: seq<byte>, host: HostConfig)
    requires |f| >= ICMP_HEADER_SIZE
    ensures DeclaredEnd(Sent(f, host)) == DeclaredEnd(f)
  {
    var r := Sent(f, host);
    assert r[MAC_TYPE..IP_SRC] == f[MAC_TYPE..IP_SRC];
    assert r[MAC_TYPE..IP_SRC][4] == f[MAC_TYPE..IP_SRC][4] && r[MAC_TYPE..IP_SRC][5] == f[MAC_TYPE..IP_SRC][5];
  }

  lemma SentMessage(f: seq<byte>, host: HostConfig, end: nat)
    requires |f| >= ICMP_HEADER_SIZE && ICMP_ID <= end <= ICMP_HEADER_SIZE
    ensures Sent(f, host)[ICMP_TYPE..end] == Message(f, RfcChecksum(Message(f, 0)))[..end - ICMP_TYPE]
  {
    assert Sent(f, host)[ICMP_TYPE..] == Message(f, RfcChecksum(Message(f, 0)));
  }

  /** The sum of a message is its checksum and its data. */
  lemma MessageSum(f: seq<byte>, checksum: u16, end: nat)
    requires |f| >= ICMP_HEADER_SIZE && ICMP_ID <= end <= ICMP_HEADER_SIZE
    ensures WordSum(Message(f, checksum)[..end - ICMP_TYPE]) == checksum + WordSum(f[ICMP_ID..end])
  {
    var front: seq<byte> := [ICMP_TYPE_ECHO_REPLY, ICMP_CODE_ECHO_REPLY, checksum / 0x100, checksum % 0x100];
    assert Message(f, checksum)[..end - ICMP_TYPE] == front + f[ICMP_ID..end];
    WordSumConcat(front, f[ICMP_ID..end]);
    WordSumOfFour(front);
  }

  lemma DataSum(f: seq<byte>)
    requires |f| >= ICMP_HEADER_SIZE && ICMP_ID <= DeclaredEnd(f) <= ICMP_HEADER_SIZE
    ensures WordSum(f[ICMP_ID..ICMP_HEADER_SIZE]) == WordSum(f[ICMP_ID..DeclaredEnd(f)]) + TrailingSum(f)
  {
    var data, k := f[ICMP_ID..ICMP_HEADER_SIZE], DeclaredEnd(f) - ICMP_ID;
    WordSumSplit(data, k);
    assert data[..k] == f[ICMP_ID..DeclaredEnd(f)] && data[k..] == f[DeclaredEnd(f)..ICMP_HEADER_SIZE];
  }

  /** A checksum over data and trailer verifies over the data alone exactly when the trailer is harmless. */
  lemma ChecksumOfPart(data: nat, trailing: nat, c: u16)
    requires c == 0xFFFF - Fold(data + trailing)
    ensures Fold(c + data) == 0xFFFF <==> trailing == 0 || (trailing % 0xFFFF == 0 && data > 0)
  {
    var q := FoldForm(data + trailing);
    var p := FoldForm(c + data);
    assert c + data == 0xFFFF * (q + 1) - trailing;
    if Fold(c + data) == 0xFFFF {
      assert trailing == 0xFFFF * (q - p);
      Multiple(q - p);
    } else if trailing % 0xFFFF == 0 && (trailing == 0 || data > 0) {
      var k := trailing / 0xFFFF;
      assert c + data == 0xFFFF + 0xFFFF * (q - k);
      FoldIs(c + data, 0xFFFF, q - k);
    }
  }

  lemma DeclaredMessageVerifies(f: seq<byte>, host: HostConfig)
    requires |f| >= ICMP_HEADER_SIZE && ICMP_ID <= DeclaredEnd(f) <= ICMP_HEADER_SIZE
    ensures RfcChecksum(Sent(f, host)[ICMP_TYPE..DeclaredEnd(f)]) == 0 <==> TrailingHarmless(f)
  {
    var end, c := DeclaredEnd(f), RfcChecksum(Message(f, 0));
    SentMessage(f, host, end);
    MessageSum(f, c, end);
    MessageSum(f, 0, ICMP_HEADER_SIZE);
    assert Message(f, 0)[..ICMP_MESSAGE_SIZE] == Message(f, 0);
    DataSum(f);
    DeferredCarries(Message(f, 0));
    DeferredCarries(Sent(f, host)[ICMP_TYPE..end]);
    ChecksumOfPart(WordSum(f[ICMP_ID..end]), TrailingSum(f), c);
  }

  /** What is in the first 98 bytes of an answer stays there when the rest is cut off. */
  lemma AnswersCut(r: seq<byte>, f: seq<byte>, host: HostConfig, end: nat)
    requires ICMP_ID <= end <= ICMP_HEADER_SIZE <= |f| && |r| == |f|
    requires Answers(r, f, host, ICMP_HEADER_SIZE)
    ensures Answers(r[..ICMP_HEADER_SIZE], f, host, end)
       <==> RfcChecksum(r[..ICMP_HEADER_SIZE][ICMP_TYPE..end]) == 0
  {
    var s := r[..ICMP_HEADER_SIZE];
    assert MacAt(s, MAC_DEST) == MacAt(r, MAC_DEST) && MacAt(s, MAC_SRC) == MacAt(r, MAC_SRC);
    assert IpAt(s, IP_DEST) == IpAt(r, IP_DEST) && IpAt(s, IP_SRC) == IpAt(r, IP_SRC);
    assert s[MAC_TYPE..IP_SRC] == r[MAC_TYPE..IP_SRC] && IpHeader(s) == IpHeader(r);
    PartOfSlice(r, ICMP_ID, end, ICMP_HEADER_SIZE);
    PartOfSlice(f, ICMP_ID, end, ICMP_HEADER_SIZE);
    PartOfSlice(r, 0, end, ICMP_HEADER_SIZE);
    assert s[ICMP_ID..end] == r[ICMP_ID..end];
  }

  /**
   * The 98 bytes sent hold the datagram they declare exactly for an IP length of at most 84; they are the
   * reply of RFC 792 at 84, and below it exactly when the trailing bytes are harmless.
   */
  lemma ReplyIsExact(f: seq<byte>, host: HostConfig)
    requires |f| >= ICMP_HEADER_SIZE && f[MAC_HEADER_SIZE] != 0
    requires HeaderVerifies(f) && IpAt(f, IP_DEST) == host.ip
    ensures DeclaredEnd(Sent(f, host)) <= |Sent(f, host)| <==> NetworkWord(f, IP_LENGTH) <= 84
    ensures IsEchoReplyTo(Sent(f, host), f, host) <==> Repliable(f)
    ensures NetworkWord(f, IP_LENGTH) == 84 ==> Repliable(f)
  {
    SentDeclares(f, host);
    if ICMP_ID <= DeclaredEnd(f) <= ICMP_HEADER_SIZE {
      EchoReplyIsValid(f, host);
      AnswersCut(EchoReply(f, host), f, host, DeclaredEnd(f));
      DeclaredMessageVerifies(f, host);
    }
  }

  // ---------- requests that are not answered as RFC 792 asks ----------

  /** A well-formed request: complete, unfragmented header, for this host, with both checksums valid. */
  ghost predicate IsProperRequest(f: seq<byte>, host: HostConfig)
  {
    && |f| >= ICMP_HEADER_SIZE && IsEchoRequest(f, |f|) && f[MAC_HEADER_SIZE] == 0x45
    && HeaderVerifies(f) && IpAt(f, IP_DEST) == host.ip
    && ICMP_TYPE + ICMP_DEFAULT_HEADER_LENGTH <= DeclaredEnd(f) <= |f|
    && RfcChecksum(f[ICMP_TYPE..DeclaredEnd(f)]) == 0
  }

  /** A request of the IP length given, all-zero data, and one last byte in the frame. */
  function SampleRequest(length: byte, zeros: nat, last: byte): (f: seq<byte>)
    requires length <= 0xFB
    ensures |f| == zeros + 39
  {
    SampleFrame(length, IP_PROTOCOL_ICMP, SampleMessage(zeros, last))
  }

  function SampleMessage(zeros: nat, last: byte): (m: seq<byte>)
    ensures |m| == zeros + 5 && m[..4] == [8, 0, 0xF7, 0xFF] && m[|m| - 1] == last
    ensures forall i :: 4 <= i < |m| - 1 ==> m[i] == 0
  {
    [8, 0, 0xF7, 0xFF] + seq(zeros, _ => 0) + [last]
  }

  lemma SampleMessageVerifies(s: seq<byte>)
    requires |s| >= 4 && s[..4] == [8, 0, 0xF7, 0xFF] && forall i :: 4 <= i < |s| ==> s[i] == 0
    ensures RfcChecksum(s) == 0
  {
    assert s == s[..4] + s[4..];
    WordSumConcat(s[..4], s[4..]);
    WordSumOfFour(s[..4]);
    WordSumOfZeros(s[4..]);
    DeferredCarries(s);
  }

  lemma SampleRequestIsProper(length: byte, zeros: nat, last: byte, host: HostConfig)
    requires length <= 0xFB && host.ip == RECEIVER
    requires zeros >= 59 && 28 <= length <= zeros + 25 && (last == 0 || length < zeros + 25)
    ensures var f := SampleRequest(length, zeros, last);
            && IsProperRequest(f, host) && DeclaredEnd(f) == 14 + length
            && f[|f| - 1] == last && forall i :: 14 + length <= i < |f| - 1 ==> f[i] == 0
  {
    var f, m := SampleRequest(length, zeros, last), SampleMessage(zeros, last);
    SampleIsProper(length, IP_PROTOCOL_ICMP, m);
    assert forall i :: IP_HEADER_SIZE <= i < |f| ==> f[i] == f[IP_HEADER_SIZE..][i - IP_HEADER_SIZE];
    assert m[..4][0] == 8 && m[..4][1] == 0;
    var declared := f[ICMP_TYPE..14 + length];
    assert declared == m[..length - 20];
    PartOfSlice(m, 0, 4, length - 20);
    SampleMessageVerifies(declared);
  }

  /** Proper requests of IP length above 84, all of them sent: the 98 bytes of the reply declare more. */
  lemma LongRequestIsCutShort(length: byte, host: HostConfig)
    requires 84 < length <= 0xFB && host.ip == RECEIVER
    ensures var f := SampleRequest(length, length - 25, 0);
            && |f| == 14 + length && IsProperRequest(f, host)
            && DeclaredEnd(Sent(f, host)) > |Sent(f, host)| && !IsEchoReplyTo(Sent(f, host), f, host)
  {
    SampleRequestIsProper(length, length - 25, 0, host);
    SentDeclares(SampleRequest(length, length - 25, 0), host);
  }

  /** Proper requests of IP length below 84 in a frame of 98 bytes that ends in a 1: the checksum sent is wrong. */
  lemma TrailingByteSpoilsReply(length: byte, host: HostConfig)
    requires 28 <= length < 84 && host.ip == RECEIVER
    ensures var f := SampleRequest(length, 59, 1);
            && |f| == ICMP_HEADER_SIZE && IsProperRequest(f, host) && !IsEchoReplyTo(Sent(f, host), f, host)
            && RfcChecksum(Sent(f, host)[ICMP_TYPE..DeclaredEnd(f)]) != 0
  {
    SampleRequestIsProper(length, 59, 1, host);
    SpoiledByOne(SampleRequest(length, 59, 1), host);
  }

  lemma SpoiledByOne(f: seq<byte>, host: HostConfig)
    requires |f| == ICMP_HEADER_SIZE && ICMP_ID <= DeclaredEnd(f) < ICMP_HEADER_SIZE
    requires f[|f| - 1] == 1 && forall i :: DeclaredEnd(f) <= i < |f| - 1 ==> f[i] == 0
    ensures RfcChecksum(Sent(f, host)[ICMP_TYPE..DeclaredEnd(f)]) != 0 && !IsEchoReplyTo(Sent(f, host), f, host)
  {
    var trailing := f[DeclaredEnd(f)..ICMP_HEADER_SIZE];
    TrailingOne(if DeclaredEnd(f) % 2 == 0 then trailing else [0] + trailing);
    DeclaredMessageVerifies(f, host);
    SentDeclares(f, host);
  }

  lemma TrailingOne(s: seq<byte>)
    requires |s| % 2 == 0 && |s| > 0 && s[|s| - 1] == 1 && forall i :: 0 <= i < |s| - 1 ==> s[i] == 0
    ensures WordSum(s) == 1
  {
    var k := |s| - 2;
    assert s == s[..k] + s[k..];
    WordSumConcat(s[..k], s[k..]);
    WordSumOfZeros(s[..k]);
    assert s[k..] == [0, 1];
  }
}
