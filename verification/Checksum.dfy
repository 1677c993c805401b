/**
 * The checksum routines as the target runs them, and when they compute the Internet checksum.
 * `ip_checksum` and `icmp_checksum` share one body, as do `udp_checksum` and `tcp_checksum`.
 */
module Checksum {
  import opened Machine
  import opened OnesComplement

  const IP_PROTOCOL_ICMP := 1
  const IP_PROTOCOL_UDP := 17

  // ---------- the plain routine ----------

  /**
   * The accumulator before folding. An odd range reads the byte after its end twice: as the low
   * half of its last word and, again, as the high half of the padding word.
   */
  function RoutineSum(s: seq<byte>, next: byte): (r: nat)
  {
    WordSum(s) + if |s| % 2 == 1 then 0x101 * next else 0
  }

  function RoutineChecksum(s: seq<byte>, next: byte): (r: u16)
  {
    0xFFFF - Fold(RoutineSum(s, next))
  }

  /** The byte that follows a range, looked at only when the range has odd length. */
  function Following(s: seq<byte>, base: nat, length: nat): (r: byte)
    requires base + length + length % 2 <= |s|
  {
    if length % 2 == 1 then s[base + length] else 0
  }

  /** Fold the carries in, then `return (uint16_t)(~sum);`. */
  method FoldAndComplement(total: u32) returns (c: u16)
    ensures c == 0xFFFF - Fold(total)
  {
    var sum: u32 := total;
    while sum / 0x1_0000 != 0
      invariant Fold(sum) == Fold(total)
      decreases sum
    {
      sum := sum % 0x1_0000 + sum / 0x1_0000;
    }
    sum := 0xFFFF_FFFF - sum;
    c := sum % 0x1_0000;
  }

  /** The first `k` words from offset `at`, added up from the left. */
  function PrefixSum(s: seq<byte>, at: nat, k: nat): (r: nat)
    requires at + 2 * k <= |s|
    ensures r <= 0xFFFF * k
  {
    if k == 0 then 0 else PrefixSum(s, at, k - 1) + Word(s[at + 2 * k - 2], s[at + 2 * k - 1])
  }

  lemma {:induction false} PrefixSumIsWordSum(s: seq<byte>, at: nat, k: nat)
    requires at + 2 * k <= |s|
    ensures PrefixSum(s, at, k) == WordSum(s[at..at + 2 * k])
  {
    if k > 0 {
      PrefixSumIsWordSum(s, at, k - 1);
      var tail := [s[at + 2 * k - 2], s[at + 2 * k - 1]];
      assert s[at..at + 2 * k] == s[at..at + 2 * k - 2] + tail;
      WordSumConcat(s[at..at + 2 * k - 2], tail);
    }
  }

  /** The word loop of an odd range runs one byte past its end. */
  lemma OddTail(s: seq<byte>, at: nat, length: nat)
    requires length % 2 == 1 && at + length + 1 <= |s|
    ensures WordSum(s[at..at + length + 1]) == WordSum(s[at..at + length]) + s[at + length]
  {
    var even, last := s[at..at + length - 1], [s[at + length - 1]];
    assert s[at..at + length + 1] == even + (last + [s[at + length]]);
    assert s[at..at + length] == even + last;
    WordSumConcat(even, last + [s[at + length]]);
    WordSumConcat(even, last);
  }

  lemma AccumulatorIsRoutineSum(s: seq<byte>, at: nat, length: nat, k: nat)
    requires at + length + length % 2 <= |s| && 2 * k == length + length % 2
    ensures PrefixSum(s, at, k) + (if length % 2 == 1 then Word(s[at + length], 0) else 0)
         == RoutineSum(s[at..at + length], Following(s, at, length))
  {
    PrefixSumIsWordSum(s, at, k);
    if length % 2 == 1 {
      OddTail(s, at, length);
    }
  }

  /** The loop counter, a uint16_t, after so many rounds. */
  function CounterAfter(rounds: nat): (i: u16)
  {
    if rounds == 0 then 0 else var i := CounterAfter(rounds - 1); if i + 2 < 0x1_0000 then i + 2 else i + 2 - 0x1_0000
  }

  lemma {:induction false} CounterIsEven(rounds: nat)
    ensures CounterAfter(rounds) % 2 == 0
    ensures rounds < 0x8000 ==> CounterAfter(rounds) == 2 * rounds
  {
    if rounds > 0 {
      CounterIsEven(rounds - 1);
    }
  }

  /** `for(i = 0; i < length; i += 2)` comes to an end for every length but 65535. */
  lemma WordLoopEnds(length: u16)
    ensures (exists rounds: nat :: CounterAfter(rounds) >= length) <==> length != 0xFFFF
  {
    if length != 0xFFFF {
      CounterIsEven((length + 1) / 2);
    } else {
      forall rounds: nat ensures CounterAfter(rounds) < length {
        CounterIsEven(rounds);
      }
    }
  }

  /**
   * The word loop shared by all four routines, with the padding step; it never overflows. Ghost `end` is
   * one past the last byte read.
   */
  method AddWords(start: u32, packet: array<byte>, base: nat, length: u16) returns (sum: u32, ghost end: nat)
    requires length <= 65534 && base + length + length % 2 <= packet.Length
    requires start <= 0xFFFF
    ensures sum == start + RoutineSum(packet[base..base + length], Following(packet[..], base, length))
    ensures end == base + length + length % 2
  {
    ghost var memory, k := packet[..], 0;
    sum, end := start, base;
    var i: u16 := 0;
    while i < length
      invariant i == 2 * k && i <= length + length % 2
      invariant sum == start + PrefixSum(memory, base, k)
      invariant end == base + i
    {
      sum, end := sum + (Word(packet[base + i], 0) + packet[base + i + 1]), base + i + 2;
      i, k := i + 2, k + 1;
    }
    if length % 2 == 1 {
      assert base + length < end;
      sum := sum + Word(packet[base + length], 0);
    }
    AccumulatorIsRoutineSum(memory, base, length, k);
    assert packet[base..base + length] == memory[base..base + length];
  }

  method InternetChecksum(length: u16, packet: array<byte>, base: nat) returns (c: u16)
    requires length <= 65534 && base + length + length % 2 <= packet.Length
    ensures c == RoutineChecksum(packet[base..base + length], Following(packet[..], base, length))
    ensures Following(packet[..], base, length) == 0 ==> c == RfcChecksum(packet[base..base + length])
  {
    RoutineIsRfcChecksum(packet[base..base + length], Following(packet[..], base, length));
    var sum, _ := AddWords(0, packet, base, length);
    c := FoldAndComplement(sum);
  }

  /** Exactly when the routine computes the zero-padded Internet checksum. */
  lemma RoutineIsRfcChecksum(s: seq<byte>, next: byte)
    ensures RoutineChecksum(s, next) == RfcChecksum(s)
       <==> |s| % 2 == 0 || next == 0 || (next == 0xFF && WordSum(s) != 0)
  {
    DeferredCarries(s);
    if |s| % 2 == 1 && next != 0 {
      if Fold(RoutineSum(s, next)) == Fold(WordSum(s)) {
        var k := SameFold(RoutineSum(s, next), WordSum(s));
        NoMultipleBetween(0x101 * next, k);
      }
      var q := FoldForm(WordSum(s));
      var p := FoldForm(RoutineSum(s, next));
      if next == 0xFF && WordSum(s) != 0 {
        FoldIs(RoutineSum(s, next), Fold(WordSum(s)), q + 1);
      }
    }
  }

  lemma NoMultipleBetween(x: int, k: int)
    requires 0 < x < 0x1_FFFE && x == 0xFFFF * k
    ensures x == 0xFFFF
  {
  }

  /** A checksum written into a zeroed, word-aligned field makes the whole range verify. */
  lemma StoredChecksumVerifies(s: seq<byte>, at: nat)
    requires at % 2 == 0 && at + 2 <= |s|
    requires s[at] == 0 && s[at + 1] == 0
    ensures var c := RfcChecksum(s);
            RfcChecksum(Splice(s, at, [c / 0x100, c % 0x100])) == 0
  {
    var c := RfcChecksum(s);
    var t := Splice(s, at, [c / 0x100, c % 0x100]);
    ReplaceWord(s, at, c / 0x100, c % 0x100);
    assert WordSum(t) == WordSum(s) + c;
    DeferredCarries(s);
    DeferredCarries(t);
    var q := FoldForm(WordSum(s));
    FoldIs(WordSum(t), 0xFFFF, q);
  }

  lemma SplitAtWord(s: seq<byte>, at: nat)
    requires at % 2 == 0 && at + 2 <= |s|
    ensures WordSum(s) == WordSum(s[..at]) + Word(s[at], s[at + 1]) + WordSum(s[at + 2..])
  {
    assert s == s[..at] + s[at..];
    WordSumConcat(s[..at], s[at..]);
    assert s[at..][2..] == s[at + 2..];
  }

  lemma ReplaceWord(s: seq<byte>, at: nat, hi: byte, lo: byte)
    requires at % 2 == 0 && at + 2 <= |s|
    ensures WordSum(Splice(s, at, [hi, lo])) == WordSum(s) - Word(s[at], s[at + 1]) + Word(hi, lo)
  {
    var t := Splice(s, at, [hi, lo]);
    assert t[..at] == s[..at] && t[at + 2..] == s[at + 2..];
    SplitAtWord(s, at);
    SplitAtWord(t, at);
  }

  // ---------- the routine with a pseudo-header ----------

  /** Source, destination, zero, protocol and length, as RFC 768 and RFC 793 lay them out. */
  function PseudoHeader(src: seq<byte>, dst: seq<byte>, protocol: byte, length: u16): (r: seq<byte>)
    requires |src| == 4 && |dst| == 4
  {
    src + dst + [0, protocol, length / 0x100, length % 0x100]
  }

  function Covered(protocol: byte, src: seq<byte>, dst: seq<byte>, segment: seq<byte>): (r: seq<byte>)
    requires |src| == 4 && |dst| == 4 && |segment| <= 65534
  {
    PseudoHeader(src, dst, protocol, |segment|) + segment
  }

  /** `(addr[i] << 8) + addr[i + 1]` in a 16-bit int, unmasked: negative from 0x8000 up. */
  function AddressTerm(hi: byte, lo: byte): (r: int)
  {
    if hi < 0x80 then Word(hi, lo) else Word(hi, lo) - 0x1_0000
  }

  function TermsUpTo(a: seq<byte>, i: nat): (r: int)
    requires |a| == 4
  {
    (if i >= 2 then AddressTerm(a[0], a[1]) else 0) + (if i >= 4 then AddressTerm(a[2], a[3]) else 0)
  }

  function AddressTerms(a: seq<byte>): (r: int)
    requires |a| == 4
    ensures -0x1_0000 <= r < 0x1_0000
  {
    TermsUpTo(a, 4)
  }

  lemma ToU32Adds(a: int, t: int)
    requires -0x8_0000 <= a < 0x1_0004_0000 && -0x8000 <= t < 0x1_0000
    ensures ToU32(ToU32(a) + t) == ToU32(a + t)
  {
  }

  /** How many of the four address words are sign-extended. */
  function HighWords(src: seq<byte>, dst: seq<byte>): (r: nat)
    requires |src| == 4 && |dst| == 4
  {
    (if src[0] < 0x80 then 0 else 1) + (if src[2] < 0x80 then 0 else 1) +
    (if dst[0] < 0x80 then 0 else 1) + (if dst[2] < 0x80 then 0 else 1)
  }

  /** The accumulator before folding, modulo 2^32; the length and protocol are added in 16 bits. */
  function TransportSum(protocol: byte, src: seq<byte>, dst: seq<byte>, segment: seq<byte>, next: byte): (r: u32)
    requires |src| == 4 && |dst| == 4 && |segment| <= 65534
  {
    WordSumBound(segment);
    ToU32(ToU16(|segment| + protocol) + RoutineSum(segment, next) + AddressTerms(src) + AddressTerms(dst))
  }

  function TransportChecksum(protocol: byte, src: seq<byte>, dst: seq<byte>, segment: seq<byte>, next: byte): (r: u16)
    requires |src| == 4 && |dst| == 4 && |segment| <= 65534
  {
    0xFFFF - Fold(TransportSum(protocol, src, dst, segment, next))
  }

  /** The loop over the two addresses. */
  method AddAddresses(start: u32, src: seq<byte>, dst: seq<byte>) returns (sum: u32)
    requires |src| == 4 && |dst| == 4
    ensures sum == ToU32(start + AddressTerms(src) + AddressTerms(dst))
  {
    sum := start;
    ghost var exact: int := start;
    var i := 0;
    while i < 4
      invariant i == 0 || i == 2 || i == 4
      invariant -0x8_0000 <= exact < 0x1_0000_0000 + 0x2_0000
      invariant sum == ToU32(exact)
      invariant exact == start + TermsUpTo(src, i) + TermsUpTo(dst, i)
    {
      ToU32Adds(exact, AddressTerm(src[i], src[i + 1]));
      sum := ToU32(sum + AddressTerm(src[i], src[i + 1]));
      exact := exact + AddressTerm(src[i], src[i + 1]);
      ToU32Adds(exact, AddressTerm(dst[i], dst[i + 1]));
      sum := ToU32(sum + AddressTerm(dst[i], dst[i + 1]));
      exact := exact + AddressTerm(dst[i], dst[i + 1]);
      i := i + 2;
    }
  }

  /** `udp_checksum` with protocol 17, and `tcp_checksum` with protocol 6. */
  method PseudoHeaderChecksum(protocol: byte, length: u16, packet: array<byte>, base: nat,
                              src: seq<byte>, dst: seq<byte>) returns (c: u16, ghost end: nat)
    requires length <= 65534 && base + length + length % 2 <= packet.Length
    requires |src| == 4 && |dst| == 4
    ensures c == TransportChecksum(protocol, src, dst, packet[base..base + length],
                                   Following(packet[..], base, length))
    ensures end == base + length + length % 2
  {
    var sum: u32 := ToU16(length + protocol);
    sum, end := AddWords(sum, packet, base, length);
    sum := AddAddresses(sum, src, dst);
    c := FoldAndComplement(sum);
  }

  lemma WordSumOfFour(a: seq<byte>)
    requires |a| == 4
    ensures WordSum(a) == Word(a[0], a[1]) + Word(a[2], a[3])
  {
    assert WordSum(a[2..]) == Word(a[2], a[3]) + WordSum(a[4..]);
  }

  lemma CoveredWordSum(protocol: byte, src: seq<byte>, dst: seq<byte>, segment: seq<byte>)
    requires |src| == 4 && |dst| == 4 && |segment| <= 65534
    ensures |Covered(protocol, src, dst, segment)| == |segment| + 12
    ensures WordSum(Covered(protocol, src, dst, segment))
         == WordSum(src) + WordSum(dst) + protocol + |segment| + WordSum(segment)
  {
    var tail: seq<byte> := [0, protocol, |segment| / 0x100, |segment| % 0x100];
    assert Covered(protocol, src, dst, segment) == src + (dst + (tail + segment));
    WordSumConcat(src, dst + (tail + segment));
    WordSumConcat(dst, tail + segment);
    WordSumConcat(tail, segment);
    WordSumOfFour(tail);
  }

  /** The accumulator of the plain routine over pseudo-header and segment. */
  function CoveredSum(protocol: byte, src: seq<byte>, dst: seq<byte>, segment: seq<byte>, next: byte): (r: nat)
    requires |src| == 4 && |dst| == 4 && |segment| <= 65534
  {
    RoutineSum(Covered(protocol, src, dst, segment), next)
  }

  /**
   * What the caller can check before the call: no address word is sign-extended, or exactly one
   * is and the plain sum has no carry; and length plus protocol fit 16 bits.
   */
  ghost predicate Faithful(protocol: byte, src: seq<byte>, dst: seq<byte>, segment: seq<byte>, next: byte)
    requires |src| == 4 && |dst| == 4 && |segment| <= 65534
  {
    && |segment| + protocol < 0x1_0000
    && (HighWords(src, dst) == 0 ||
        (HighWords(src, dst) == 1 && CoveredSum(protocol, src, dst, segment, next) < 0x1_0000))
  }

  /** Besides, a byte read past an odd segment adds nothing, or exactly one whole 0xFFFF. */
  ghost predicate Exact(protocol: byte, src: seq<byte>, dst: seq<byte>, segment: seq<byte>, next: byte)
    requires |src| == 4 && |dst| == 4 && |segment| <= 65534
  {
    Faithful(protocol, src, dst, segment, next) && (|segment| % 2 == 0 || next == 0 || next == 0xFF)
  }

  /** 65536 taken off once for every wrap and sign extension. */
  function Lost(protocol: byte, src: seq<byte>, dst: seq<byte>, length: nat): (r: nat)
    requires |src| == 4 && |dst| == 4 && length <= 65534
  {
    HighWords(src, dst) + if length + protocol < 0x1_0000 then 0 else 1
  }

  /** The plain accumulator depends on the range only through its word sum and its parity. */
  lemma RoutineSumOf(s: seq<byte>, w: nat, length: nat, next: byte)
    requires WordSum(s) == w && |s| == length + 12
    ensures RoutineSum(s, next) == w + if length % 2 == 1 then 0x101 * next else 0
  {
  }

  lemma CoveredSumForm(protocol: byte, src: seq<byte>, dst: seq<byte>, segment: seq<byte>, next: byte)
    requires |src| == 4 && |dst| == 4 && |segment| <= 65534
    ensures CoveredSum(protocol, src, dst, segment, next)
         == WordSum(src) + WordSum(dst) + protocol + |segment| + RoutineSum(segment, next)
  {
    CoveredWordSum(protocol, src, dst, segment);
    RoutineSumOf(Covered(protocol, src, dst, segment),
                 WordSum(src) + WordSum(dst) + protocol + |segment| + WordSum(segment), |segment|, next);
  }

  lemma TransportSumShape(protocol: byte, src: seq<byte>, dst: seq<byte>, segment: seq<byte>, next: byte)
    requires |src| == 4 && |dst| == 4 && |segment| <= 65534
    ensures CoveredSum(protocol, src, dst, segment, next) + 0xFFFF < 0x1_0000_0000
    ensures TransportSum(protocol, src, dst, segment, next)
         == ToU32(CoveredSum(protocol, src, dst, segment, next) - 0x1_0000 * Lost(protocol, src, dst, |segment|))
  {
    CoveredSumForm(protocol, src, dst, segment, next);
    AddressTermsShape(src);
    AddressTermsShape(dst);
    WordSumBound(segment);
    LengthShape(|segment| + protocol);
    assert ToU16(|segment| + protocol) + RoutineSum(segment, next) + AddressTerms(src) + AddressTerms(dst)
        == CoveredSum(protocol, src, dst, segment, next) - 0x1_0000 * Lost(protocol, src, dst, |segment|);
  }

  lemma AddressTermsShape(a: seq<byte>)
    requires |a| == 4
    ensures AddressTerms(a) == WordSum(a) - 0x1_0000 * ((if a[0] < 0x80 then 0 else 1) + (if a[2] < 0x80 then 0 else 1))
    ensures WordSum(a) <= 0x1_FFFE
  {
    WordSumOfFour(a);
  }

  lemma LengthShape(x: nat)
    requires x < 0x2_0000
    ensures ToU16(x) == x - if x < 0x1_0000 then 0 else 0x1_0000
  {
  }

  /** `udp_checksum`/`tcp_checksum` are `ip_checksum` of pseudo-header and segment exactly when faithful. */
  lemma TransportIsRoutineChecksum(protocol: byte, src: seq<byte>, dst: seq<byte>, segment: seq<byte>, next: byte)
    requires |src| == 4 && |dst| == 4 && |segment| <= 65534
    requires protocol > 0
    ensures TransportChecksum(protocol, src, dst, segment, next)
         == RoutineChecksum(Covered(protocol, src, dst, segment), next)
       <==> Faithful(protocol, src, dst, segment, next)
  {
    TransportSumShape(protocol, src, dst, segment, next);
    CoveredSumForm(protocol, src, dst, segment, next);
    LossIsHarmless(CoveredSum(protocol, src, dst, segment, next), Lost(protocol, src, dst, |segment|));
  }

  /**
   * Exactly when they are the zero-padded Internet checksum, whatever byte follows the segment: the
   * loss in the addresses and the byte read past the end never make good for each other.
   */
  lemma TransportIsRfcChecksum(protocol: byte, src: seq<byte>, dst: seq<byte>, segment: seq<byte>, next: byte)
    requires |src| == 4 && |dst| == 4 && |segment| <= 65534
    requires protocol > 0
    ensures TransportChecksum(protocol, src, dst, segment, next) == RfcChecksum(Covered(protocol, src, dst, segment))
       <==> Exact(protocol, src, dst, segment, next)
  {
    TransportIsRoutineChecksum(protocol, src, dst, segment, next);
    if Faithful(protocol, src, dst, segment, next) {
      CoveredWordSum(protocol, src, dst, segment);
      RoutineIsRfcOver(Covered(protocol, src, dst, segment), |segment|, next);
    } else {
      UnfaithfulIsWrong(protocol, src, dst, segment, next);
    }
  }

  lemma RoutineIsRfcOver(s: seq<byte>, length: nat, next: byte)
    requires |s| == length + 12 && WordSum(s) > 0
    ensures RoutineChecksum(s, next) == RfcChecksum(s) <==> length % 2 == 0 || next == 0 || next == 0xFF
  {
    RoutineIsRfcChecksum(s, next);
  }

  lemma UnfaithfulLoses(protocol: byte, src: seq<byte>, dst: seq<byte>, segment: seq<byte>, next: byte)
    requires |src| == 4 && |dst| == 4 && |segment| <= 65534
    requires !Faithful(protocol, src, dst, segment, next)
    ensures var lost := Lost(protocol, src, dst, |segment|);
            1 <= lost <= 5 && (lost == 1 ==> CoveredSum(protocol, src, dst, segment, next) >= 0x1_0000)
  {
    CoveredSumForm(protocol, src, dst, segment, next);
  }

  lemma UnfaithfulIsWrong(protocol: byte, src: seq<byte>, dst: seq<byte>, segment: seq<byte>, next: byte)
    requires |src| == 4 && |dst| == 4 && |segment| <= 65534
    requires !Faithful(protocol, src, dst, segment, next)
    ensures TransportChecksum(protocol, src, dst, segment, next) != RfcChecksum(Covered(protocol, src, dst, segment))
  {
    var w := WordSum(Covered(protocol, src, dst, segment));
    DeferredCarries(Covered(protocol, src, dst, segment));
    TransportSumShape(protocol, src, dst, segment, next);
    UnfaithfulLoses(protocol, src, dst, segment, next);
    var counted: byte := if |Covered(protocol, src, dst, segment)| % 2 == 1 then next else 0;
    assert CoveredSum(protocol, src, dst, segment, next) == w + 0x101 * counted;
    LossIsNotMadeGood(w, counted, Lost(protocol, src, dst, |segment|));
  }

  /** Between any two hosts of 192.168.0.0/16 the routine is wrong on every segment. */
  lemma PrivateNetworkFails(protocol: byte, a: seq<byte>, b: seq<byte>, segment: seq<byte>, next: byte)
    requires |a| == 2 && |b| == 2 && |segment| <= 65534
    requires protocol > 0
    ensures var src, dst := [192, 168] + a, [192, 168] + b;
            && TransportChecksum(protocol, src, dst, segment, next) != RfcChecksum(Covered(protocol, src, dst, segment))
            && TransportChecksum(protocol, src, dst, segment, next)
               != RoutineChecksum(Covered(protocol, src, dst, segment), next)
  {
    TransportIsRfcChecksum(protocol, [192, 168] + a, [192, 168] + b, segment, next);
    TransportIsRoutineChecksum(protocol, [192, 168] + a, [192, 168] + b, segment, next);
  }

  /** Taking 65536 off a positive 32-bit sum some few times, modulo 2^32, and folding. */
  lemma LossIsHarmless(t: nat, lost: nat)
    requires 0 < t < 0x1_0000_0000 && lost <= 5
    ensures Fold(ToU32(t - 0x1_0000 * lost)) == Fold(t) <==> lost == 0 || (lost == 1 && t < 0x1_0000)
  {
    var x := ToU32(t - 0x1_0000 * lost);
    var p := FoldForm(t);
    var r := FoldForm(x);
    if t >= 0x1_0000 * lost {
      assert Fold(x) - Fold(t) == 0xFFFF * (p - r - lost) - lost;
    } else {
      assert Fold(x) - Fold(t) == 0xFFFF * (p - r + 0x1_0001 - lost) + 1 - lost;
      if lost == 1 {
        FoldIs(x, Fold(t), p + 0x1_0000);
      }
    }
  }

  /** A harmful loss is not undone by the 257 times the following byte that an odd range adds. */
  lemma LossIsNotMadeGood(w: nat, next: byte, lost: nat)
    requires w + 0x101 * next < 0x1_0000_0000 && lost <= 5
    requires lost > 1 || (lost == 1 && w + 0x101 * next >= 0x1_0000)
    ensures Fold(ToU32(w + 0x101 * next - 0x1_0000 * lost)) != Fold(w)
  {
    var t := w + 0x101 * next;
    var x := ToU32(t - 0x1_0000 * lost);
    var p := FoldForm(w);
    var r := FoldForm(x);
    if t >= 0x1_0000 * lost {
      assert Fold(x) - Fold(w) == 0xFFFF * (p - r - lost) + 0x101 * next - lost;
    } else {
      assert Fold(x) - Fold(w) == 0xFFFF * (p - r + 0x1_0001 - lost) + 0x101 * next + 1 - lost;
    }
  }

  /** The routine returns 0xFFFF only when sign extension cancels the sum completely. */
  lemma NeverAllOnes(protocol: byte, src: seq<byte>, dst: seq<byte>, segment: seq<byte>, next: byte)
    requires |src| == 4 && |dst| == 4 && |segment| <= 65534
    requires protocol > 0
    ensures TransportChecksum(protocol, src, dst, segment, next) == 0xFFFF
       <==> CoveredSum(protocol, src, dst, segment, next) == 0x1_0000 * Lost(protocol, src, dst, |segment|)
    ensures Faithful(protocol, src, dst, segment, next)
        ==> TransportChecksum(protocol, src, dst, segment, next) != 0xFFFF
  {
    TransportSumShape(protocol, src, dst, segment, next);
    CoveredSumForm(protocol, src, dst, segment, next);
    var q := FoldForm(TransportSum(protocol, src, dst, segment, next));
    CancelsCompletely(CoveredSum(protocol, src, dst, segment, next), Lost(protocol, src, dst, |segment|));
  }

  lemma CancelsCompletely(t: nat, lost: nat)
    requires t < 0x1_0000_0000 && lost <= 5
    ensures ToU32(t - 0x1_0000 * lost) == 0 <==> t == 0x1_0000 * lost
  {
  }

  // ---------- what a receiver concludes ----------

  /** The field of a segment read as a word, and the segment with that field cleared. */
  function FieldAt(segment: seq<byte>, at: nat): (r: u16)
    requires at + 2 <= |segment|
  {
    Word(segment[at], segment[at + 1])
  }

  function Cleared(segment: seq<byte>, at: nat): (r: seq<byte>)
    requires at + 2 <= |segment|
  {
    Splice(segment, at, [0, 0])
  }

  lemma ClearedWordSum(protocol: byte, src: seq<byte>, dst: seq<byte>, segment: seq<byte>, at: nat)
    requires |src| == 4 && |dst| == 4 && |segment| <= 65534
    requires at % 2 == 0 && at + 2 <= |segment|
    ensures WordSum(Covered(protocol, src, dst, segment))
         == WordSum(Covered(protocol, src, dst, Cleared(segment, at))) + FieldAt(segment, at)
  {
    CoveredWordSum(protocol, src, dst, segment);
    CoveredWordSum(protocol, src, dst, Cleared(segment, at));
    ReplaceWord(segment, at, 0, 0);
  }

  /** RFC 768's test: the sum over everything, with the field in place, is all ones. */
  ghost predicate Verifies(protocol: byte, src: seq<byte>, dst: seq<byte>, segment: seq<byte>)
    requires |src| == 4 && |dst| == 4 && |segment| <= 65534
  {
    OnesSum(Covered(protocol, src, dst, segment)) == 0xFFFF
  }

  /** The target's test: clear the field, recompute, compare. */
  ghost predicate Recomputes(protocol: byte, src: seq<byte>, dst: seq<byte>, segment: seq<byte>, at: nat, next: byte)
    requires |src| == 4 && |dst| == 4 && |segment| <= 65534 && at + 2 <= |segment|
  {
    FieldAt(segment, at) == TransportChecksum(protocol, src, dst, Cleared(segment, at), next)
  }

  lemma VerifiesIsRecomputing(total: nat, field: u16)
    requires total > 0 && 0 < field < 0xFFFF
    ensures Fold(total + field) == 0xFFFF <==> field == 0xFFFF - Fold(total)
  {
    var q := FoldForm(total);
    if field == 0xFFFF - Fold(total) {
      FoldIs(total + field, 0xFFFF, q);
    } else if Fold(total + field) == 0xFFFF {
      var p := FoldForm(total + field);
      NoMultipleBetween(Fold(total) + field, p - q + 1);
    }
  }

  /**
   * For an ordinary field value the two tests agree wherever the recomputed checksum is exact, and a
   * valid segment is accepted exactly there.
   */
  lemma AcceptanceIsVerification(protocol: byte, src: seq<byte>, dst: seq<byte>, segment: seq<byte>,
                                 at: nat, next: byte)
    requires |src| == 4 && |dst| == 4 && |segment| <= 65534 && at % 2 == 0 && at + 2 <= |segment|
    requires protocol > 0
    requires 0 < FieldAt(segment, at) < 0xFFFF
    ensures Exact(protocol, src, dst, Cleared(segment, at), next)
        ==> (Recomputes(protocol, src, dst, segment, at, next) <==> Verifies(protocol, src, dst, segment))
    ensures Verifies(protocol, src, dst, segment)
        ==> (Recomputes(protocol, src, dst, segment, at, next)
             <==> Exact(protocol, src, dst, Cleared(segment, at), next))
  {
    var cleared := Cleared(segment, at);
    ClearedWordSum(protocol, src, dst, segment, at);
    CoveredWordSum(protocol, src, dst, cleared);
    DeferredCarries(Covered(protocol, src, dst, segment));
    DeferredCarries(Covered(protocol, src, dst, cleared));
    VerifiesIsRecomputing(WordSum(Covered(protocol, src, dst, cleared)), FieldAt(segment, at));
    TransportIsRfcChecksum(protocol, src, dst, cleared, next);
  }

  /** The accumulator with the field in place, one less for every 65536 lost, one more for a wrap below zero. */
  function Residue(protocol: byte, src: seq<byte>, dst: seq<byte>, segment: seq<byte>, at: nat, next: byte): (r: int)
    requires |src| == 4 && |dst| == 4 && |segment| <= 65534 && at + 2 <= |segment|
  {
    var lost := Lost(protocol, src, dst, |segment|);
    CoveredSum(protocol, src, dst, segment, next) - lost
    + if CoveredSum(protocol, src, dst, Cleared(segment, at), next) < 0x1_0000 * lost then 1 else 0
  }

  /**
   * Exactly which segments are accepted, valid or not: those whose accumulator is congruent, modulo
   * 65535, to what was lost in it, short of a sum that cancels to zero.
   */
  lemma AcceptsExactly(protocol: byte, src: seq<byte>, dst: seq<byte>, segment: seq<byte>, at: nat, next: byte)
    requires |src| == 4 && |dst| == 4 && |segment| <= 65534 && at % 2 == 0 && at + 2 <= |segment|
    requires 0 < FieldAt(segment, at) < 0xFFFF
    ensures Recomputes(protocol, src, dst, segment, at, next)
       <==> Residue(protocol, src, dst, segment, at, next) % 0xFFFF == 0
            && CoveredSum(protocol, src, dst, Cleared(segment, at), next)
               != 0x1_0000 * Lost(protocol, src, dst, |segment|)
  {
    ClearedSum(protocol, src, dst, segment, at, next);
    TransportSumShape(protocol, src, dst, Cleared(segment, at), next);
    FieldMatches(CoveredSum(protocol, src, dst, Cleared(segment, at), next), Lost(protocol, src, dst, |segment|),
                 FieldAt(segment, at));
  }

  lemma ClearedSum(protocol: byte, src: seq<byte>, dst: seq<byte>, segment: seq<byte>, at: nat, next: byte)
    requires |src| == 4 && |dst| == 4 && |segment| <= 65534
    requires at % 2 == 0 && at + 2 <= |segment|
    ensures CoveredSum(protocol, src, dst, segment, next)
         == CoveredSum(protocol, src, dst, Cleared(segment, at), next) + FieldAt(segment, at)
  {
    CoveredSumForm(protocol, src, dst, segment, next);
    CoveredSumForm(protocol, src, dst, Cleared(segment, at), next);
    ReplaceWord(segment, at, 0, 0);
  }

  lemma FieldMatches(t: nat, lost: nat, field: u16)
    requires t < 0x1_0000_0000 && lost <= 5 && 0 < field < 0xFFFF
    ensures var residue := t + field - lost + if t < 0x1_0000 * lost then 1 else 0;
            field == 0xFFFF - Fold(ToU32(t - 0x1_0000 * lost)) <==> residue % 0xFFFF == 0 && t != 0x1_0000 * lost
  {
    var x := ToU32(t - 0x1_0000 * lost);
    var residue := t + field - lost + if t < 0x1_0000 * lost then 1 else 0;
    var q := FoldForm(x);
    var m := if t < 0x1_0000 * lost then q + lost - 0x1_0001 else q + lost;
    assert residue == Fold(x) + field + 0xFFFF * m;
    IsWhole(Fold(x) + field, m);
  }

  lemma IsWhole(x: nat, m: int)
    requires x < 0x1_FFFE
    ensures (x + 0xFFFF * m) % 0xFFFF == 0 <==> x == 0 || x == 0xFFFF
  {
    var y := x + 0xFFFF * m;
    var k := y / 0xFFFF;
    assert y == 0xFFFF * k + y % 0xFFFF;
    assert x == 0xFFFF * (k - m) + y % 0xFFFF;
  }

  /**
   * A field of 0xFFFF is how RFC 768 sends a computed zero. The recomputed value is then never
   * 0xFFFF on a faithful segment, so a valid one is refused.
   */
  lemma ComputedZeroIsRefused(protocol: byte, src: seq<byte>, dst: seq<byte>, segment: seq<byte>, at: nat, next: byte)
    requires |src| == 4 && |dst| == 4 && |segment| <= 65534 && at % 2 == 0 && at + 2 <= |segment|
    requires protocol > 0
    requires FieldAt(segment, at) == 0xFFFF
    ensures Verifies(protocol, src, dst, segment)
       <==> RfcChecksum(Covered(protocol, src, dst, Cleared(segment, at))) == 0
    ensures Recomputes(protocol, src, dst, segment, at, next)
       <==> CoveredSum(protocol, src, dst, Cleared(segment, at), next)
            == 0x1_0000 * Lost(protocol, src, dst, |segment|)
    ensures Faithful(protocol, src, dst, Cleared(segment, at), next)
        ==> !Recomputes(protocol, src, dst, segment, at, next)
  {
    var cleared := Cleared(segment, at);
    ClearedWordSum(protocol, src, dst, segment, at);
    CoveredWordSum(protocol, src, dst, cleared);
    DeferredCarries(Covered(protocol, src, dst, segment));
    DeferredCarries(Covered(protocol, src, dst, cleared));
    var q := FoldForm(WordSum(Covered(protocol, src, dst, cleared)));
    FoldIs(WordSum(Covered(protocol, src, dst, segment)), Fold(WordSum(Covered(protocol, src, dst, cleared))), q + 1);
    NeverAllOnes(protocol, src, dst, cleared, next);
  }

  /** The arithmetic of two accumulators, `x` and `y`, holding different words in the same place. */
  lemma TwoAccumulators(rest: int, w: u16, v: u16, lost: int, x: u32, y: u32, f: u16, g: u16, p: int, q: int)
    requires 0 < rest && rest + 0xFFFF < 0x1_0000_0000 && 0 <= lost <= 5 && w < v
    requires x == ToU32(rest + w - 0x1_0000 * lost) && y == ToU32(rest + v - 0x1_0000 * lost)
    requires x == f + 0xFFFF * p && (f == 0 <==> x == 0)
    requires y == g + 0xFFFF * q && (g == 0 <==> y == 0)
    ensures f == g <==> w == 0 && v == 0xFFFF && !(0x1_0000 * lost - 0xFFFF <= rest <= 0x1_0000 * lost)
  {
    if rest + v < 0x1_0000 * lost || 0x1_0000 * lost <= rest + w {
      assert g - f == v - w + 0xFFFF * (p - q);
    } else {
      assert g - f == v - w - 1 + 0xFFFF * (p - q - 0x1_0001);
    }
  }

  /** Two different words that the fold cannot tell apart, on the target's 32-bit accumulator. */
  lemma Indistinguishable(rest: nat, w: u16, v: u16, lost: nat)
    requires 0 < rest && rest + 0xFFFF < 0x1_0000_0000 && lost <= 5 && w < v
    ensures Fold(ToU32(rest + w - 0x1_0000 * lost)) == Fold(ToU32(rest + v - 0x1_0000 * lost))
       <==> w == 0 && v == 0xFFFF && !(0x1_0000 * lost - 0xFFFF <= rest <= 0x1_0000 * lost)
  {
    var x := ToU32(rest + w - 0x1_0000 * lost);
    var y := ToU32(rest + v - 0x1_0000 * lost);
    var p := FoldForm(x);
    var q := FoldForm(y);
    TwoAccumulators(rest, w, v, lost, x, y, Fold(x), Fold(y), p, q);
  }

  ghost predicate Exchanged(w: u16, v: u16)
  {
    (w == 0 && v == 0xFFFF) || (w == 0xFFFF && v == 0)
  }

  lemma IndistinguishableEither(rest: nat, w: u16, v: u16, lost: nat)
    requires 0 < rest && rest + 0xFFFF < 0x1_0000_0000 && lost <= 5 && w != v
    ensures Fold(ToU32(rest + w - 0x1_0000 * lost)) == Fold(ToU32(rest + v - 0x1_0000 * lost))
       <==> Exchanged(w, v) && !(0x1_0000 * lost - 0xFFFF <= rest <= 0x1_0000 * lost)
  {
    if w < v {
      Indistinguishable(rest, w, v, lost);
    } else {
      Indistinguishable(rest, v, w, lost);
    }
  }

  /**
   * Error detection: changing one aligned word escapes the checksum exactly when 0x0000 became 0xFFFF
   * or the reverse, and no sign-extension wrap or zero total lies between.
   */
  lemma SingleWordError(protocol: byte, src: seq<byte>, dst: seq<byte>, segment: seq<byte>,
                        at: nat, hi: byte, lo: byte, next: byte)
    requires |src| == 4 && |dst| == 4 && |segment| <= 65534
    requires at % 2 == 0 && at + 2 <= |segment|
    requires protocol > 0
    requires Word(hi, lo) != FieldAt(segment, at)
    ensures var rest := CoveredSum(protocol, src, dst, Cleared(segment, at), next);
            var wrap := 0x1_0000 * Lost(protocol, src, dst, |segment|);
            TransportChecksum(protocol, src, dst, Splice(segment, at, [hi, lo]), next)
              == TransportChecksum(protocol, src, dst, segment, next)
            <==> Exchanged(FieldAt(segment, at), Word(hi, lo)) && !(wrap - 0xFFFF <= rest <= wrap)
  {
    var rest := CoveredSum(protocol, src, dst, Cleared(segment, at), next);
    assert segment == Splice(segment, at, [segment[at], segment[at + 1]]);
    SumWithWord(protocol, src, dst, segment, at, segment[at], segment[at + 1], next);
    SumWithWord(protocol, src, dst, segment, at, hi, lo, next);
    IndistinguishableEither(rest, FieldAt(segment, at), Word(hi, lo), Lost(protocol, src, dst, |segment|));
  }

  lemma SumWithWord(protocol: byte, src: seq<byte>, dst: seq<byte>, segment: seq<byte>,
                    at: nat, hi: byte, lo: byte, next: byte)
    requires |src| == 4 && |dst| == 4 && |segment| <= 65534
    requires at % 2 == 0 && at + 2 <= |segment|
    requires protocol > 0
    ensures var rest := CoveredSum(protocol, src, dst, Cleared(segment, at), next);
            && 0 < rest && rest + 0xFFFF < 0x1_0000_0000
            && TransportSum(protocol, src, dst, Splice(segment, at, [hi, lo]), next)
            == ToU32(rest + Word(hi, lo) - 0x1_0000 * Lost(protocol, src, dst, |segment|))
  {
    var other := Splice(segment, at, [hi, lo]);
    assert other[at..at + 2][0] == hi && other[at..at + 2][1] == lo;
    assert Cleared(other, at) == Cleared(segment, at);
    ClearedSum(protocol, src, dst, other, at, next);
    CoveredSumForm(protocol, src, dst, Cleared(segment, at), next);
    TransportSumShape(protocol, src, dst, Cleared(segment, at), next);
    TransportSumShape(protocol, src, dst, other, next);
  }
}
