/**
 * The receive loop of `net_periodic`: one buffer at the front of memory, every frame decoded and answered
 * in place. What memory holds beyond the buffer is arbitrary.
 */
module Station {
  import opened Machine
  import opened Addresses
  import opened Frame
  import opened ArpTable
  import Arp = ArpProtocol
  import Checksum
  import Ethernet
  import Icmp
  import Net
  import Udp
  import Wire

  const BUFFER_SIZE := 500

  /** A frame waiting in the controller, without its CRC; `intact` is the receive status bit. */
  datatype Arrival = Arrival(bytes: seq<byte>, intact: bool)

  /** What the driver copies: at most one byte less than the buffer. */
  function Copied(a: Arrival): (r: seq<byte>)
    ensures |r| < BUFFER_SIZE
  {
    if !a.intact then [] else if |a.bytes| < BUFFER_SIZE then a.bytes else a.bytes[..BUFFER_SIZE - 1]
  }

  /** Memory from the buffer on: enough for every datagram whose checksum loop ends. */
  predicate IsMemory(m: seq<byte>)
  {
    |m| >= Net.MEMORY_SIZE
  }

  /** Memory after `eth_receive_packet`: the copy and its terminator over the previous contents. */
  function Stored(memory: seq<byte>, a: Arrival): (r: seq<byte>)
    requires IsMemory(memory)
    ensures |r| == |memory| && r[..|Copied(a)|] == Copied(a)
  {
    if a.intact then Copied(a) + [0] + memory[|Copied(a)| + 1..] else memory
  }

  /** An intact frame is at the front of memory, 499 bytes of it at most, with a zero behind; others leave no trace. */
  lemma StoredOnBytes(memory: seq<byte>, a: Arrival)
    requires IsMemory(memory)
    ensures var n := if |a.bytes| <= 499 then |a.bytes| else 499;
            a.intact ==> Copied(a) == a.bytes[..n] && Stored(memory, a) == a.bytes[..n] + [0] + memory[n + 1..]
    ensures !a.intact ==> Copied(a) == [] && Stored(memory, a) == memory
  {
    if |a.bytes| < BUFFER_SIZE {
      assert a.bytes[..|a.bytes|] == a.bytes;
    }
  }

  /** `net_decode` returns: the arrival does not ask for a checksum over 65535 bytes. */
  predicate Ends(slots: seq<Udp.Slot>, a: Arrival)
  {
    !Net.Endless(slots, Copied(a), |Copied(a)|)
  }

  /** Overlong and endless show in the header alone. */
  lemma SameHeaderSameVerdict(slots: seq<Udp.Slot>, c: seq<byte>, f: seq<byte>, size: nat)
    requires |c| <= |f| && f[..|c|] == c
    ensures Net.Overlong(slots, f, |c|, size) <==> Net.Overlong(slots, c, |c|, size)
    ensures Net.Endless(slots, f, |c|) <==> Net.Endless(slots, c, |c|)
  {
    assert forall i :: 0 <= i < |c| ==> f[i] == c[i];
  }

  lemma StoredIsAcceptable(slots: seq<Udp.Slot>, memory: seq<byte>, a: Arrival)
    requires IsMemory(memory)
    ensures Net.Endless(slots, Stored(memory, a), |Copied(a)|) <==> !Ends(slots, a)
    ensures Net.Acceptable(slots, Stored(memory, a), |Copied(a)|) <==> Ends(slots, a)
  {
    SameHeaderSameVerdict(slots, Copied(a), Stored(memory, a), 0);
    Net.AcceptableUnlessEndless(slots, Stored(memory, a), |Copied(a)|);
  }

  /**
   * Exactly when one turn reads or sends beyond the first `size` bytes, of the buffer or of those that
   * arrived, for every arrival.
   */
  lemma TurnLeavesExactly(s: Net.StackState, memory: seq<byte>, a: Arrival, size: nat)
    requires IsMemory(memory) && |Copied(a)| <= size && 0 < |s.table|
    ensures Ends(s.slots, a) ==> Net.Acceptable(s.slots, Stored(memory, a), |Copied(a)|)
    ensures Net.ReadEnd(s.slots, Stored(memory, a), |Copied(a)|) > size
         || (Ends(s.slots, a) && Net.Decoded(s, Stored(memory, a), |Copied(a)|).reply > size)
       <==> Net.Overlong(s.slots, Copied(a), |Copied(a)|, size)
  {
    StoredIsAcceptable(s.slots, memory, a);
    Net.LeavesExactly(s, Stored(memory, a), |Copied(a)|, size);
    SameHeaderSameVerdict(s.slots, Copied(a), Stored(memory, a), size);
  }

  datatype Served = Served(table: seq<Entry>, memory: seq<byte>, sent: seq<seq<byte>>)

  /** One arrival: store it, decode it in place, send what is to be sent. */
  function ServeOne(s: Net.StackState, before: Served, a: Arrival): (r: Served)
    requires IsMemory(before.memory) && 0 < |before.table| && Ends(s.slots, a)
    ensures |r.memory| == |before.memory| && |r.table| == |before.table|
  {
    StoredIsAcceptable(s.slots, before.memory, a);
    var t, f := s.(table := before.table), Stored(before.memory, a);
    ReplyFits(t, f, |Copied(a)|);
    var out := Net.Decoded(t, f, |Copied(a)|);
    Served(out.table, out.frame, if out.reply == 0 then before.sent else before.sent + [out.frame[..out.reply]])
  }

  /** No arrival among the first `n` is the endless one. */
  predicate AllEnd(slots: seq<Udp.Slot>, pending: seq<Arrival>, n: nat)
    requires n <= |pending|
  {
    forall i {:trigger Ends(slots, pending[i])} :: 0 <= i < n ==> Ends(slots, pending[i])
  }

  lemma FewerEnd(slots: seq<Udp.Slot>, pending: seq<Arrival>, n: nat)
    requires 0 < n <= |pending| && AllEnd(slots, pending, n)
    ensures AllEnd(slots, pending, n - 1) && Ends(slots, pending[n - 1])
  {
  }

  /** The state and the frames sent after the first `n` arrivals. */
  function Serve(s: Net.StackState, memory: seq<byte>, pending: seq<Arrival>, n: nat): (r: Served)
    requires IsMemory(memory) && 0 < |s.table| && n <= |pending| && AllEnd(s.slots, pending, n)
    ensures |r.memory| == |memory| && |r.table| == |s.table|
  {
    if n == 0 then Served(s.table, memory, []) else ServeOne(s, Serve(s, memory, pending, n - 1), pending[n - 1])
  }

  /** A reply has at most 65535 bytes, and leaves with this host's hardware address as its source. */
  lemma ReplyFits(s: Net.StackState, f: seq<byte>, length: nat)
    requires length <= |f| && IsMemory(f) && 0 < |s.table| && Net.Acceptable(s.slots, f, length)
    ensures var out := Net.Decoded(s, f, length);
            out.reply <= 0xFFFF && (out.reply != 0 ==> MacAt(out.frame, MAC_SRC) == s.host.mac)
  {
    if length >= MAC_HEADER_SIZE && NetworkWord(f, MAC_TYPE) == MAC_TYPE_ARP {
    } else if Net.IsIp(f, length, Checksum.IP_PROTOCOL_UDP) && length >= Udp.UDP_HEADER_SIZE {
      Udp.WithoutChecksumLength(f);
    }
  }

  /** Sent by this host: all that a frame holds of the source address field is the host's. */
  predicate FromHost(frame: seq<byte>, host: HostConfig)
  {
    forall i :: 0 <= i < 6 && MAC_SRC + i < |frame| ==> frame[MAC_SRC + i] == host.mac[i]
  }

  predicate AllFromHost(sent: seq<seq<byte>>, host: HostConfig)
  {
    forall i :: 0 <= i < |sent| ==> FromHost(sent[i], host)
  }

  lemma TurnIsSafe(s: Net.StackState, f: seq<byte>, length: nat)
    requires length < BUFFER_SIZE && IsMemory(f) && 0 < |s.table| && Net.Acceptable(s.slots, f, length)
    requires DistinctKeys(s.table)
    ensures var out := Net.Decoded(s, f, length);
            DistinctKeys(out.table) && out.reply <= 0xFFFF && out.frame[BUFFER_SIZE..] == f[BUFFER_SIZE..]
            && (out.reply != 0 ==> FromHost(out.frame[..out.reply], s.host))
  {
    ReplyFits(s, f, length);
    Net.DecodeKeepsKeysDistinct(s, f, length);
    Net.WritesWithinReceived(s, f, length);
    var out := Net.Decoded(s, f, length);
    assert out.frame[BUFFER_SIZE..] == out.frame[length..][BUFFER_SIZE - length..];
    assert f[BUFFER_SIZE..] == f[length..][BUFFER_SIZE - length..];
    if out.reply != 0 {
      assert forall i :: 0 <= i < 6 ==> out.frame[MAC_SRC + i] == MacAt(out.frame, MAC_SRC)[i];
    }
  }

  /** Live addresses are distinct, every frame sent comes from this host, and only the buffer was written. */
  ghost predicate Safe(r: Served, host: HostConfig, memory: seq<byte>)
    requires IsMemory(memory)
  {
    && DistinctKeys(r.table) && AllFromHost(r.sent, host)
    && |r.memory| == |memory| && r.memory[BUFFER_SIZE..] == memory[BUFFER_SIZE..]
  }

  predicate IsServing(s: Net.StackState, before: Served, a: Arrival, r: Served)
  {
    IsMemory(before.memory) && 0 < |before.table| && Ends(s.slots, a) && r == ServeOne(s, before, a)
  }

  lemma ServingIsSafe(s: Net.StackState, before: Served, a: Arrival, r: Served, memory: seq<byte>)
    requires IsMemory(memory) && Safe(before, s.host, memory) && IsServing(s, before, a, r)
    ensures Safe(r, s.host, memory)
  {
    StoredIsAcceptable(s.slots, before.memory, a);
    TurnIsSafe(s.(table := before.table), Stored(before.memory, a), |Copied(a)|);
    assert Stored(before.memory, a)[BUFFER_SIZE..] == before.memory[BUFFER_SIZE..];
  }

  lemma {:induction false} StatesAreSafe(s: Net.StackState, states: seq<Served>, pending: seq<Arrival>, n: nat,
                                         memory: seq<byte>)
    requires n < |states| && n <= |pending| && IsMemory(memory) && Safe(states[0], s.host, memory)
    requires forall i {:trigger IsServing(s, states[i], pending[i], states[i + 1])} :: 0 <= i < n ==>
               IsServing(s, states[i], pending[i], states[i + 1])
    ensures Safe(states[n], s.host, memory)
  {
    if n > 0 {
      var i := n - 1;
      StatesAreSafe(s, states, pending, i, memory);
      ServingIsSafe(s, states[i], pending[i], states[i + 1], memory);
    }
  }

  lemma ServingStates(s: Net.StackState, memory: seq<byte>, pending: seq<Arrival>, n: nat)
    returns (states: seq<Served>)
    requires IsMemory(memory) && 0 < |s.table| && n <= |pending| && AllEnd(s.slots, pending, n)
    ensures |states| == n + 1 && states[0] == Served(s.table, memory, [])
    ensures states[n] == Serve(s, memory, pending, n)
    ensures forall i {:trigger IsServing(s, states[i], pending[i], states[i + 1])} :: 0 <= i < n ==>
              IsServing(s, states[i], pending[i], states[i + 1])
  {
    states := seq(n + 1, i requires 0 <= i <= n => Serve(s, memory, pending, i));
    forall i | 0 <= i < n ensures IsServing(s, states[i], pending[i], states[i + 1]) {
      assert Ends(s.slots, pending[i]);
    }
  }

  /**
   * Over a whole run of arrivals, whatever lengths they declare and whatever memory holds, every frame sent
   * comes from this host, addresses stay distinct, and nothing beyond the buffer is written; up to an
   * arrival on which `net_decode` does not return.
   */
  lemma ServeIsSafe(s: Net.StackState, memory: seq<byte>, pending: seq<Arrival>, n: nat)
    requires IsMemory(memory) && 0 < |s.table| && n <= |pending| && AllEnd(s.slots, pending, n)
    requires DistinctKeys(s.table)
    ensures Safe(Serve(s, memory, pending, n), s.host, memory)
  {
    var states := ServingStates(s, memory, pending, n);
    StatesAreSafe(s, states, pending, n, memory);
  }

  // ---------- what is sent, and in what order ----------

  /** What is received of an arrival holds all of any datagram for a bound port. */
  predicate Whole(slots: seq<Udp.Slot>, a: Arrival)
  {
    Wire.Contained(slots, Copied(a))
  }

  /** What one turn sends is the answer to what is received. */
  lemma ReplyIsAnswer(s: Net.StackState, memory: seq<byte>, a: Arrival, reply: seq<byte>)
    requires IsMemory(memory) && 0 < |s.table| && Ends(s.slots, a)
    requires Net.Acceptable(s.slots, Stored(memory, a), |Copied(a)|)
    requires var out := Net.Decoded(s, Stored(memory, a), |Copied(a)|);
             out.reply <= |out.frame| && reply == out.frame[..out.reply]
    ensures IsReplyTo(s.host, s.slots, a, reply)
  {
    if Whole(s.slots, a) {
      StoredOnBytes(memory, a);
      Wire.AnswerIsSent(s, Stored(memory, a), Copied(a));
    }
  }

  lemma ArrivalIsAnswered(s: Net.StackState, before: Served, a: Arrival, r: Served) returns (reply: seq<byte>)
    requires IsServing(s, before, a, r)
    ensures r.sent == if reply == [] then before.sent else before.sent + [reply]
    ensures IsReplyTo(s.host, s.slots, a, reply)
  {
    var t, f := s.(table := before.table), Stored(before.memory, a);
    StoredIsAcceptable(s.slots, before.memory, a);
    ReplyFits(t, f, |Copied(a)|);
    var out := Net.Decoded(t, f, |Copied(a)|);
    reply := out.frame[..out.reply];
    ReplyIsAnswer(t, before.memory, a, reply);
  }

  /** The replies there are, in order. */
  function Actual(replies: seq<seq<byte>>): (r: seq<seq<byte>>)
  {
    if replies == [] then []
    else
      var last := replies[|replies| - 1];
      Actual(replies[..|replies| - 1]) + if last == [] then [] else [last]
  }

  /** The answer to the bytes received of an arrival, if it is whole; else whatever is sent. */
  ghost predicate IsReplyTo(host: HostConfig, slots: seq<Udp.Slot>, a: Arrival, reply: seq<byte>)
  {
    Whole(slots, a) ==> reply == Wire.Answer(host, slots, Copied(a))
  }

  /** One reply, or none, for each arrival. */
  ghost predicate RepliesTo(host: HostConfig, slots: seq<Udp.Slot>, pending: seq<Arrival>, replies: seq<seq<byte>>)
  {
    |replies| == |pending| && forall i :: 0 <= i < |pending| ==> IsReplyTo(host, slots, pending[i], replies[i])
  }

  lemma OneMoreReply(host: HostConfig, slots: seq<Udp.Slot>, pending: seq<Arrival>, n: nat,
                     replies: seq<seq<byte>>, reply: seq<byte>)
    requires n < |pending| && RepliesTo(host, slots, pending[..n], replies)
    requires IsReplyTo(host, slots, pending[n], reply)
    ensures RepliesTo(host, slots, pending[..n + 1], replies + [reply])
    ensures Actual(replies + [reply]) == if reply == [] then Actual(replies) else Actual(replies) + [reply]
  {
    assert (replies + [reply])[..n] == replies;
    forall i | 0 <= i < n + 1 ensures IsReplyTo(host, slots, pending[..n + 1][i], (replies + [reply])[i]) {
      if i < n {
        assert IsReplyTo(host, slots, pending[..n][i], replies[i]);
      }
    }
  }

  lemma {:induction false} StatesAreAnswered(s: Net.StackState, states: seq<Served>, pending: seq<Arrival>, n: nat)
    returns (replies: seq<seq<byte>>)
    requires n < |states| && n <= |pending| && states[0].sent == []
    requires forall i {:trigger IsServing(s, states[i], pending[i], states[i + 1])} :: 0 <= i < n ==>
               IsServing(s, states[i], pending[i], states[i + 1])
    ensures states[n].sent == Actual(replies) && RepliesTo(s.host, s.slots, pending[..n], replies)
  {
    if n == 0 {
      replies := [];
    } else {
      var i := n - 1;
      var earlier := StatesAreAnswered(s, states, pending, i);
      var reply := ArrivalIsAnswered(s, states[i], pending[i], states[i + 1]);
      OneMoreReply(s.host, s.slots, pending, i, earlier, reply);
      replies := earlier + [reply];
    }
  }

  /** What is sent over a run of arrivals is their replies, in the order in which they arrived. */
  lemma ArrivalsAreAnswered(s: Net.StackState, memory: seq<byte>, pending: seq<Arrival>, n: nat)
    returns (replies: seq<seq<byte>>)
    requires IsMemory(memory) && 0 < |s.table| && n <= |pending| && AllEnd(s.slots, pending, n)
    ensures Serve(s, memory, pending, n).sent == Actual(replies)
    ensures RepliesTo(s.host, s.slots, pending[..n], replies)
  {
    var states := ServingStates(s, memory, pending, n);
    replies := StatesAreAnswered(s, states, pending, n);
  }

  // ---------- statistics ----------

  function TotalCopied(pending: seq<Arrival>, n: nat): (r: nat)
    requires n <= |pending|
  {
    if n == 0 then 0 else TotalCopied(pending, n - 1) + |Copied(pending[n - 1])|
  }

  function TotalLength(sent: seq<seq<byte>>): (r: nat)
  {
    if sent == [] then 0 else TotalLength(sent[..|sent| - 1]) + |sent[|sent| - 1]|
  }

  /** A uint32_t counter that has counted `n` in all. */
  predicate Counts(counter: u32, start: u32, n: nat)
  {
    (start + n - counter) % 0x1_0000_0000 == 0
  }

  lemma CountsMore(counter: u32, start: u32, n: nat, more: nat)
    requires Counts(counter, start, n) && more <= 0xFFFF
    ensures Counts(ToU32(counter + more), start, n + more)
  {
    var q := (start + n - counter) / 0x1_0000_0000;
    assert start + n - counter == 0x1_0000_0000 * q;
    if counter + more >= 0x1_0000_0000 {
      assert start + (n + more) - ToU32(counter + more) == 0x1_0000_0000 * (q + 1);
    }
  }

  datatype Stats = Stats(packetsReceived: u32, bytesReceived: u32, packetsSent: u32, bytesSent: u32)

  /** The statistics after one turn that copied so many bytes and answered with `reply`. */
  function Tallied(t: Stats, copied: nat, reply: seq<byte>): (r: Stats)
    requires copied <= BUFFER_SIZE && |reply| <= 0xFFFF
  {
    var received := t.(packetsReceived := ToU32(t.packetsReceived + 1),
                       bytesReceived := ToU32(t.bytesReceived + copied));
    if reply == [] then received
    else received.(packetsSent := ToU32(t.packetsSent + 1), bytesSent := ToU32(t.bytesSent + |reply|))
  }

  predicate TallyReceived(start: Stats, now: Stats, pending: seq<Arrival>, n: nat)
    requires n <= |pending|
  {
    && Counts(now.packetsReceived, start.packetsReceived, n)
    && Counts(now.bytesReceived, start.bytesReceived, TotalCopied(pending, n))
  }

  predicate TallySent(start: Stats, now: Stats, sent: seq<seq<byte>>)
  {
    Counts(now.packetsSent, start.packetsSent, |sent|) && Counts(now.bytesSent, start.bytesSent, TotalLength(sent))
  }

  lemma TallyReceivedStep(start: Stats, now: Stats, pending: seq<Arrival>, n: nat, reply: seq<byte>)
    requires n < |pending| && |reply| <= 0xFFFF && TallyReceived(start, now, pending, n)
    ensures TallyReceived(start, Tallied(now, |Copied(pending[n])|, reply), pending, n + 1)
  {
    CountsMore(now.packetsReceived, start.packetsReceived, n, 1);
    CountsMore(now.bytesReceived, start.bytesReceived, TotalCopied(pending, n), |Copied(pending[n])|);
  }

  lemma TallySentStep(start: Stats, now: Stats, copied: nat, sent: seq<seq<byte>>, reply: seq<byte>)
    requires copied <= BUFFER_SIZE && |reply| <= 0xFFFF && TallySent(start, now, sent)
    ensures TallySent(start, Tallied(now, copied, reply), if reply == [] then sent else sent + [reply])
  {
    if reply != [] {
      CountsMore(now.packetsSent, start.packetsSent, |sent|, 1);
      CountsMore(now.bytesSent, start.bytesSent, TotalLength(sent), |reply|);
      assert (sent + [reply])[..|sent|] == sent;
    }
  }

  class Interface {
    const stack: Net.Stack
    const memory: array<byte>
    var stats: Stats

    ghost predicate Valid()
      reads this, stack, stack.arp, stack.udp
    {
      stack.Valid() && memory.Length >= Net.MEMORY_SIZE
    }

    /** The buffer is static storage at the front of `memory`. */
    constructor (stack: Net.Stack, memory: array<byte>)
      requires stack.Valid() && memory.Length >= Net.MEMORY_SIZE
      ensures Valid() && this.stack == stack && this.memory == memory
      ensures stats == Stats(0, 0, 0, 0)
    {
      this.stack, this.memory := stack, memory;
      stats := Stats(0, 0, 0, 0);
    }

    /** `net_periodic` while the controller holds `pending`; `sent` is what `eth_send_packet` is given. */
    method Periodic(pending: seq<Arrival>) returns (sent: seq<seq<byte>>, ghost replies: seq<seq<byte>>)
      requires Valid() && AllEnd(stack.udp.slots[..], pending, |pending|)
      modifies this, memory, stack.arp.table
      ensures Valid()
      ensures Served(stack.arp.table[..], memory[..], sent)
           == Serve(old(stack.State()), old(memory[..]), pending, |pending|)
      ensures sent == Actual(replies) && RepliesTo(old(stack.host), old(stack.udp.slots[..]), pending, replies)
      ensures TallyReceived(old(stats), stats, pending, |pending|) && TallySent(old(stats), stats, sent)
    {
      ghost var s, start := stack.State(), memory[..];
      sent := [];
      for i := 0 to |pending|
        invariant Valid() && stack.State() == s.(table := stack.arp.table[..])
        invariant Served(stack.arp.table[..], memory[..], sent) == Serve(s, start, pending, i)
        invariant TallyReceived(old(stats), stats, pending, i) && TallySent(old(stats), stats, sent)
      {
        ghost var before := stats;
        var reply := Handle(pending[i]);
        TallyReceivedStep(old(stats), before, pending, i, reply);
        TallySentStep(old(stats), before, |Copied(pending[i])|, sent, reply);
        if reply != [] {
          sent := sent + [reply];
        }
      }
      replies := ArrivalsAreAnswered(s, start, pending, |pending|);
      assert pending[..|pending|] == pending;
    }

    /** One turn of the loop: receive, count, decode, and count what is sent. */
    method Handle(a: Arrival) returns (reply: seq<byte>)
      requires Valid() && Ends(stack.udp.slots[..], a)
      modifies this, memory, stack.arp.table
      ensures Valid() && stack.State() == old(stack.State()).(table := stack.arp.table[..])
      ensures Net.Acceptable(stack.udp.slots[..], Stored(old(memory[..]), a), |Copied(a)|)
      ensures var out := Net.Decoded(old(stack.State()), Stored(old(memory[..]), a), |Copied(a)|);
              && stack.arp.table[..] == out.table && memory[..] == out.frame
              && out.reply <= 0xFFFF && reply == out.frame[..out.reply]
      ensures IsReplyTo(stack.host, stack.udp.slots[..], a, reply)
      ensures stats == Tallied(old(stats), |Copied(a)|, reply)
    {
      ghost var state, start := stack.State(), memory[..];
      StoredIsAcceptable(stack.udp.slots[..], memory[..], a);
      var length := Fetch(a);
      ReplyFits(stack.State(), memory[..], length);
      var send, _ := stack.Decode(length, memory);
      reply := memory[..send];
      ReplyIsAnswer(state, start, a, reply);
      if send != 0 {
        stats := stats.(packetsSent := ToU32(stats.packetsSent + 1), bytesSent := ToU32(stats.bytesSent + send));
      }
    }

    /** Receiving one frame. */
    method Fetch(a: Arrival) returns (length: nat)
      requires Valid()
      modifies this`stats, memory
      ensures length == |Copied(a)| && memory[..] == Stored(old(memory[..]), a)
      ensures a.intact ==> length == (if |a.bytes| <= 499 then |a.bytes| else 499)
      ensures a.intact ==> memory[..length] == a.bytes[..length] && memory[length] == 0
      ensures !a.intact ==> length == 0 && memory[..] == old(memory[..])
      ensures stats == Tallied(old(stats), length, [])
    {
      length := Ethernet.Receive(a.bytes, a.intact, BUFFER_SIZE, memory);
      if a.intact {
        assert memory[..] == memory[..length] + [memory[length]] + memory[length + 1..];
      }
      stats := stats.(packetsReceived := ToU32(stats.packetsReceived + 1),
                      bytesReceived := ToU32(stats.bytesReceived + length));
    }
  }
}
