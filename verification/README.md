# NetAVR: a Dafny model

NetAVR is a TCP/IP stack for an 8-bit AVR. This project models the parts of it that compute, on the
target the Makefile names (an ATmega32: 16-bit `int`, little-endian, packed structures overlaid on one
packet buffer), and proves what they achieve together.

- `Machine`, `Addresses`, `Frame`: integer widths, byte order, copies into a buffer, addresses, header layout.
- `OnesComplement`, `Checksum`: the Internet checksum and the four routines that compute it.
- `ArpTable`, `ArpAgeing`, `ArpProtocol`: the ARP table updated in place, its ageing over runs, request and reply.
- `IpReply`, `Icmp`, `Udp`: the repliers that rewrite a received frame into its answer.
- `Net`, `Station`: dispatch, the exchange between two hosts, and the receive loop.
- `Wire`: what is sent in answer to what is received, on bytes alone, apart from the functions that follow the code.
- `Clock`, `Timers`, `TimerList`, `TimerRuns`, `ClockRuns`: the clock, the linked list of timers and the
  sequence it stands for, firings over runs, and runs that interleave interrupts with reads.
- `Startup`, `MainLoop`, `Turns`, `Firmware`: what precedes the loop of `main`, the ARP clock among other timers,
  and every run of the loop from power-up.
- `Calendar`: timestamps to dates.
- `Ethernet`: the cached register bank of the controller, and the receive buffer.
- `Samples`: concrete frames on which lemmas show the code at fault.

Code that updates state is modelled by methods on arrays, fields and a heap-allocated list; each is proved
equal to a function of the old state, and the properties are lemmas about those functions.

## Where the code and its purpose part

- **Pseudo-header words.** `udp.c:63-64` and `tcp.c:63-64` shift an octet in a 16-bit `int` without a mask,
  so an address word from 0x8000 up is sign-extended. The result is that of `ip_checksum` over pseudo-header
  and segment exactly when no such word occurs, or one occurs and the plain sum has no carry
  (`TransportIsRoutineChecksum`), and the Internet checksum exactly when, besides, an odd segment is followed
  by 0 or 0xFF (`TransportIsRfcChecksum`). Between any two hosts of 192.168.0.0/16 it is neither
  (`PrivateNetworkFails`).
- **Odd lengths.** `packet[length]` is read twice; the result is right exactly when that byte is 0, or 0xFF
  with a non-zero sum (`RoutineIsRfcChecksum`). The driver's terminator makes it 0 at the end of a frame
  (`Receive`); a valid datagram with a 1 behind it in the frame is dropped (`ValidOddDatagramIsDropped`).
- **Length 65535.** The 16-bit loop counter never reaches it (`WordLoopEnds`): on a datagram of that length for
  a bound port, with a checksum, `net_decode` does not return (`EndlessNeverReturns`).
- **A computed zero.** A UDP checksum field of 0xFFFF is refused on every faithful datagram, although RFC 768
  sends a computed zero so (`DropsComputedZero`, and on a frame `ValidZeroIsDropped`).
- **ARP age.** `arp_time - entry->time` is an `int`, negative once the 8-bit clock wraps. As written
  (rule `AsWritten`) an entry stamped above 135 is removed by no flush, and eviction picks the first slot of
  the smallest stamp if that is below the clock, else slot 0 (`WrittenChoice`). That is the first of the
  oldest exactly when no entry was stamped in an earlier round of the clock than the one picked, or, with no
  stamp below the clock, none in an earlier round than slot 0 or at a smaller stamp in the same round
  (`EvictsFirstOfTheOldest`). While no entry is 256 ticks old, stamps and clock alone tell: no stamp is above
  the clock, or slot 0's is and every other stamp equals the clock or is no smaller than slot 0's
  (`EvictionWithinOneRound`). It fails on real runs: after
  250 flushes, nine hosts, 9 flushes, a tenth host and 2 flushes, an eleventh host takes the slot of the
  tenth, the youngest (`WrappedEvictionTakesTheYoungest`). Under the intended difference modulo 256
  (rule `Modulo256`) neither happens. The methods of `ArpCache` follow the code; lemmas with a `rule`
  parameter hold for both, and say where the rules differ.
- **Echo requests.** Every request of 98 bytes or more is answered with 98. They hold the datagram they
  declare exactly for an IP length of at most 84. They are the reply of RFC 792 at 84, and from 28 to 83
  exactly when the bytes after the datagram, summed as words, give zero, or a multiple of 0xFFFF after data
  with a bit set (`PingIsAnswered`). Proper requests whose reply is not one: `LongRequestIsCutShort`,
  `TrailingByteSpoilsReply`.
- **Declared UDP length.** `udp_decode` and `echo_udp` use it unchecked. A turn of the receive loop reads or
  sends beyond the 500-byte buffer, or beyond what arrived, exactly for a datagram to a bound port whose
  declared length does so and whose checksum is to be recomputed, or which has none and is echoed
  (`LeavesExactly`): of 1000 bytes declared in a frame of 42, 1034 are sent, or read (`EchoOverrunsBuffer`,
  `ChecksumOverrunsBuffer`). Nothing is written beyond what was received (`WritesWithinReceived`). From 65503
  up the 16-bit length of an echo wraps and a runt is sent (`RuntsExactly`, `EchoSendsRunt`).
- **Echo answering echo.** An echo is echoed back by a peer running this code exactly if the peer has bound the
  first datagram's source port (`EchoIsEchoedExactly`): two hosts with the echo service alone send the same
  data to and fro without end exactly if that port is 7 (`EchoNeverStopsExactly`, `EchoesGoOn`).

## Assumptions

- A packet array stands for memory from the first byte of the packet; it may extend past the received length.
  In module Station it extends far enough for every datagram whose checksum loop ends, with any contents.
- The frame on which `net_decode` does not return is not run: runs stop before it.
- A clock read is atomic and the clock does not go back. A callback does not edit the timer table; what it
  returns, and when the clock is read for each timer, are parameters of a pass.
- Memory allocation succeeds. `queue_packet` does nothing, as in the source.
- Of the controller, only which register an opcode reaches is modelled; what a soft reset leaves, what
  frames arrive, and how often the PHY is polled are parameters. A bit-field set acts on any register, as the
  driver uses it on MACON3; the controller's data sheet defines that opcode for its ETH registers only.

## Model

| member | source | states |
|---|---|---|
| Machine.HtonsLoadsNetworkOrder | src/net/util.c:36-40 | byte-swapping a little-endian field load gives the big-endian value on the wire |
| Machine.Put | src/net/arp.c:186-193 | memcpy into a buffer changes exactly the target range |
| Addresses.SameMaskedByBits | src/net/ip.c:142-149 | octets compare equal under a mask exactly when they agree on every bit the mask sets |
| Addresses.WholeOctetMasks | src/net/ip.c:142-149 | for masks of 255 and 0 octets the comparison is equality of the masked-in octets |
| Addresses.NextHopByBits | src/net/arp.c:252-256 | a packet goes to its destination exactly if that has the host's bits wherever the netmask has a one, else to the router |
| Addresses.NextHopByOctets | src/net/arp.c:252-256 | with a netmask of 255 and 0 octets: exactly if it has the host's octets under the 255s |
| OnesComplement.DeferredCarries | src/net/ip.c:60-74 | adding all words first and folding the carries afterwards equals word-by-word end-around-carry addition |
| OnesComplement.FoldForm | src/net/ip.c:71-74 | the fold loop keeps the residue modulo 65535 and gives zero only for zero |
| Checksum.FoldAndComplement | src/net/ip.c:71-79 | the fold loop ends and yields the complement of the folded 32-bit sum |
| Checksum.WordLoopEnds | src/net/ip.c:62-64 | the 16-bit loop counter reaches every length but 65535 |
| Checksum.AddWords | src/net/ip.c:60-69 | the word loop never overflows 32 bits; an odd range counts the byte after it 257 times, and reads no further |
| Checksum.InternetChecksum | src/net/ip.c:54-80 | ip_checksum; RFC 1071's checksum of the range whenever the length is even or the next byte is zero |
| Checksum.RoutineIsRfcChecksum | src/net/icmp.c:71-97 | exactly which following byte makes the shared ip/icmp routine right on a range of any length |
| Checksum.StoredChecksumVerifies | src/net/icmp.c:126-128 | a checksum stored in a zeroed aligned field makes the range, of any length, sum to all ones |
| Checksum.PseudoHeaderChecksum | src/net/udp.c:41-77 | udp_checksum and tcp_checksum, with 16-bit promotion and 32-bit wrap, as one function of segment and addresses |
| Checksum.AddAddresses | src/net/tcp.c:61-65 | the address loop adds four sign-extended words modulo 2^32 |
| Checksum.TransportIsRoutineChecksum | src/net/udp.c:47-65 | the result is ip_checksum of pseudo-header and segment, whatever byte follows, if and only if no harmful sign extension or wrap occurs |
| Checksum.TransportIsRfcChecksum | src/net/tcp.c:41-76 | and the Internet checksum if and only if, besides, an odd segment is followed by 0 or 0xFF |
| Checksum.PrivateNetworkFails | src/net/udp.c:62-65 | between two 192.168.x.y hosts the result is wrong for every segment and following byte, by either measure |
| Checksum.NeverAllOnes | src/net/udp.c:67-76 | exactly when the routine returns 0xFFFF, for any segment and following byte; never on a faithful one |
| Checksum.AcceptanceIsVerification | src/net/udp.c:111-122 | clear-recompute-compare accepts exactly what sums to all ones wherever the recomputed checksum is exact; a valid segment is accepted iff it is |
| Checksum.AcceptsExactly | src/net/udp.c:111-122 | exactly which segments are accepted, valid or not: a congruence modulo 65535 |
| Checksum.ComputedZeroIsRefused | src/net/udp.c:111-122 | a field of 0xFFFF is accepted exactly when sign extension cancels the whole sum |
| Checksum.SingleWordError | src/net/udp.c:41-77 | on segments of any length, changing one aligned word goes unnoticed iff 0x0000 and 0xFFFF are exchanged and no wrap lies between |
| ArpTable.ArpCache.constructor | src/net/arp.c:32-38 | zeroed static storage: clock 0, every slot free |
| ArpTable.ArpCache.Init | src/net/arp.c:44-52 | every slot is freed and the table maps nothing; stamps and clock are untouched |
| ArpTable.ArpCache.Update | src/net/arp.c:61-120 | one slot is written: the address's own, else the first free, else the oldest by the age as written |
| ArpTable.ArpCache.OldestSlot | src/net/arp.c:99-113 | the first slot of greatest positive age, slot 0 when none is positive |
| ArpTable.ArpCache.Flush | src/net/arp.c:128-149 | the clock ticks modulo 256 and exactly the expired entries are freed |
| ArpTable.LearnedIsFound | src/net/arp.c:260-267 | an address just learned is found with its hardware address, in any table |
| ArpTable.LookupAfterUpdate | src/net/arp.c:61-120 | what every lookup returns after an update |
| ArpTable.EvictsAtMostOne | src/net/arp.c:99-114 | a mapping is lost iff the table is full and the address new, and then exactly one |
| ArpTable.UpdateRefinesBoundedMap | src/net/arp.c:61-120 | the table refines a map that never holds more entries than the table has slots |
| ArpTable.UpdateKeepsKeysDistinct | src/net/arp.c:67-119 | live addresses stay distinct |
| ArpAgeing.FlushVerdict | src/net/arp.c:142-144 | a flush frees a live entry iff it turns 120 and, as written, its stamp is at most 135 |
| ArpAgeing.RunKeepsInvariant | src/net/arp.c:61-149 | the ageing invariant holds over every run of updates and flushes, under both age rules |
| ArpAgeing.ReachableAges | src/net/arp.c:107-142 | in every state reachable from boot addresses are distinct, and computed ages are true ages below 120 where stamps age correctly |
| ArpAgeing.EntryLifetime | src/net/arp.c:128-149 | an entry neither refreshed nor evicted dies at exactly its 120th flush, or never when stamped above 135 |
| ArpAgeing.ModuloAgesEveryStamp | src/net/arp.h:43 | under the intended age every such entry lives for fewer than 120 flushes exactly |
| ArpAgeing.WrittenChoice | src/net/arp.c:99-113 | as written the scan picks the first slot of the smallest stamp if that is below the clock, else slot 0 |
| ArpAgeing.EvictsFirstOfTheOldest | src/net/arp.c:104-113 | the slot given up is the first among the truly oldest always under the intended age, and as written if and only if the rounds of the clock agree |
| ArpAgeing.EvictionWithinOneRound | src/net/arp.c:107-110 | while no age reaches 256, whether the slot given up is right is decided by stamps and clock alone |
| ArpAgeing.WrappedEvictionTakesTheYoungest | src/net/arp.c:99-114 | runs from boot after which the next new host takes the slot of the youngest and every other host stays |
| ArpAgeing.SomeRunEvictsTheYoungest | src/net/arp.c:99-114 | one such run exists: 250 flushes, nine hosts, 9 flushes, a tenth, 2 flushes |
| ArpProtocol.TurnRound | src/net/arp.c:185-196 | the copies, in source order, turn the request into the reply of RFC 826 |
| ArpProtocol.Decode | src/net/arp.c:160-215 | table, buffer and length after arp_decode, every branch |
| ArpProtocol.WriteRequest | src/net/arp.c:276-301 | the request written over the packet, field by field |
| ArpProtocol.Encode | src/net/arp.c:228-319 | broadcast, next hop, hit and miss: buffer and length after arp_encode |
| Wire.EncodedOnBytes | src/net/arp.c:228-319 | the three outcomes of arp_encode in bytes: broadcast to six 0xFF, the first slot that holds the next hop, or the 42 bytes of a request for it |
| Wire.ArpOnBytes | src/net/arp.c:160-215 | through net_decode exactly the requests of 42 bytes or more for the host's address are answered, with the 42 bytes given; every other ARP frame leaves the buffer alone |
| Wire.TableOnBytes | src/net/arp.c:174-206 | exactly requests and replies for the host's address teach the table their sender |
| Net.Handshake | src/net/arp.c:160-319 | request and answer leave both hosts mapping each other, and later packets go to that hardware address, whatever either table held |
| Net.DecodeKeepsKeysDistinct | src/net/net.c:129-179 | no received frame of any kind, whatever lengths it declares, breaks the distinctness of ARP addresses |
| Startup.NetInit | src/net/net.c:44-57 | configuration stored, ARP table emptied, arp_flush on a ten-second timer from the second of the call, other timers kept |
| Startup.Start | src/main.c:133-158 | main reaches its loop on the boot state of the ARP table, with both timers set and the echo service alone bound |
| Firmware.TakeTurns | src/main.c:160-166 | any number of turns of net_periodic and timer_periodic is a run of the state machine |
| Firmware.PowerUp | src/main.c:133-166 | from power-up: such a run, begun in the boot state |
| Firmware.ReceivingTeaches | src/net/net.c:95-119 | receiving changes the ARP table as learning, in order, what the bytes received teach |
| Firmware.EveryRunIsSafe | src/main.c:160-166 | over every run of the firmware ARP addresses stay distinct, all sent frames carry the host's address, memory beyond the buffer is not written, and the table is one reachable by updates and flushes |
| Firmware.EveryRunAnswers | src/main.c:160-166 | over every run of the firmware all that is sent is the replies to all arrivals, in order, and nothing besides |
| Firmware.EveryPromptRunKeepsTime | src/main.c:160-166 | over every run whose turns judge the ARP timer within ten seconds, arp_time counts the tens of seconds since net_init modulo 256 |
| Firmware.EveryPromptRunShowsStatus | src/main.c:143 | over every run whose turns judge the status timer within a second, the status is shown once for each second gone by since the timer was set |
| Net.Stack.Decode | src/net/net.c:129-179 | table, buffer and reply length after net_decode, and how far it reads, on every frame whose checksummed datagram, if it is for a bound port, has a loop that ends and lies in memory |
| Net.EndlessNeverReturns | src/net/udp.c:52-54 | where a checksum is recomputed its loop ends exactly if the declared length is not 65535 |
| Net.WritesWithinReceived | src/net/net.c:129-179 | no byte beyond the received length is written |
| Net.RuntsExactly | src/app/echo.c:44 | replies shorter than an IP header are sent exactly when a 16-bit echo length has wrapped |
| Net.LeavesExactly | src/net/net.c:97-118 | on every frame, the endless one included: decoding and answering reads or sends beyond a given size exactly when bound port, checksum field and declared length say so |
| Net.EchoOverrunsBuffer | src/app/echo.c:44 | a frame of 42 to 500 bytes that declares 1000: 1034 are sent |
| Net.ChecksumOverrunsBuffer | src/net/udp.c:117-119 | the same with a checksum: 1034 are read |
| Net.EchoSendsRunt | src/app/echo.c:44 | of 65504 bytes declared, two are sent |
| IpReply.TurnAddresses | src/net/icmp.c:112-118 | the four copies address the frame back to its sender |
| IpReply.TurnedHeaderVerifies | src/app/echo.c:35-41 | the untouched IP checksum verifies in the reply iff old destination and host address have congruent sums; always if equal |
| Icmp.Decode | src/net/icmp.c:38-61 | buffer and length after icmp_decode: the echo requests of 98 bytes or more are answered |
| Icmp.Reply | src/net/icmp.c:106-132 | the in-place reply with its recomputed checksum |
| Icmp.ReplyMessageVerifies | src/net/icmp.c:126-128 | the message checksum of every reply verifies |
| Icmp.EchoReplyIsValid | src/net/icmp.c:106-132 | as a 98-byte exchange: addresses exchanged, type and code zero, identifier to data unchanged, both checksums verify |
| Icmp.ReplyIsExact | src/net/icmp.c:126-131 | the 98 bytes sent hold the datagram they declare iff its IP length is at most 84, and are the reply of RFC 792 iff, below 84, the trailing bytes are harmless |
| Icmp.LongRequestIsCutShort | src/net/icmp.c:131 | proper requests of IP length 85 to 251 whose reply declares more than is sent |
| Icmp.TrailingByteSpoilsReply | src/net/icmp.c:128 | proper requests of IP length 28 to 83, one byte set after the datagram, whose reply carries a wrong checksum |
| Net.PingIsAnswered | src/net/net.c:158-162 | through net_decode a request of any length from 98 is answered with 98 bytes, the ARP table untouched, and the answer is the RFC 792 reply exactly as above |
| Wire.EchoOnBytes | src/net/icmp.c:38-61 | through net_decode, of frames with protocol 1 exactly those of 98 bytes or more with type 8 and code 0 are answered, with the 98 bytes given; every other leaves the buffer alone |
| Wire.PingAnswered | src/net/icmp.c:106-132 | that answer is a valid message, and the RFC 792 reply exactly for repliable requests |
| Udp.UdpBindings.Bind | src/net/udp.c:138-161 | fills the first NULL slot, fails iff full; the port is found at its earliest binding |
| Udp.SearchReadsNullExactly | src/net/udp.c:101-109 | the port search meets a NULL slot iff the port is unbound and the table not full |
| Udp.Check | src/net/udp.c:111-122 | passes iff the field is zero or equals the recomputed checksum; leaves the field cleared; reads exactly the declared datagram, which must lie in memory and not be 65535 long if the field is not zero |
| Udp.Decode | src/net/udp.c:87-129 | buffer, reply length and bytes read after udp_decode, every branch that returns; the declared length matters only for a bound port |
| Udp.AcceptsValidDatagrams | src/net/udp.c:111-122 | on frames, odd datagrams followed by any byte included: the test against RFC 768's, with its exact condition |
| Udp.DropsComputedZero | src/net/udp.c:111-122 | a received 0xFFFF is dropped from every faithful datagram, valid or not, whatever byte follows it |
| Udp.ValidZeroIsDropped | src/net/udp.c:111-122 | a frame with a valid datagram whose computed checksum is zero, and which is dropped |
| Udp.ValidOddDatagramIsDropped | src/net/udp.c:52-60 | a frame with a valid odd datagram followed by 1, and which is dropped |
| Udp.Echo | src/app/echo.c:28-45 | ports and addresses exchanged in place, length as returned |
| Udp.EchoIsFaithful | src/app/echo.c:28-45 | the echo differs from the datagram only in exchanged ports and addresses and a zero checksum, and its IP header verifies |
| Net.DatagramIsEchoed | src/net/net.c:164-167 | an accepted datagram to port 7 returns as its echo, 14 plus the IP length long, and passes the checksum test again |
| Net.ValidDatagramIsEchoed | src/net/net.c:164-167 | a datagram valid under RFC 768 is echoed if and only if its checksum is computed exactly, and is dropped otherwise |
| Net.InvalidDatagramIsDropped | src/net/udp.c:111-122 | a datagram invalid under RFC 768 gets no reply where its checksum is computed exactly |
| Wire.DatagramOnBytes | src/net/udp.c:87-129 | through net_decode a datagram for a bound port that passes is answered with the bytes given, 34 plus its declared length modulo 65536 of them; one that does not only loses its checksum |
| Wire.DatagramAnsweredIfValid | src/net/udp.c:111-122 | answered without a checksum; where the checksum is exact, iff valid under RFC 768; if valid, iff it is exact; never at a faithful 0xFFFF |
| Wire.OthersUnanswered | src/net/net.c:129-179 | no frame but those ARP requests, echo requests and datagrams for bound ports is answered or changed |
| Wire.OnlyEchoesAreAnswered | src/net/net.c:129-179 | an answer that reaches a host running this code, padded or not, is never answered if it is an ARP or echo reply, and an echoed datagram exactly if that host has bound the first source port |
| Net.EchoIsEchoedExactly | src/app/echo.c:28-45 | a peer running this code echoes an echo if and only if it has bound the first datagram's source port |
| Net.EchoesGoOn | src/app/echo.c:28-45 | from port 7 to port 7 the same data goes to and fro for ever |
| Net.EchoNeverStopsExactly | src/app/echo.c:28-45 | between two hosts with the echo service alone the exchange goes on if and only if the source port is 7 |
| Station.Interface.Periodic | src/net/net.c:88-121 | memory, table and frames sent after any sequence of arrivals without the endless one, whatever lengths they declare; what is sent is the replies to the bytes received, in order, and the four 32-bit counters account for all of it |
| Station.Interface.Handle | src/net/net.c:95-119 | one turn of the receive loop, for every arrival on which it returns: table, memory, statistics, and the reply, which is the answer to the bytes received if they hold all of any datagram for a bound port |
| Station.Interface.Fetch | src/dev/eth.c:567-581 | memory then begins with the first min(n, 499) bytes of an intact arrival, terminated, and their number is the length; a damaged one leaves memory alone and length 0 |
| Station.StoredOnBytes | src/net/net.c:97 | the same of the memory and the length that the receive loop goes on with |
| Station.ArrivalsAreAnswered | src/net/net.c:88-121 | over every sequence of arrivals the frames sent are their replies in order of arrival, each the answer to the bytes received if those hold all of any datagram for a bound port |
| Station.TurnLeavesExactly | src/net/net.c:97-118 | exactly which arrivals make a turn read or send beyond the buffer, or beyond the bytes that arrived, for every arrival |
| Station.ServeIsSafe | src/net/net.c:88-121 | over every sequence of arrivals up to an endless one, whatever memory holds, each frame sent, runts included, carries this host's address as source, ARP addresses stay distinct, and nothing beyond the buffer is written |
| Clock.SystemClock.Tick | src/lib/clock.c:61-70 | seconds and milliseconds stay the quotient and remainder of the ticks, across the 32-bit wrap |
| Clock.SystemClock.Play | src/lib/clock.c:61-98 | under any interleaving of interrupts and reads each read shows the true second modulo 2^32 |
| TimerList.TimerTable.Get | src/lib/timer.c:130-142 | the node of the callback, or null |
| TimerList.TimerTable.Unlink | src/lib/timer.c:81-90 | the list stays consistent and loses exactly that node |
| TimerList.TimerTable.Clear | src/lib/timer.c:73-91 | refines removing the callback's timer from a sequence |
| TimerList.TimerTable.Set | src/lib/timer.c:42-66 | refines removing the old timer and putting the new one in front |
| TimerList.TimerTable.Reset | src/lib/timer.c:98-107 | advances that timer's start by its interval and nothing else |
| TimerList.TimerTable.Restart | src/lib/timer.c:114-122 | sets that timer's start and nothing else |
| TimerList.TimerTable.Periodic | src/lib/timer.c:152-182 | one walk, unlinking as it goes, visits each original timer once in order and refines the pass over a sequence |
| Timers.WalkIsPass | src/lib/timer.c:158-181 | walking the changing sequence, removing as it goes, keeps and fires what judging each original timer from left to right does |
| Timers.WithTimerFinds | src/lib/timer.c:42-66 | setting replaces one callback's timer; all stay distinct |
| Timers.PassFiresExpired | src/lib/timer.c:158-165 | a pass fires a timer iff it had expired at its own reading, and once |
| Timers.PassTreatsEachTimer | src/lib/timer.c:165-180 | a timer leaves iff its callback answered false, and advances iff it fired and stayed |
| Timers.CallsInOrder | src/lib/timer.c:158-165 | the callbacks called follow the order of the list, each at most once |
| Timers.KeepsInOrder | src/lib/timer.c:158-181 | the timers left stand in the order of the original list, each callback at most once |
| TimerRuns.JudgedOnTime | src/lib/timer.c:162-180 | whatever its callback, a timer has expired iff true time has reached its start plus its interval, if less than 2^32 seconds lie between; advancing adds the interval |
| TimerRuns.PassFiresOnTime | src/lib/timer.c:158-181 | a pass calls any callback, once, iff the true time of its reading has reached start plus interval; the timer stays, one interval on, iff it answered true |
| TimerRuns.StartNeverDrifts | src/lib/timer.c:162-180 | after k firings the stored start is (s + kd) mod 2^32, and s + kd has been reached |
| TimerRuns.FiresExactlyWhenDue | src/lib/timer.c:162-163 | the (k+1)-th firing happens at a read iff true time has reached s + (k+1)d |
| TimerRuns.FiringsAreWholeIntervals | src/lib/timer.c:152-182 | with reads at most d apart the firings number floor((T - s)/d), for runs of any length |
| ClockRuns.FiringsCountInterrupts | src/lib/timer.c:152-182 | from interrupts: judged at least every 1000 d ticks, a timer has fired once for each whole interval of the seconds gone by |
| ClockRuns.NoDriftUnderInterrupts | src/lib/timer.c:162-180 | from interrupts: however seldom it is judged, for 2^32 - 1 seconds it neither drifts nor fires early |
| MainLoop.RunFollowsArpTimer | src/lib/timer.c:152-182 | among any other timers the ARP timer and clock follow that timer's own run |
| MainLoop.RunFollowsTimer | src/lib/timer.c:152-182 | the timer of any callback that is not cleared follows its own run among the others, and its callback is called as often |
| MainLoop.TimerKeepsTime | src/lib/timer.c:152-182 | judged at most one interval apart, any callback has been called floor((T - s)/d) times |
| MainLoop.ArpClockKeepsTime | src/net/net.c:51-52 | arp_time has advanced by floor((T - s)/10) modulo 256 after every pass, across wraps of both clocks |
| MainLoop.ArpClockCountsInterrupts | src/net/net.c:51-52 | the same counted in clock interrupts, for any interleaving of them with the passes |
| MainLoop.EntryLivesTwentyMinutes | src/net/arp.c:128-149 | in true time: an entry stamped in the current ARP period and not touched since is live exactly while fewer than 1200 seconds have gone by from that period's start, or for ever when stamped above 135 |
| Calendar.YearAdvances | src/lib/date.c:116-132 | subtracting one year's days is one step of floor-division leap counting |
| Calendar.MonthsFillTheYear | src/lib/date.c:105-108 | the month lengths sum to the year's day count |
| Calendar.TimeDecode | src/lib/date.c:153-180 | a valid date whose POSIX closed form is the timestamp; the month table is never indexed past December |
| Calendar.PosixIsAnOrderEmbedding | src/lib/date.c:153-180 | valid dates are ordered as their timestamps and none share one |
| Calendar.DecodeInvertsPosix | src/lib/date.c:153-180 | every valid date in range is what its timestamp decodes to |
| Calendar.WeekdayAgrees | src/lib/date.c:164 | counting days from a Thursday agrees with a congruence on year, month and day |
| Ethernet.EthDriver.SelectBank | src/dev/eth.c:216-230 | the cache and the controller's bank bits after eth_set_bank |
| Ethernet.EthDriver.ReadByte | src/dev/eth.c:291-299 | from a coherent state the value is that of the register the full address names |
| Ethernet.EthDriver.WriteByte | src/dev/eth.c:307-315 | the register the full address names is written, and the cache brought back in step |
| Ethernet.EthDriver.Init | src/dev/eth.c:81-194 | the driver ends coherent, in bank 0, receiving, whatever the cache held before; buffer limits, filter, MAC, gap, PHY and hardware address registers, by number, hold the values of the source, and all others what the reset left |
| Ethernet.NamedByNumber | src/dev/eth.c:216-230 | the register an address names: its low seven bits, or its low five from 0x1B up |
| Ethernet.BankBitsAreBits | src/dev/eth.c:225-226 | the bits set in ECON1 are those of the bank number |
| Ethernet.StepRefinesFlat | src/dev/eth.c:216-315 | one harmless call acts on a flat register file as its full address says |
| Ethernet.WriteCoherentExactly | src/dev/eth.c:307-315 | a banked write keeps the cache coherent iff what it stores in ECON1 keeps the bank bits |
| Ethernet.RunRefinesFlat | src/dev/eth.c:216-315 | over every harmless run the banked controller refines the flat register file |
| Ethernet.ReadBuffer | src/dev/eth.c:437-462 | the bytes read, then a zero, and nothing else |
| Ethernet.Receive | src/dev/eth.c:567-581 | a frame is cut to one byte less than the maximum and terminated, and every range ending with it checksums as RFC 1071 asks |

## Left out

- NULL bindings: `udp_decode` looks through a NULL slot when the port is unbound; the model takes it as no match, and `SearchReadsNullExactly` says when it happens. `udp_unbind`, which frees a slot without clearing it, is not modelled.
- Callbacks other than `arp_flush`, `display_status` and `echo_udp`: known only by their identity and their answers.
- TCP beyond `tcp_checksum`: `tcp_decode` never answers, and is modelled as no reply.
- DHCP, sockets and the packet queue: stubs, or not part of the build.
- `time_encode` and `time_string`: stubs; the POSIX formula is the specification of encoding.
- SPI, UART, TTY, PHY contents, delays, and the controller's ring buffer and transmit path.
- `clock_set_time`, and reads of the clock torn by its interrupt.
- The link status that `net_init` and `net_periodic` read from the controller, and what they print.
- `htonl`, which nothing calls, and the printing functions.
- A timer node freed by `free` is dropped from the list; reuse of its memory is not modelled.
- `Icmp.Reply` does not compare the IP destination with the host address, as the source does not; `TurnedHeaderVerifies` says when the reply's IP checksum survives.
