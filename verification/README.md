# Link simulator, packet format and receiver window

Dafny model of three parts of the repository and proofs about them.

- **The link simulator** (`linksim/`). `Heap.dfy` is the binary heap of `min_queue.c` on sequences, with the index formulas of the source: an array indexed from 0 with children `2x` and `2x + 1`, so that slot 0 has the single child 1. `MinQueue.dfy` is the queue object over its growing array. `Timeval.dfy` holds the field-wise comparison and the subtraction of timestamps, as written. `Proxy.dfy` is `proxy_loop` as a step machine, `Addressing.dfy` the choice of direction by senders before it. `ProxyRuns.dfy` proves what all runs keep, `Provenance.dfy` where what comes out was read, `Punctuality.dfy` how late packets leave, `ProxyExact.dfy` for which parameters of the link time and order are kept in every run. `LinkSim.dfy` is the same code as an object that changes its queue, clock, addresses and timeout in place.
- **The packet format** (`src/packet_implem.c`). `Crc32.dfy` defines CRC-32 as section 8 of RFC 1952 does, `Crc32Words.dfy` on machine words; `Parity.dfy` has parity checks on checksums. `Packet.dfy` is the packet structure with its setters, `Codec.dfy` the encoder and decoder on values, `PacketBuffers.dfy` the same two with a cursor over byte arrays. `LinkFaults.dfy` puts the simulator's faults between encoder and decoder, `Reframing.dfy` takes up the one fault that the checksums can miss, and `ReframingWitness.dfy` shows packets for which they do.
- **The receiver** (`src/receiver.c`). `Receiver.dfy` has the window bookkeeping modulo 256 and the path on which packets arrive in order, `ReceiverFaults.dfy` what damaged packets do to it. Whole runs of the simulator are put before the decoder in `EndToEnd.dfy` and before the receiver in `Delivery.dfy`.

Inputs of the models are: received bytes and their senders, results of `rand()`, clock readings, the instants of signals, and the outcomes of `malloc`, `realloc`, `calloc`, `sendto` and `select`. The host is little-endian with the low bit field first, so byte 0 of a packet is `type << 6 | tr << 5 | window`. A queued slot carries its arrival time and the delay applied, of which the source stores only the sum; a log in a model is history that the source does not store.

## How the pieces fit

Each method is proved equal to a function of the old state, and the theorems are about those functions: `MinQueue.Push` and `Pop` compute `Heap.Pushed` and `Heap.Popped`, the methods of `LinkSim` compute `Proxy.Delivered`, `SimulateLink`, `Processed`, `Timeout` and `Run`, `PacketBuffers.Encode` and `Decode` compute `Codec.Frame` and `Codec.Decode`, and `Receiver.Transfer` computes `Receiver.Receive`.

| source | function of the model |
|---|---|
| `minq_push`, `has_child`, `minq_pop` | `Heap.Pushed`, `Heap.HasChild`, `Heap.Popped` |
| `timeval_cmp`, `timeval_diff`, `pkt_slot_cmp` | `Timeval.Gt`, `Timeval.Diff`, `Proxy.SlotGt` |
| `deliver_delayed_pkt`, `simulate_link`, `process_incoming_pkt` | `Proxy.Delivered`, `Proxy.SimulateLink`, `Proxy.Processed` |
| senders and directions in `process_incoming_pkt` | `Addressing.LearnedFrom`, `Addressing.Classified` |
| `get_queue_timeout`, one round of `proxy_loop` | `Proxy.Timeout`, `Proxy.Step` |
| drop, truncate, invert in `simulate_link` | `LinkFaults.FateOf`, `LinkFaults.Damaged` |
| `pkt_encode`, `pkt_decode` | `Codec.EncodeStatus` and `Codec.Frame`, `Codec.Decode` |
| `is_in_window`, one round of `selective_repeat_receiver` | `Receiver.IsInWindow`, `Receiver.HandleArrival` |

## Where code and documentation disagree

The model follows the code.

- `linksim/link_sim.c:203` says the delay is capped to 10 s; line 214 reduces it modulo 10 s (`Proxy.DelayReduced`), and sums of parameters beyond 2^32 wrap before that (`Proxy.DelayAsAsked`, `Proxy.ReducedExactly`).
- `linksim/link_sim.c:114` says `timeval_diff` subtracts; it loses the carry when the seconds differ by one and the microseconds underflow (`Timeval.DiffExact`). The one-millisecond floor of `get_queue_timeout` hides this.
- `linksim/link_sim.c:509` gives the loss rate in packets of 100; draws have 101 values, so a rate of 100 does not lose every packet (`LinkFaults.LossRates`); how many draws have which fate is said by `LinkFaults.LossCount`, `LinkFaults.CutCount` and `LinkFaults.InvertedCount`.
- Expiry dates are not normalised but compared field by field. Packets can leave before their time, and in the reverse of the order of their times. `ProxyExact.NeverEarlyExactly` and `ProxyExact.ChronologicalExactly` say for exactly which parameters of the link this cannot happen; by how much it can is bounded by `ProxyRuns.Earliness` and `Punctuality.LatenessBound`.
- For the same reason the timeout handed to `select` can hold a full second or more in its microseconds, which some systems refuse (`ProxyExact.LongTimeoutExactly`).
- An interrupted `select` is called again with the whole timeout, computed from a clock reading that is not refreshed: signals delay packets without bound although every call keeps to its timeout (`Punctuality.SignalsDelay`; the most that a number of signals can do is `Punctuality.WorstReached`).
- The heap is not stable: packets with equal expiry dates, for the same end, can leave in another order than they came (`ProxyExact.TiesReversed`), in some run of every link that delays (`ProxyExact.FifoWithTiesExactly`).
- `src/packet_interface.h:72-75` says `pkt_decode` checks the length against the number of bytes received; below 11 bytes it refuses (`Codec.DecodeStatus`), from 11 bytes on it does not look at that number (`Codec.DecodeIgnoresLen`), but never reads past byte 527 (`Codec.ReadsStayInBuffer`).
- A DATA packet without payload gets no second checksum from `pkt_encode`, and `pkt_decode` looks for one (`Codec.EndOfTransferRoundTrip`).
- `pkt_decode` takes lengths below 128 on two bytes and ignores a length beyond 512 in an acknowledgment, neither of which `pkt_encode` writes (`Codec.WideAccepted`). It also takes acknowledgments with TR set, which `pkt_encode` refuses (`Codec.TrUnchecked`).
- An inverted byte 1 frames a packet anew, and the damage can go unnoticed. `Reframing.IntegrityExact` gives the condition on the packet and the bytes behind it; `ReframingWitness.AckForged` and `ReframingWitness.DataForged` give packets that meet it. Every link that corrupts has a run in which this happens, and no other link has (`EndToEnd.SoundExactly`).
- `receive_pkt` returns 1 for packets that decode, for those that do not, and for a failing `recv`. The receiver therefore accepts the empty last packet although that rarely decodes, but also writes payloads that the decoder has found corrupted, ends a transfer early on a truncated packet when it expects sequence number 0, and more: `ReceiverFaults.NextTable` has every case.

## Model

| member | source | states |
|---|---|---|
| Heap.PushCorrect | linksim/min_queue.c:98-113 | for any strict weak order, a push keeps "no parent `e[i/2]` exceeds `e[i]`" for all i from 1 up, and adds exactly the new element |
| Heap.SiftUpKeepsOrder | linksim/min_queue.c:101-112 | the hole-moving loop ends in heap order when started with a heap that has one hole |
| Heap.NoChild | linksim/min_queue.c:117-130 | the answer 0 of `has_child` means no child at all or, at the root only, a child 1 that is not smaller |
| Heap.SmallestChild | linksim/min_queue.c:117-130 | any other answer of `has_child` is a child that no child undercuts, the left one unless the right one is smaller |
| Heap.PopCorrect | linksim/min_queue.c:132-153 | a pop keeps the heap order, through the step from slot 0 to slot 1, and removes one occurrence of the root, which is minimal |
| Heap.PeekMinimal | linksim/min_queue.c:155-160 | the root is a minimal element |
| Heap.RefinesPriorityQueue | linksim/min_queue.c:82-160 | on every interleaving of pushes and pops the heap behaves as a multiset from which each pop takes some minimal element |
| Heap.DrainSorts | linksim/min_queue.c:132-160 | emptying the queue with peek and pop yields a sorted permutation of its contents |
| Heap.PushCostBound | linksim/min_queue.h:30-32 | a push onto n elements makes at most floor(log2 n) + 1 comparisons |
| Heap.PopCostBound | linksim/min_queue.h:30-32 | a pop that leaves m elements makes at most 2 (floor(log2 m) + 1) comparisons |
| Heap.PushCostExact | linksim/min_queue.c:98-113 | one comparison for each level climbed and one at the parent not passed: floor(log2 n) - floor(log2 j) + 1 for an element put in slot j |
| Heap.PopCostExact | linksim/min_queue.c:132-153 | two comparisons for each level sunk, one at an only child, and those with the children of the slot where the element stays |
| MinQueue.GrowsByNeed | linksim/min_queue.c:86-97 | the array always has the least multiple of 20 slots, at least 20, that held the queue at its largest |
| MinQueue.New | linksim/min_queue.c:59-73 | nothing if and only if one of the two allocations fails; else a new queue, empty, with room for 20 |
| MinQueue.MinQueue.Push | linksim/min_queue.c:82-114 | the array loop computes `Heap.Pushed`; the room is a multiple of 20 that never falls short; when realloc fails the queue is unchanged and -1 is returned; order, contents and comparison count as above |
| MinQueue.MinQueue.SmallerChild | linksim/min_queue.c:117-130 | computes `Heap.HasChild` |
| MinQueue.MinQueue.Pop | linksim/min_queue.c:132-153 | the swap loop computes `Heap.Popped`, nothing on an empty queue; order, contents and comparison count as above |
| MinQueue.MinQueue.Peek | linksim/min_queue.c:155-160 | the root, or nothing; minimal if the queue is in heap order |
| Timeval.GtIsStrictWeakOrder | linksim/link_sim.c:105-112 | the comparison is a strict weak order, as the heap needs |
| Timeval.ExpiryFacts | linksim/link_sim.c:227-230 | an expiry date stands for arrival plus delay, is not below the arrival field by field, and its microseconds stay below 1 999 000 |
| Timeval.DiffExact | linksim/link_sim.c:114-126 | `timeval_diff` is exact if and only if it is not the case that seconds differ by one and microseconds underflow |
| Timeval.EarlyPossible | linksim/link_sim.c:105-112 | some clock reading counts a packet expired too early if and only if its microsecond field exceeds one million |
| Timeval.EarlyBound | linksim/link_sim.c:155 | too early by at most 998 999 microseconds |
| Timeval.PastIsExpired | linksim/link_sim.c:155 | a packet whose time has passed always counts as expired |
| Timeval.OrderReversed | linksim/link_sim.c:105-112 | two dates of which the field-wise greater is the earlier instant: exactly those a second apart of which the lesser runs more than a second ahead in microseconds |
| Timeval.LexBound | linksim/link_sim.c:105-112 | two expiry dates in field-wise order are at most 998 999 microseconds out of order in time |
| Timeval.SleepExact | linksim/link_sim.c:336-345 | the sleeping time is exactly the time left, or one millisecond when none is left, the packet counts as expired, or the carry is lost; never negative |
| Timeval.SleepNormalised | linksim/link_sim.c:332-345 | its microseconds reach a full second exactly when the seconds do not have to borrow and the microseconds of the date are a second or more ahead |
| Proxy.DelayAsAsked | linksim/link_sim.c:203-214 | for every result of `rand()` the delay applied is the configured delay with its jitter if and only if that is below ten seconds and the interval drawn from has not wrapped to one that ends before the draw; it is never more |
| Proxy.DelayReduced | linksim/link_sim.c:203-214 | the delay applied differs from the one drawn by whole tens of seconds, and where the sum of delay and draw reaches 2^32 by 2^32 milliseconds besides; what is drawn is what was asked unless the interval wraps |
| Proxy.ReducedExactly | linksim/link_sim.c:203-214 | unless the interval wraps, what was asked is reduced modulo ten seconds if and only if it is below 2^32 |
| Proxy.ReducedFails | linksim/link_sim.c:209 | parameters and a draw for which it is not |
| Proxy.DrainIsPrefix | linksim/link_sim.c:151-171 | a drain writes a prefix of the queue's expiry order and leaves the rest |
| Proxy.DrainKeeps | linksim/link_sim.c:151-171 | whatever the writes return, a drain keeps the heap, moves expired slots only, in expiry order, none later than a slot left behind, and loses none |
| Proxy.PoppedIffWritten | linksim/link_sim.c:155-169 | a slot leaves the queue if and only if its write succeeded; the drain fails exactly on an error other than "try again" |
| Proxy.CleanDrain | linksim/link_sim.c:150-171 | when no write fails, all expired slots are written and exactly the others stay |
| ProxyRuns.RunKeeps | linksim/link_sim.c:350-377 | heap order, allocation size, dates, conservation and order hold after every run, failed ones included |
| ProxyRuns.EmissionOrder | linksim/link_sim.c:350-374 | over a whole run delayed packets are written in non-decreasing expiry order; accepted packets are those written plus those queued, as multisets |
| ProxyRuns.RunEnds | linksim/link_sim.c:350-377 | the loop ends in the first round in which `select`, the clock, the read, an allocation or a write fails, a write that can be tried again excepted, and not before; what comes after has no effect |
| ProxyRuns.NothingSwallowed | linksim/link_sim.c:182-303 | in a run without failure exactly the packets that are long enough and not lost are accepted, with the clock of their round, or go out at once, in order |
| ProxyRuns.FirstInFirstOut | linksim/link_sim.c:202-235 | with one delay for all packets and a clock that moves between arrivals, packets written followed by the queue in expiry order are the accepted packets in order |
| ProxyRuns.Earliness | linksim/link_sim.c:155 | in every run a delayed packet is written after its arrival, at most 998 999 microseconds early, and not early if arrival and delay add up to at most one second in microseconds |
| ProxyRuns.Oversleep | linksim/link_sim.c:328-347 | the timeout is positive and oversleeps no queued packet by more than 998 999 microseconds, one millisecond apart |
| Punctuality.LatenessBound | linksim/link_sim.c:350-374 | if writes succeed and each `select` returns within `slack` of its timeout, every delayed packet of a run leaves at most 998 999 microseconds early, and late by at most `Worst` of the signals in a row: the overrun of every call, and the greater of one longest timeout for every signal and 998 999 microseconds with one timeout a microsecond shorter for every signal |
| Punctuality.RoundLateness | linksim/link_sim.c:350-374 | packet by packet: late by at most that, for the signals since the wake-up before its own |
| Punctuality.SignalsDelay | linksim/link_sim.c:360-364 | for every delay and number of signals there is a run in which `select` overruns its timeouts by `slack` exactly and a packet leaves that number of delays too late, and the overruns besides |
| Punctuality.WorstReached | linksim/link_sim.c:350-374 | that bound is the least: for every number of signals and every `slack` a run of the program in which a packet is late by exactly that |
| ProxyExact.ChronologicalExactly | linksim/link_sim.c:202-235 | in every run the delayed packets (relayed ones are never queued and not compared) leave in the order of arrival plus delay, if and only if the link delays or passes nothing, or can only draw one delay |
| ProxyExact.NeverEarlyExactly | linksim/link_sim.c:150-171 | in no run a delayed packet leaves early, if and only if the link delays or passes nothing, or delays everything by one number of whole seconds |
| ProxyExact.FifoExactly | linksim/link_sim.c:202-235 | every run with a clock that moves between arrivals is first in, first out for the delayed packets (relayed ones are not compared with them), if and only if the link delays or passes nothing, or can only draw one delay |
| ProxyExact.FifoWithTiesExactly | linksim/min_queue.c:82-153 | without that proviso about the clock, again for delayed packets only, if and only if the link delays or passes nothing |
| ProxyExact.TiesReversed | linksim/min_queue.c:82-153 | packets with one expiry date leave: the first that came, then the others in reverse |
| ProxyExact.Tie | linksim/link_sim.c:202-235 | on every other link there is a run in which, of three packets sent the same way at one reading of the clock, the second and third change places, and their bytes differ |
| ProxyExact.LongTimeoutExactly | linksim/link_sim.c:328-347 | some run hands `select` a timeout with a full second in its microseconds if and only if the link can draw a delay above one second that is no number of whole seconds, as `LongDrawn` computes from its parameters, wrap-around included |
| LinkSim.LinkSim.constructor | linksim/link_sim.c:459-466 | an empty queue and a first reading of the clock |
| LinkSim.LinkSim.DeliverDelayed | linksim/link_sim.c:151-171 | the peek-write-pop loop computes `Proxy.Delivered` on the object's state, and terminates |
| LinkSim.LinkSim.SimulateLink | linksim/link_sim.c:182-244 | damages the buffer in place, then queues or forwards: computes `Proxy.SimulateLink` |
| LinkSim.LinkSim.Damage | linksim/link_sim.c:190-200 | the bytes left in the buffer are those of `LinkFaults.Damaged` |
| LinkSim.LinkSim.GetQueueTimeout | linksim/link_sim.c:328-347 | answers nothing on an empty queue, else `Proxy.Timeout`, left in the static variable; touches nothing else |
| LinkSim.LinkSim.ProcessIncoming | linksim/link_sim.c:247-303 | learns the near end, drops short packets and those of strangers, relays or simulates by direction: computes `Proxy.Processed` on what `Addressing.Classified` makes of the packet |
| LinkSim.LinkSim.TellDirection | linksim/link_sim.c:270-286 | remembers the first sender; forward from the near end, else reverse from the far end, else 0 |
| Addressing.FirstSenderKept | linksim/link_sim.c:270-277 | the near end is the sender of the first packet of ten bytes or more, for good |
| Addressing.StrangersIgnored | linksim/link_sim.c:284-290 | what strangers and too short packets bring has no influence on any run |
| Addressing.DirectionsTold | linksim/link_sim.c:264-303 | of the packets of ten bytes or more, those of the near end go in direction 1, those of the far end, if it is another, in direction 2; each is simulated or relayed as the link is configured, with all that was read; nothing else is heard |
| Provenance.LeavesFrom | linksim/link_sim.c:182-303 | every datagram that leaves in a run is one packet of ten bytes or more that came in, relayed as it was or after the fate drawn for it, in its direction |
| Provenance.NeverSentBack | linksim/link_sim.c:128-147 | every datagram that leaves was read from one end and goes to the other, unless both are the same |
| Provenance.OtherWayUntouched | linksim/link_sim.c:291-298 | on a link that simulates one direction, what goes the other way was read, byte by byte, from the end it comes from |
| LinkSim.LinkSim.ProxyLoop | linksim/link_sim.c:350-377 | the loop computes `Proxy.Run`, senders resolved by `Addressing.Resolved` |
| Crc32.ShiftInjective | src/packet_implem.c:166 | one shift of the CRC register loses nothing |
| Crc32.ShiftLinear | src/packet_implem.c:166 | one shift is linear |
| Crc32.UpdateIsEightShifts | src/packet_implem.c:166 | the table-driven update by a byte is eight shifts of the register |
| Crc32.MeetBack | src/packet_implem.c:166 | two registers that agree after at most 32 bits each differed by exactly what the bits differ |
| Crc32.BurstDetected | src/packet_implem.c:195-199 | strings of equal length that differ, but only within 32 consecutive bits, wherever these begin, have different checksums |
| Crc32.ByteDetected | src/packet_implem.c:195-199 | one changed byte changes the checksum |
| Crc32Words.RegisterBits | src/packet_implem.c:166 | the register on 32-bit machine words, shifts and exclusive-or as the processor does them, is the one on binary digits after every string |
| Parity.RegisterParity | src/packet_implem.c:166 | the parity of chosen bits of the register is that of chosen bits of the string and of the register before, those chosen by the last mask taken back byte by byte |
| Parity.AckNeverRepeats | src/packet_implem.c:160-170 | no acknowledgment whose other bytes repeat its sequence number has a checksum that goes on likewise after byte 1 is inverted |
| Parity.DataNeverRepeats | src/packet_implem.c:160-170 | no DATA header of bytes 127 has a checksum that begins with 127 |
| Packet.Pkt.SetTr | src/packet_implem.c:367-376 | refused unless the type is DATA; keeps the low bit |
| Packet.Pkt.SetWindow | src/packet_implem.c:378-386 | refused above 31 |
| Packet.Pkt.SetLength | src/packet_implem.c:393-399 | refused above 512, with the old length kept |
| Packet.Pkt.SetPayload | src/packet_implem.c:411-429 | status and new value in each case: too long, nothing to set, no memory after the old payload is gone, and success |
| Packet.Pkt.CreateData | src/packet_utils.c:44-75 | success exactly when every setter accepts; the packet then has the arguments, and with TR 0 and a payload it is sendable |
| Packet.Pkt.CreateAck | src/packet_utils.c:77-104 | success exactly for windows up to 31; a fresh packet becomes a sendable acknowledgment |
| Codec.SpaceExact | src/packet_implem.c:207-216 | the bytes `pkt_encode` writes are those it checked for if and only if a payload is present just when the length is not 0 (with TR set it may be empty) |
| Codec.EncodeStatusExact | src/packet_implem.c:207-252 | E_NOMEM if and only if the space, read as an int, is less than the frame, for packets whose payload is present just when the length is not 0; otherwise E_TR for TR outside DATA, then E_TYPE, then E_LENGTH from 0x8000 |
| Codec.ChecksumIgnoresTr | src/packet_implem.c:277-287 | the first checksum of a packet with TR is that of the packet without |
| Codec.FrameSize | src/packet_implem.c:205-312 | frames of sendable packets have 11 to 528 bytes, as checked and as allocated |
| Codec.ReadsStayInBuffer | src/packet_implem.c:113-203 | `pkt_decode` never reads past byte 527 |
| Codec.DecodeStatus | src/packet_implem.c:113-203 | each answer of `pkt_decode` if and only if: E_NOHEADER below 7 bytes and E_UNCONSISTENT from 7 to 10 (the structure untouched in both), E_TYPE for type 0, E_TR for truncated DATA, E_NOMEM for a payload over 512 bytes or without memory, E_CRC for a checksum that disagrees |
| Codec.DecodedFields | src/packet_implem.c:121-158 | what is left in the structure whatever the answer: byte 0, and the sequence number, timestamp and first checksum where they lie in the buffer, unless byte 0 is refused |
| Codec.DecodedPayload | src/packet_implem.c:132-201 | likewise the length, the payload and its checksum, without memory and for lengths over 512 included |
| Codec.TrUnchecked | src/packet_implem.c:160-172 | a frame with TR set on the way: refused if DATA, accepted with TR if an acknowledgment |
| Codec.DecodeIgnoresLen | src/packet_implem.c:113-119 | from 11 bytes on the answer does not depend on the number of bytes received |
| Codec.RoundTrip | src/packet_implem.c:113-312 | the frame of a sendable packet, anything behind it, decodes to PKT_OK and the fields and payload sent |
| Codec.FramesExactly | src/packet_implem.c:113-312 | converse of the round trip: a datagram is accepted by `pkt_decode` and has its length field as short as possible (0 in acknowledgments) and TR clear if and only if 11 bytes or more came and the buffer starts with the frame of some packet, and then it decodes to such a packet |
| Codec.WideAccepted | src/packet_implem.c:132-141 | the other accepted buffers at work: DATA with its length on two bytes, and acknowledgments with any two-byte length, decode to PKT_OK, and to the packet meant unless an acknowledgment is given a length from 1 to 512 |
| Codec.PrefixFree | src/packet_implem.c:205-312 | no frame is a proper prefix of another, and equal frames come from equal contents |
| Codec.EndOfTransferRoundTrip | src/packet_implem.c:174-201 | a DATA frame without payload decodes to PKT_OK exactly when four zero bytes happen to follow, to E_CRC otherwise, with its fields set in both cases |
| PacketBuffers.VaruintDecode | src/packet_implem.c:38-60 | value and size of a one- or two-byte integer; the two bytes are swapped in place; -1 if too short |
| PacketBuffers.VaruintEncode | src/packet_implem.c:62-75 | the one or two bytes written, the rest of the buffer kept; -1 for values from 0x8000 |
| PacketBuffers.Encode | src/packet_implem.c:205-312 | status in each case; on success exactly the frame is written and the rest of the buffer kept; what is left behind on each error |
| PacketBuffers.Decode | src/packet_implem.c:113-203 | computes `Codec.Decode`, the partly filled structure on errors included |
| PacketBuffers.SendSpaceSuffices | src/packet_utils.c:116 | the buffer `send_pkt` allocates is never too small, neither for what `pkt_encode` checks nor for what it writes, whatever the packet |
| PacketBuffers.SendPkt | src/packet_utils.c:114-136 | the datagram handed to `sendto` is the frame; when it fails |
| PacketBuffers.ReceivePkt | src/packet_utils.c:150-164 | fills the structure as `pkt_decode` does and returns 1 in any case, a failing `recv` included |
| LinkFaults.FatesArePossible | linksim/link_sim.c:185-200 | every result of the draws is a loss, a cut of long enough DATA, one inverted byte inside the packet, or nothing |
| LinkFaults.LossRates | linksim/link_sim.c:57-58 | some packet is lost if and only if the loss rate is not 0, and every packet only if it exceeds 100 |
| LinkFaults.DrawsCycle | linksim/link_sim.c:57-58 | draws with the same remainders modulo 101, and modulo the length for the byte to invert, have the same fate |
| LinkFaults.LossCount | linksim/link_sim.c:185 | of the 101 draws, min(loss rate, 101) lose the packet |
| LinkFaults.CutCount | linksim/link_sim.c:190 | of the 101 draws for a packet not lost, min(cut rate, 101) truncate it if it is DATA of more than 12 bytes, none otherwise |
| LinkFaults.InvertedCount | linksim/link_sim.c:196 | of the 101 draws for a packet neither lost nor truncated, min(error rate, 101) invert a byte of it, the others leave it alone |
| LinkFaults.EveryByteReached | linksim/link_sim.c:198 | any byte can be the one inverted |
| LinkFaults.CutLeaves | linksim/link_sim.c:190-194 | truncation leaves 12 bytes, the bit 0x20 of the first set |
| Provenance.TruncatesExactly | linksim/link_sim.c:182-374 | some run of the proxy lets out something shorter than everything that came in if and only if the cut rate is not 0 and the loss rate is at most 100 |
| LinkFaults.TypeByteRejected | linksim/link_sim.c:196-199 | byte 0 inverted: E_CRC for DATA, E_TR for ACK, E_TYPE for NACK |
| LinkFaults.HeaderByteRejected | src/packet_implem.c:160-170 | another header byte or a byte of its checksum inverted, byte 1 excepted: E_CRC |
| LinkFaults.BodyByteRejected | src/packet_implem.c:195-199 | a byte of the payload or its checksum inverted: E_CRC, or E_NOMEM without memory |
| LinkFaults.CutRejected | src/packet_implem.c:127-129 | a truncated packet: E_TR |
| Reframing.ByteOneAccepted | src/packet_implem.c:132-170 | byte 1 inverted: PKT_OK if and only if the packet reframes, which is said of the packet and the bytes behind its frame: one checksum of header bytes equals the shifted rest of the other and, in DATA, the length seen fits and a checksum inside the payload agrees |
| Reframing.AckAccepted | src/packet_implem.c:160-170 | for acknowledgments this is one equation between two checksums and the byte behind the frame, which at most one such byte satisfies |
| Reframing.LengthByteRejected | src/packet_implem.c:411-414 | byte 1 inverted in DATA of fewer than 125 bytes, or of 125 unless the sequence number is 0: always found, as E_NOMEM or E_CRC |
| Reframing.SeenIsAnother | src/packet_implem.c:132-170 | what reframes never passes for the packet sent |
| Reframing.Integrity | linksim/link_sim.c:182-200 | encode any packet of the protocol, the last one of a transfer included, damage, decode: PKT_OK only for an undamaged frame, and then the packet sent, or for a reframed one |
| Reframing.IntegrityExact | linksim/link_sim.c:182-200 | what is accepted is what was sent if and only if byte 1 was not inverted or the packet does not reframe |
| ReframingWitness.AckForged | linksim/link_sim.c:196-199 | an acknowledgment of packet 0 that, with byte 1 inverted and a zero byte behind it, is accepted as one of packet 115 |
| ReframingWitness.DataForged | linksim/link_sim.c:196-199 | a family of DATA packets of 256 bytes that, with byte 1 inverted, are accepted with 126 other bytes, whatever follows |
| EndToEnd.RunIntegrity | linksim/link_sim.c:182-374 | over whole runs of the proxy, delays included, a datagram that comes out decodes to PKT_OK only as one of the packets sent, or, on a link that corrupts, is the frame of one with byte 1 inverted that reframes |
| EndToEnd.ForgedRun | linksim/link_sim.c:182-374 | on every link that corrupts, with any delay, there is a run in which only an acknowledgment of packet 0 goes in, and one of packet 115 is accepted if a zero byte lies behind it |
| EndToEnd.SoundExactly | linksim/link_sim.c:182-374 | whatever is sent, every run is sound - what is accepted of what comes out was sent - if and only if the error rate is 0 or the loss rate exceeds 100 |
| Delivery.SimulatedNotRelayed | linksim/link_sim.c:288-303 | whoever sends, nothing is relayed in a direction that is simulated |
| Delivery.LeavingInOrder | linksim/link_sim.c:182-377 | on a link that keeps order - without delay, or with one delay and a clock that moves between arrivals - what has left toward one end are the first of the packets let through, in order, each after its fate; without delay all of them |
| Delivery.DamagedDelivery | linksim/link_sim.c:182-377 | behind such a link, whatever it loses, truncates and corrupts, the receiver writes the stream in order and once each as long as no damage has a harmful effect by the table of `ReceiverFaults` |
| Delivery.LinkDelivers | linksim/link_sim.c:350-377 | behind such a link that neither truncates nor corrupts, but may lose, the receiver writes the payloads of the stream in order and once each, as far as the packets let through and delivered reach |
| Receiver.WindowMeaning | src/packet_utils.c:106-112 | of the packets not after the next one, the window admits the next one and those 254 or 255 before it, modulo 256 |
| Receiver.HandleFollows | src/receiver.c:122-215 | one packet at most 253 before the next one: accepted exactly if it is the next one, and then acknowledged with its number, its timestamp and window 3; else without effect |
| Receiver.StreamReceived | src/receiver.c:80-219 | from frames of an unbounded stream, repeated up to 253 back, the receiver writes the payloads in order and once each up to the first empty packet; window and acknowledgments are counted modulo 256 through any number of wraps, and acknowledgment k has the timestamp field of the first datagram with packet k |
| ReceiverFaults.DamagedArrival | src/receiver.c:107-215 | any DATA packet after any fate: `ReceiverFaults.FateEffect` tells from the packet, the fate and the number expected whether it is discarded, leads astray, or is accepted and with which bytes; output, window and acknowledgments change accordingly, the acknowledgment with the timestamp that `ReceiverFaults.FateStamp` tells from packet and fate |
| ReceiverFaults.NextDamaged | src/receiver.c:122-215 | the next packet of the stream: the receiver stays true to the stream if and only if it does not write something else, and ends if and only if it writes nothing |
| ReceiverFaults.NextTable | src/receiver.c:122-155 | these effects in numbers: truncation ends the transfer at sequence number 0 and leads astray at 254 and 255; an inverted sequence number leads astray at 127 and 255; the low length byte ends the transfer for lengths 255 and 512; other header bytes lead astray unless the packet is empty; payload damage is written; the second checksum does not matter |
| ReceiverFaults.ShortReframed | src/packet_implem.c:393-399 | byte 1 inverted in DATA of fewer than 125 bytes ends the transfer if the first byte of the timestamp is the number expected |
| ReceiverFaults.CorruptionWritten | src/packet_utils.c:157-163 | an inverted payload byte gives E_CRC, and the receiver accepts, acknowledges with the timestamp sent, and writes the corrupted payload |
| ReceiverFaults.DamagedStream | src/receiver.c:80-219 | over whole runs with damaged packets, as long as none has a harmful effect by that table, the receiver writes the stream in order and once each, and acknowledges the packets accepted with their timestamps |
| Receiver.Transfer.ReceiveAll | src/receiver.c:96-216 | the while loop computes `Receiver.Receive` |
| Receiver.Transfer.HandlePacket | src/receiver.c:122-215 | computes `Receiver.Handle` on the object's state: window and type first, then the number expected, then the payload |

## Left out

- Sockets, `select`, address resolution, `getopt`, file creation, logging and printing: represented by inputs, or not at all. Whether `select` refuses a timeout is not modelled.
- NULL arguments of the queue, the setters, `varuint_len` and `predict_header_length`, and the freeing of memory.
- Widths of `size_t` in the queue and of the seconds of a timestamp; the unsigned arithmetic of delays is modelled modulo 2^32.
- Parameters for which `delay + jitter` or `2 * jitter` is 0 modulo 2^32: the source then divides by zero.
- The receiver's buffering branch and the loop that empties its buffer (`src/receiver.c:157-189`), with the variables `buffer` and `free`: a run that would enter it is marked as astray, as is one that would write from a payload that is not there; before that the buffer stays empty and `free` keeps its first value.
- In the receiver: failing `calloc`, `recvfrom`, file creation and `sendto`. A failing `recv` is a length of 2^64 - 1, as in the code.
- src/sender.c, which is unfinished, old/ and skeletton/.
