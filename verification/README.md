# A verified model of det-bypass

det-bypass measures network latency with a ping-pong between two machines over
several datapaths: UDP sockets, XDP with a map polled from user space, AF_XDP
sockets, a pure XDP responder, and RDMA (UD and RC). Its datapaths are small
concurrent protocols. This project models them in Dafny and proves what they
promise; `dafny verify dfyconfig.toml` checks everything.

| file | models |
|---|---|
| `PacketMap.dfy` | the 128-slot map shared by the XDP program and the polling application |
| `UmemFrames.dfy` | the 4096 UMEM frames of the AF_XDP socket, its rings and the kernel |
| `UmemCalls.dfy` | the calls of that socket as runs, and which frames they move where, in which order |
| `UmemSocket.dfy` | the socket itself, in place |
| `UmemRefill.dfy` | when the refill of its fill ring runs out of frames |
| `Bitset.dfy` | the packed bitset of pending sends |
| `UdServer.dfy` | the 128 buffers of the RDMA UD server and their completions |
| `UdClient.dfy` | the one send buffer shared by the two threads of the UD client |
| `RcCredits.dfy` | the receive credits of the RDMA RC mode |
| `PayloadWords.dfy` | the payload as twelve 32-bit words of memory |
| `Payload.dfy` | the ping-pong payload and its latency |
| `PayloadLayout.dfy` | how the fields of the latter lie in the words of the former |
| `Histogram.dfy` | the streaming histogram of differences and latencies |
| `BucketFile.dfy` | its report, and the analysis script that reads it back |
| `Ipv4Checksum.dfy` | the header rewrite of the pure XDP responder |
| `PingPong.dfy` | the protocol end to end over UDP |
| `Pacing.dfy` | the paced sending loop |
| `Numbers.dfy` | minimum and maximum |

How the concurrent parts are stated. A state is a value; `Step` is the effect of
one atomic action of any participant (a thread, the kernel, the adapter, the
network), and an action that is not enabled changes nothing. `Run` folds `Step`
over a schedule. A theorem about every schedule is therefore a theorem about
every interleaving and every reachable state. Beside each state machine stands
a class that does the same in place, in the shape of the C code; its methods are
proved against `Step`. The methods for whole calls of the packet map, the AF_XDP
socket and the UD client's send path also take as parameters what the other
participants do between their accesses (`meanwhile`, and `gap` where the handler
of the AF_XDP socket waits for the lock); the calls of the AF_XDP socket are
proved equal to a run of the state machine with the call's own actions in their
order, and so are the two loops of the UDP ping-pong. What steps and calls come
to is also stated without them, in terms of frames, payloads and numbers. Fields
called history record the run and are read by no step.

Assumptions. Memory accesses are sequentially consistent, one 32-bit word (or
one bitset byte) at a time. The XDP program runs one call at a time: the flow is
steered to one queue. libxdp rings are bounded FIFOs of a common size; the
kernel moves frames from fill to RX and from TX to completion at any time and in
any order. Posting RDMA work succeeds in UD mode. The two clocks of the
ping-pong run at the same rate from unrelated origins.

Where code and comments disagree, the model follows the code. The comment at
xdp/pingpong.c:33-35 says that packets are overwritten when the map is full; the
code drops the new packet, and no accepted packet is ever overwritten. The
comment at xdp/pp_poll.c:35 says that `poll_next_payload` returns the index of
the payload it found; it returns the next index. common/net.h gives the send
interval in microseconds; the loop uses nanoseconds.

Findings that are part of the theorems. The pure XDP responder sets the TTL
after computing the checksum, so its reply verifies only if the ping arrived with
TTL 64. The absolute histogram index can leave the table for some send
intervals, and divides by zero for 20000 intervals next to 2^64; both exact
conditions are proved. The UDP client counts in 32 bits and never finishes from
2^32 iterations on. A refill of the fill ring counts free ring entries, not free
frames: it draws the invalid frame if and only if, at the count, some frame is
free but fewer than there are free fill entries. Runs that do so are given for
every ring size from 2 to 4096, the default of 2048 included; a refill of a ring of
one entry never fails. The script and the C code disagree on negative latencies,
and a payload is given.

## Model

| member | source | states |
|---|---|---|
| PacketMap.DeliveredIsPrefixOfAccepted | xdp/pingpong.c:56-90 | after every word-level interleaving of one producer and the consumer, the delivered payloads are a prefix of the accepted ones, word for word and in order; the accepted ones are exactly those not dropped; both indices equal those counts mod 128, however many drops there were; at most 128 packets are unread |
| PacketMap.DroppedExactlyWhenFull | xdp/pingpong.c:68-81 | in every reachable state a packet is rejected if and only if all 128 slots hold a valid magic, which is if and only if 128 accepted packets are unread |
| PacketMap.BusyWaitEndsExactlyWhenUnread | xdp/pp_poll.c:42 | the polled slot is valid if and only if some accepted packet is undelivered |
| PacketMap.NeverInTheSameSlot | common/common.h:101-109 | a slot is never written by the producer while the consumer copies or zeroes it, so nothing torn is read and nothing new is zeroed |
| PacketMap.RunKeepsInv | xdp/pingpong.c:40-91 | the content of every word of every slot follows from the history and the two program counters, in every run |
| PacketMap.StepKeepsInv | xdp/pp_poll.c:37-48 | every single access of either side keeps that invariant |
| PacketMap.AllFullExactlyAtCapacity | xdp/pingpong.c:68 | the full test at the taken index says what it is taken to say: the whole map is full |
| PacketMap.SharedMap.ProducerAction | xdp/pingpong.c:56-88 | the producer's accesses, in place, are the producer steps |
| PacketMap.SharedMap.ConsumerAction | xdp/pp_poll.c:42-47 | the consumer's accesses, in place, are the consumer steps |
| PacketMap.SharedMap.Execute | xdp/pp_poll.c:37-48 | carrying out any interleaving in place gives the state of `Run` |
| PacketMap.SharedMap.TakeIndex | xdp/pingpong.c:56-81 | the index is taken and advanced; the slot is found full if and only if 128 accepted packets are not yet freed at the check, and that decides between copying and rejecting |
| PacketMap.SharedMap.CopyPacket | xdp/pingpong.c:83-86 | all words of the masked packet are copied, whatever the consumer does meanwhile |
| PacketMap.SharedMap.Commit | xdp/pingpong.c:88 | the two accesses of `magic \|= 1` publish exactly this packet |
| PacketMap.SharedMap.AddPacketToMap | xdp/pingpong.c:40-91 | one call under any interference stores its packet once and advances the index by one, or drops it and leaves the index where it was; it drops exactly when 128 accepted packets are not yet freed at the check, so never if fewer were when it began |
| PacketMap.SharedMap.WaitForPayload | xdp/pp_poll.c:42 | the busy wait ends at its first turn if a packet was unread |
| PacketMap.SharedMap.PollNextPayload | xdp/pp_poll.c:37-48 | one call under any interference returns the oldest unread packet and advances by one slot; with an unread packet it succeeds |
| UmemFrames.EveryFrameInExactlyOnePlace | xdp/pp_sock.c:152-174 | in every run each of the 4096 frames is in exactly one of eleven places (free stack, reserved fill entries, fill, kernel RX, RX, batch, TX, kernel TX, completion, being reaped, lost), and nothing else is anywhere |
| UmemFrames.OutstandingTxIsExact | xdp/pp_sock.c:271-341 | outstanding_tx equals the frames between TX submission and release of their completion, so the saturating subtraction never saturates |
| UmemFrames.FreeAssertionHolds | xdp/pp_sock.c:169-174 | whenever a frame is about to be freed the stack has room |
| UmemFrames.ReserveSucceedsAtOnce | xdp/pp_sock.c:455-461 | the reserve after the count takes everything counted; the retry loop is never entered |
| UmemRefill.CountExceedsFreeExactlyWhen | xdp/pp_sock.c:450-451 | in every reachable state with packets peeked, the count exceeds the free frames if and only if some frame is free and fewer than there are free fill entries, which is if and only if more than 4096 minus the ring size frames are outside the free stack and the fill ring |
| UmemRefill.RefillFailsExactlyWhenShort | xdp/pp_sock.c:453-468 | over every interleaving with the kernel, a refill draws the invalid frame if and only if it set out to stock more entries than there were free frames |
| UmemRefill.RefillDrawsInvalidExactlyWhen | xdp/pp_sock.c:450-468 | for every run up to the count and every interleaving from there to the end of the refill: the invalid frame is drawn if and only if, at the count, some frame was free but fewer than free fill entries |
| UmemRefill.RefillCanEnd | xdp/pp_sock.c:453-468 | from every state within a refill the handler comes to the end of it |
| UmemRefill.SomeRefillFailsExactlyWhen | xdp/pp_sock.c:450-468 | a run whose refill draws the invalid frame exists if and only if the rings have at least two entries |
| UmemRefill.ClientRunsShort | xdp/pp_sock.c:312-352 | for every ring of 2 to 4095 entries, a run of the client to a state in which the refill must fail: pings in flight and a kernel holding the whole fill ring |
| UmemRefill.SmallRingNeverFails | xdp/pp_sock.c:450-468 | with at most one entry a refill never needs more than is free |
| UmemRefill.NothingLostWithoutReplies | xdp/pp_sock.c:409-415 | frames are lost by replies only, so no run of the client loses one |
| UmemRefill.LostOnlyWhenTxFull | xdp/pp_sock.c:320-328 | a step loses at most one frame, and only a reply that finds the TX ring full does |
| UmemRefill.LostIsBounded | xdp/pp_sock.c:320-328 | no run loses more than 4096 minus the ring size frames |
| UmemRefill.LostAndPeekedStarveTheRefill | xdp/pp_sock.c:409-468 | in every run, with more than 4096 minus the ring size frames lost or peeked and some frame free, the refill ends with the invalid frame, whatever the kernel does |
| UmemRefill.StarvingIsReachable | xdp/pp_sock.c:426-468 | a run that comes to such a state, and on to the end of its refill |
| UmemFrames.StepConserves | xdp/pp_sock.c:266-483 | no step of the application or the kernel makes or destroys a frame |
| UmemFrames.StepKeepsInv | xdp/pp_sock.c:266-483 | every step keeps the partition and the accounts |
| UmemFrames.RunKeepsInv | xdp/pp_sock.c:426-483 | so does every run |
| UmemFrames.KernelLeavesApplication | xdp/pp_sock.c:67-85 | the kernel never touches what belongs to the application |
| UmemCalls.LockedCallComesTo | xdp/pp_sock.c:440-481 | a whole call with enough frames for its refill, over everything the kernel may do meanwhile: the topmost free frames, as many as were counted, go into the fill ring from the top; the frames of the batch are freed, sent or lost in order, freed exactly those whose packets are not sent back; the completed frames seen go on the stack and are no longer outstanding; all rings are first in, first out |
| UmemCalls.ProcessCallComesTo | xdp/pp_sock.c:471-478 | the loop over the batch alone: frames sent, lost and freed are those of the batch selected by the packets' answers, in order |
| UmemCalls.PacketComesTo | xdp/pp_sock.c:362-416 | one packet, the first of the batch: freed, queued at the end of the TX ring, or lost exactly when that is full; nothing else changes |
| UmemCalls.RefillCallComesTo | xdp/pp_sock.c:450-468 | the refill alone: the topmost frames, from the top, and nothing else |
| UmemCalls.CompleteCallComesTo | xdp/pp_sock.c:266-291 | complete_tx alone: the oldest completed frames go on the stack, in order |
| UmemCalls.KernelIsJournaled | xdp/pp_sock.c:67-85 | over every run of the kernel fill and TX ring lose frames at the front only, RX and completion ring gain them at the end only |
| UmemCalls.KernelMovesFrames | xdp/pp_sock.c:67-85 | what the kernel does when it can |
| UmemSocket.XskSocket.constructor | xdp/pp_sock.c:228-246 | frame i is entry i of the stack up to the last ring's worth, which is in the fill ring from the highest number down |
| UmemSocket.XskSocket.AllocUmemFrame | xdp/pp_sock.c:152-161 | pops the top of the stack and marks the entry invalid, or returns the invalid frame when empty |
| UmemSocket.XskSocket.FreeUmemFrame | xdp/pp_sock.c:169-174 | pushes the frame |
| UmemSocket.XskSocket.Refill | xdp/pp_sock.c:450-468 | with any kernel activity in between, the refill takes as many frames off the top of the stack as there are free fill entries (none if no frame is free), and ends with the invalid frame exactly when some frame is free but fewer than that; the call is the run of its actions |
| UmemSocket.XskSocket.ProcessPacket | xdp/pp_sock.c:362-416 | the first frame of the batch leaves it; it goes on the stack, or to the end of the TX ring with outstanding_tx one higher, or is lost exactly when the TX ring is full; nothing else changes |
| UmemSocket.XskSocket.CompleteTx | xdp/pp_sock.c:266-291 | the oldest completions, as many as were seen, go on the stack in order and outstanding_tx falls by exactly their number; the call is the run of its actions |
| UmemSocket.XskSocket.SendPacket | xdp/pp_sock.c:312-352 | fails exactly when the TX ring is full and then changes nothing; draws the invalid frame exactly when no frame is free; otherwise the frame on top of the stack goes to the end of the TX ring, outstanding_tx rises by one and falls by the completions freed, and the lock is released |
| UmemSocket.XskSocket.HandleReceivePackets | xdp/pp_sock.c:426-483 | the batch is the front of the RX ring; with any activity of kernel and sender between the peek and the lock, and of the kernel after it, the call gets no further if the sender holds the lock; otherwise it ends with the invalid frame exactly when, at the count, some frame is free but fewer than free fill entries, and else with every frame where UmemCalls.LockedCallComesTo says; the call is the run of its actions |
| Bitset.Slots | common/bitset.h:46 | just enough bytes: every bit has a slot, and one byte fewer would not do |
| Bitset.SetThenTest | common/bitset.h:23-39 | after setting bit b the test answers yes for b and is unchanged for every other bit |
| Bitset.ClearThenTest | common/bitset.h:31-39 | after clearing bit b the test answers no for b and is unchanged for every other bit |
| Bitset.SetAddsMember | common/bitset.h:23 | setting a bit adds one member to the set the bytes stand for |
| Bitset.ClearRemovesMember | common/bitset.h:31 | clearing a bit removes one |
| Bitset.Set | common/bitset.h:23 | in place, the represented set gains b |
| Bitset.Clear | common/bitset.h:31 | in place, the represented set loses b |
| Bitset.Init | common/bitset.h:11-15 | the zeroed bytes stand for the empty set |
| Bitset.IsSet | common/bitset.h:39 | the test is membership |
| UdServer.EveryIndexInOneStage | rdma/ud_pingpong.c:303-374 | in every run each queue index is in exactly one of the four stages of its cycle, and its pending bit is set exactly while its send is posted or its completion unhandled |
| UdServer.ParseNeverSpins | rdma/ud_pingpong.c:344-374 | in every reachable state the next completion has a known wr_id and is handled completely; for a receive the busy wait finds its bit clear, so the single thread never deadlocks |
| UdServer.QueuesNeverOverflow | rdma/ud_pingpong.c:139-156 | posted receives, posted sends and completions add up to QUEUE_SIZE, so none of the queues of that size overflows |
| UdServer.PongsAnswerTheirPings | rdma/ud_pingpong.c:366-370 | in every run, index by index: the packets sent are the replies as posted, in order, so no buffer changes under a posted send; the k-th reply carries the id and send stamp of the k-th ping that landed; at most one ping is unanswered, so each is answered at most once and none is skipped |
| UdServer.RoundTrip | rdma/ud_pingpong.c:344-374 | a ping that lands on an index with a posted receive is answered with its id, its send stamp and the server's stamps, and the receive is posted again |
| UdServer.RunKeepsInv | rdma/ud_pingpong.c:541-571 | the cycle invariant holds in every run |
| UdServer.Context.constructor | rdma/ud_pingpong.c:525-533 | a receive is posted on every index and no bit is set |
| UdServer.Context.FinishSend | rdma/ud_pingpong.c:344-358 | a send completion clears the bit and re-posts the receive |
| UdServer.Context.ReplyTo | rdma/ud_pingpong.c:366-374 | a receive completion stamps the buffer, sets the bit and posts the send |
| UdServer.Context.ParseSingleWc | rdma/ud_pingpong.c:327-388 | the handler over the packed bitset, in place, is the handler step and returns 0 |
| UdClient.BufferIsNeverWrittenUnderASend | rdma/ud_pingpong.c:433-444 | in every interleaving of the two threads and the adapter the send buffer is not written while a send is outstanding |
| UdClient.NoBitUpdateIsLost | rdma/ud_pingpong.c:323 | each store of the pending byte writes over the very value its load saw, and bit 0 is set exactly from before the post to after the completion |
| UdClient.PingsGoOutWholeAndInOrder | rdma/ud_pingpong.c:438-443 | at most one ping is in flight and the pings sent are the pings posted, whole and in order |
| UdClient.EverySendCanComplete | rdma/ud_pingpong.c:433-444 | from every reachable state with a send outstanding, adapter and completion thread can finish it and clear the bit, so the busy wait can always end |
| UdClient.RunKeepsInv | rdma/ud_pingpong.c:344-358 | the mutual exclusion invariant holds in every run |
| UdClient.StepKeepsInv | rdma/ud_pingpong.c:303-325 | every access keeps it |
| UdClient.SendPath.SendSinglePacket | rdma/ud_pingpong.c:433-444 | one call under any interference posts exactly its ping from a buffer that holds it, once the bit is clear |
| RcCredits.CreditsAreExact | rdma/rc_pingpong.c:399-407 | in every run available_recv equals posted plus unhandled receives and lies in 2..500 between calls, so neither the receive queue nor a completion queue of 501 overflows |
| RcCredits.HandlingComesTo | rdma/rc_pingpong.c:399-407 | with more than two credits a handled receive costs one and posts nothing; with two, as many of 499 receives are posted as the adapter takes, and the handler fails exactly if it does not take them all |
| RcCredits.NeverStopsWhenAllAreTaken | rdma/rc_pingpong.c:402-406 | if the adapter takes every receive offered, no run ends in an error |
| RcCredits.CreditsGoRound | rdma/rc_pingpong.c:399-407 | then the credits are 500 minus the number of handled receives mod 499 |
| RcCredits.AnyNumberCanBeHandled | rdma/rc_pingpong.c:387-408 | and there is a run that handles any number of them |
| RcCredits.SendsAreExact | rdma/rc_pingpong.c:383-396 | every send the adapter took is outstanding, completed or handled, and at most one is not handled |
| RcCredits.RunKeepsInv | rdma/rc_pingpong.c:370-417 | from any state in which that holds |
| RcCredits.Context.PpPostRecv | rdma/rc_pingpong.c:346-368 | posts until n or the first refusal, and returns how many |
| RcCredits.Context.ParseRecvWc | rdma/rc_pingpong.c:387-408 | the handler in place: no refill and status 0 above two credits; at two, a refill of 499 and status 0 exactly if the adapter takes them all; a reply is posted exactly if no send is outstanding |
| Payload.ComputeLatency | common/common.h:152-155 | the latency is below 2^63 whatever the stamps, so it is never negative as int64_t |
| PayloadLayout.SameValidity | common/common.h:147-150 | the test of the magic word and the test of the magic field agree on every payload |
| PayloadLayout.FieldsOfWords | common/common.h:95-110 | which words each field occupies, little-endian |
| PayloadLayout.EncodeThenDecode | common/common.h:95-110 | fields and phase read back as written |
| PayloadLayout.DecodeThenEncode | common/common.h:95-110 | any twelve words are the encoding of the fields and the phase read from them |
| PayloadLayout.MemoryIsDetermined | common/common.h:95-110 | two payloads in memory with the same fields and phase are the same, word for word |
| Payload.Sub64OfWrapped | common/common.h:152-155 | wrapping differences of wrapped clock readings are the wrapped true differences |
| Histogram.SoundExactlyWhen | common/persistence.c:27-42 | for every 64-bit interval the relative range is never divided by zero, and the absolute range exactly for the 20000 intervals from 2^64 - OFFSET on |
| Histogram.RangesLieAroundTheInterval | common/persistence.c:27-42 | for every interval, in plain numbers: the relative range is interval - OFFSET to interval + OFFSET, or 0 to 2 OFFSET for a shorter interval; the absolute range is 0 to interval + OFFSET; bounds from 2^63 on read as negative |
| Histogram.CellExactlyWhen | common/persistence.c:111-137 | for every interval and sample: a difference is in inner bucket b exactly if it is one of the 100 values from max(interval - 1000000, 0) + 100 (b - 1); a latency is in bucket b exactly if it is at most interval + 1000000 and one of the values from (b - 1) size on, size being that bound divided by 20000, or above the bound and b is 20001 |
| Histogram.RelativeBucketsTile | common/persistence.c:3-15 | in the relative range bucket b holds exactly 100 consecutive values, the inner buckets tile [min, max) and every index is in the table; for intervals within OFFSET of 2^63 the signed bounds are reversed and the inner buckets stay empty |
| Histogram.RelativeIdxIsMonotone | common/persistence.c:3-15 | a larger difference never falls into a smaller bucket |
| Histogram.BucketIdxIsMonotone | common/persistence.c:3-15 | the same for any range, up to its maximum |
| Histogram.AbsoluteIdxInTableExactlyWhen | common/persistence.c:27-42 | every latency's index is in the table if and only if the wrapped bound max = interval + OFFSET is at least 2^63 or max mod NUM_BUCKETS < max / NUM_BUCKETS |
| Histogram.AbsoluteIdxCanLeaveTheTable | common/persistence.c:136-137 | a concrete interval and latency whose index lies beyond the table |
| Histogram.ColumnAddsUpToSamples | common/persistence.c:111-137 | each column of the table adds up to the number of accepted samples |
| Histogram.VerdictsAddUp | common/persistence.c:83-106 | every payload is a first one, a rejected one or an accepted one |
| Histogram.OneFirst | common/persistence.c:85-89 | in a run of valid payloads exactly one is taken as the first reference |
| Histogram.RunAddsUp | common/persistence.c:79-141 | in such a run packets = 1 + rejected + accepted, and all five columns have the same total |
| Histogram.SamplesAreSteps | common/persistence.c:97-105 | the samples are the four differences between consecutive accepted payloads, never negative, and the latency of the later one |
| Histogram.DifferencesTelescope | common/persistence.c:97-105 | the differences of each timestamp add up to last minus first |
| Histogram.MinOf | common/persistence.c:113-130 | the running minimum is the least of the values, or UINT64_MAX if there are none |
| Histogram.MaxOf | common/persistence.c:117-134 | the running maximum is the greatest of the values, or 0 if there are none |
| Histogram.BucketData.constructor | common/persistence.c:242-261 | for every interval that does not make `bucket_idx` divide by zero, a fresh agent describes the empty run |
| Histogram.BucketData.Tally | common/persistence.c:113-122 | one more sample moves minimum, maximum and one counter of one column, and nothing else |
| Histogram.BucketData.Differences | common/persistence.c:97-106 | the four differences, or a refusal exactly when some timestamp goes back |
| Histogram.BucketData.WriteBuckets | common/persistence.c:79-141 | 0 is returned exactly if the previous payload is valid and no timestamp goes back; then each column gains one where p.ts[c] - prev.ts[c], or the latency, belongs in plain numbers, and the extremes move accordingly; otherwise the table does not change, and prev only on the first payload; after any run table, extremes, total and prev are those of the plain definitions over its samples |
| Histogram.MinMaxData.WriteMinMaxLatency | common/persistence.c:62-77 | min and max bound all latencies and belong to the first payloads that attain them (max_payload is unset if all latencies are zero) |
| BucketFile.PrintThenParse | common/persistence.c:182-217 | for every report with counters below 2^63 the script reads back the total, both ranges, the extremes and every row |
| BucketFile.ReportLines | common/persistence.c:192-217 | the lines of the report, one by one, in their order |
| BucketFile.RecomputedSizeAgreesExactlyWhen | analysis/large-eval/lib.py:60-62 | the relative bucket size the script recomputes is the one printed if and only if interval + OFFSET does not wrap |
| BucketFile.HeaderRoundTrip | analysis/large-eval/lib.py:48-52 | reading one header line gives its numbers and leaves the next line |
| BucketFile.RowsRoundTrip | analysis/large-eval/lib.py:57-58 | reading and reshaping the printed rows gives the rows |
| BucketFile.DecThenNumber | common/persistence.c:192-216 | a printed decimal reads back as its number |
| BucketFile.CloseBuckets | common/persistence.c:182-217 | the printing loop writes the report of the table |
| BucketFile.CloseAgent | common/persistence.c:182-223 | what the script reads after any run describes that run: packets, the bounds in plain numbers, extremes and, cell by cell, plain counts |
| BucketFile.TimestampsRoundTrip | analysis/large-eval/lib.py:35-43 | the list of all timestamps reads back as written |
| BucketFile.LatenciesAgreeExactlyWhen | analysis/large-eval/lib.py:70-71 | the script's latency equals the C latency if and only if the wrapped numerator is not negative as a signed 64-bit number |
| BucketFile.ScriptLatency | analysis/large-eval/lib.py:70-71 | half the signed 64-bit numerator, rounded down |
| BucketFile.LatenciesCanDisagree | analysis/large-eval/lib.py:70-71 | a concrete payload with latency -1 for the script and 2^63 - 1 for the C code |
| Ipv4Checksum.CsumFoldHelper | xdp/pingpong_pure.c:13-23 | for every 64-bit sum four folds reach 16 bits and give the complement of its ones' complement sum |
| Ipv4Checksum.FoldKeepsOnesSum | xdp/pingpong_pure.c:19-20 | a fold keeps the ones' complement sum, and zero only for zero |
| Ipv4Checksum.ThreeFoldsLeaveACarry | xdp/pingpong_pure.c:17 | three folds would not do |
| Ipv4Checksum.WordSumsAgree | xdp/pingpong_pure.c:25-29 | folding the 32-bit sum gives the sum of the 16-bit words, section 2 (C) of RFC 1071 |
| Ipv4Checksum.ByteOrderIndependence | xdp/pingpong_pure.c:79-81 | summing in the machine's order or in network order passes or fails alike, section 2 (B) of RFC 1071 |
| Ipv4Checksum.SwapKeepsSum | xdp/pingpong_pure.c:74-77 | swapping the addresses leaves the header sum alone, and twice restores the header |
| Ipv4Checksum.CheckCompletesSum | xdp/pingpong_pure.c:78-81 | with the new checksum, before the TTL is set, the header sums to a multiple of 0xffff |
| Ipv4Checksum.ReplyVerifiesExactlyForTtl64 | xdp/pingpong_pure.c:74-82 | for every 20-byte header the reply verifies if and only if the ping's TTL was 64 |
| Ipv4Checksum.ReplyGoesBack | xdp/pingpong_pure.c:74-82 | the reply has the addresses exchanged and differs otherwise only in TTL and checksum |
| Ipv4Checksum.Ipv4Csum | xdp/pingpong_pure.c:25-29 | the stored value is the complement of the header's ones' complement sum |
| Ipv4Checksum.RewriteHeader | xdp/pingpong_pure.c:74-82 | the statements in their order produce that reply |
| PingPong.EveryRecordIsTrue | no-bypass/main.c:67-128 | over every run on a lossy, reordering, duplicating network, for any clock origins, each recorded payload keeps the id and ts[0] of one real ping and its wrapping latency is half of forward plus return delay |
| PingPong.LatencyCancelsClocks | common/common.h:152-155 | the unknown clock origins cancel out of the latency |
| PingPong.ClientLoopEndsExactlyWhen | no-bypass/main.c:113-128 | the client's loop ends if and only if iters < 2^32 and a pong with id iters was recorded |
| PingPong.ServerLoopEndsExactlyWhen | no-bypass/main.c:66-80 | the server's loop ends if and only if a ping with id iters has been taken in |
| PingPong.ServerAnswers | no-bypass/main.c:66-89 | every ping that arrives in the loop is answered, late and repeated ones too, with its own fields and the server's two stamps, whatever happens meanwhile |
| PingPong.ClientRecords | no-bypass/main.c:113-128 | every pong that arrives in the loop is recorded, with its own fields and the client's stamp |
| PingPong.SenderSends | no-bypass/main.c:93-101 | the next ping goes out with the next id and its send stamp |
| PingPong.ServerLoopIsRun | no-bypass/main.c:65-90 | the server's loop is a run of the protocol: its replies are the pongs sent and its counter the server's |
| PingPong.ClientLoopIsRun | no-bypass/main.c:112-128 | so is the client's: it records what the run records |
| PingPong.RunKeepsInv | no-bypass/main.c:93-101 | pings are numbered 1, 2, 3, ... and every packet in the system stems from one of them, with stamps in order |
| PingPong.StartServer | no-bypass/main.c:65-90 | the loop answers every datagram with its own fields and the two stamps, up to and including the first whose id reaches iters |
| PingPong.StartClient | no-bypass/main.c:112-128 | the loop records every datagram until its 32-bit counter reaches iters: with ids up to iters, up to and including the first with id iters; never from 2^32 iterations on |
| Pacing.ThreadSendPackets | common/net.c:309-321 | for every monotone clock ids go out as 1, 2, 3, ..., each at the very look at which the pause after the one before is over and at least one interval after it; pings are missing only after a failed send or because the clock ended |
| Pacing.OneIntervalApart | common/net.c:315-320 | with looks at most a gap apart, the next ping starts no sooner than the interval and no later than interval (or send) plus two gaps |
| Pacing.PacedFromTheFirst | common/net.c:309-321 | so ping k starts between k intervals and k such pauses after the first |
| Pacing.EndsOnlyAtTheEnd | common/net.c:309-321 | a clock that stops the thread ends within an interval of its last ping, so with enough time and no failed send all pings go out |
| Pacing.PpSleep | common/utils.c:12-31 | the thread goes on at the first look by which the time has passed, counted from its own first look in the busy wait and from before the call in nanosleep; it never does only if there is no such look |
| Pacing.Timespec | common/utils.c:26-29 | the seconds and nanoseconds add up to the time asked for and are acceptable to nanosleep |

## Left out

- Concurrent XDP producers: the index rewind is racy then, as the code itself notes (xdp/pingpong.c:74).
- Weak memory and compiler reordering.
- `global_exit` and SIGINT: a run is any finite schedule, so every prefix of an interrupted run is covered; what a loop does after the flag is set is not.
- The client and server loops around `poll_next_payload` (phase check, `current_id`): easy bookkeeping on payloads already proved intact.
- The internals of libxdp, ibverbs, sockets and the kernel, device setup and teardown, address exchange, argument parsing, thread pinning, logging.
- Packet contents in the AF_XDP model: only the ownership of frames is modelled. After the invalid frame has been handed out the run is over.
- The order in which the adapter completes work in UD mode is left open; failed work completions and failed posts end the run and are not modelled.
- The UD loops' own end conditions (`recv_idx`).
- A completion queue bound for the UD client: 128 receives and one send can be outstanding against 128 entries.
- RC latency values and the RC loop's counting of completions: only the receive credits are modelled.
- Counters are unbounded where the C code has 64 bits (packets, table cells); they cannot reach 2^64 in practice.
- Histogram.BucketData.constructor: leaves out the 20000 intervals for which the C code divides by zero at the first small latency (Histogram.SoundExactlyWhen).
- Histogram.BucketData.WriteBuckets: requires the latency index of an accepted payload to lie in the table, because the C code indexes without a check; Histogram.AbsoluteIdxInTableExactlyWhen says for which intervals that always holds.
- The absolute bucket size recomputed by the script: it subtracts the relative minimum.
- IP options, MAC and UDP rewriting in the pure XDP responder.
- Pacing.PpSleep: nanosleep is taken to sleep its full time; an early return on a signal is not modelled.
- `no-bypass/hwts.cpp`, plotting, notebooks, playbooks.
