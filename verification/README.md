# Protocols and data structures of the server course, verified

This project models the self-contained protocols and data structures of the repository in Dafny and
proves what they are for:

- **KCP** (`KcpWire`, `KcpModel`, `KcpLocal`, `KcpInput`, `KcpFlush`, `KcpTiming`, `KcpSystem`, `KcpReceive`,
  `KcpProgress`, `KcpEndpoint`): the reliable-transport protocol of `ikcp.c`. `KcpModel` gives each operation as a
  function of the control block; the class in `KcpEndpoint` performs it step by step and is proved to compute that
  function. `KcpLocal` proves what one endpoint keeps whatever bytes arrive; `KcpInput`, `KcpFlush` and `KcpTiming` say
  what a packet changes, what a flush sends and when. `KcpSystem` proves what two endpoints keep over a network that
  drops, duplicates, delays and reorders packets, `KcpReceive` what a receive returns, and `KcpProgress` that without
  loss everything arrives.
- **The nginx red-black tree** (`RbShape`, `RbLinks`, `RbTree`, `RbDelete`, `RbTimer`): insertion and deletion over
  real parent, child and sentinel pointers, and the timer queue built on it.
- **The array lock-free queue** (`Mpmc`): any number of producers and consumers, one atomic step at a time.
- **The hierarchical timing wheel** (`WheelTime`, `TimeWheel`, `WheelExact`, `WheelOrder`).
- **The RESP reader and command formatters** (`Decimal`, `Resp`, `RespRoundTrip`, `RespTexts`, `RespBuffer`,
  `RespReader`, `RespLimits`, `RespFormat`) and the **sds string library** (`Sds`, `SdsWords`). `Resp` parses over
  unbounded or 32-bit integers, `RespTexts` covers what no reply is written as; `RespBuffer` adds the buffer the reader
  keeps between calls, and `RespLimits` says how far the two agree. `SdsWords` is the language of sdssplitargs.
- **Ordered and indexed structures**: B-tree insertion (`BTree`, `BTreeNodes`, `BTreeHeap`), skip list (`SkipShape`,
  `SkipList`), indexed min-heap (`MinHeap`), chained hash table (`Dict`), ring buffer (`RingBuffer`).
- **The waits-for-graph search** of the deadlock detector (`Deadlock`, `DeadlockSearch`).

`U32`, `Bits`, `Seqs` and `Options` hold the C integer types and the arithmetic and sequence facts the rest uses. A C
`int` is written out where its width matters: `U32.Signed` cuts to 32 bits, `U32.Diff` is the signed difference that
sequence numbers and timers are compared with. `dafny verify dfyconfig.toml` checks the whole project.

## Model

| member | source | states |
|---|---|---|
| `KcpSystem.EndToEnd` | 4.4udp/kcp-20211120/ikcp.c:359-1277 | in every run of two endpoints over a lossy, duplicating, reordering network: each number below snd_nxt is still buffered by its sender or held by the receiver; each application has received, in message mode, a prefix of the peer's accepted messages with their boundaries, in any mode a prefix of the bytes the peer queued |
| `KcpSystem.RunKeeps` | 4.4udp/kcp-20211120/ikcp.c:359-1277 | every state such a run reaches satisfies the invariant of both ends and of both links |
| `KcpProgress.AllArrives` | 4.4udp/kcp-20211120/ikcp.c:359-1277 | progress: in message mode with a receive window of at least 128, from any state a run reaches, as many rounds without loss as there are segments to number and acknowledge (each round: the sender flushes, the receiver takes and flushes, at times when both are due and the oldest segment goes) empty the sender and give its application's messages, all and in order, to the receiver's |
| `KcpProgress.FirstMessageArrives` | 4.4udp/kcp-20211120/ikcp.c:359-1277 | two new endpoints and one message of no more fragments than the window: a single round at any two times delivers it and acknowledges all of it |
| `KcpProgress.RoundAdvances` | 4.4udp/kcp-20211120/ikcp.c:815-1243 | every such round moves the left edge of the sender's window |
| `KcpProgress.PushedIsAcked` | 4.4udp/kcp-20211120/ikcp.c:815-1243 | every number pushed in a round, within the receiver's reach, is out of the sender's buffer after it |
| `KcpProgress.AllReceived` | 4.4udp/kcp-20211120/ikcp.c:359-442 | with nothing queued or unacknowledged the receiving application, draining its queue, has every message |
| `KcpSystem.ActKeeps` | 4.4udp/kcp-20211120/ikcp.c:359-1277 | each send, receive, delivery of any packet ever sent, update or tuning by one side keeps that invariant |
| `KcpSystem.DeliverKeeps` | 4.4udp/kcp-20211120/ikcp.c:815-978 | delivering any packet the peer ever sent, however late or often, keeps both links, delivers nothing to the application and queues nothing |
| `KcpSystem.ProcessPushRecv` | 4.4udp/kcp-20211120/ikcp.c:742-802 | a pushed segment is acknowledged only once the receiver holds it, and what the receiver holds are the sender's segments |
| `KcpSystem.RecvNextMessage` | 4.4udp/kcp-20211120/ikcp.c:359-442 | a receive that succeeds returns exactly the next message of the peer and unlinks exactly its fragments |
| `KcpReceive.PeekExact` | 4.4udp/kcp-20211120/ikcp.c:445-470 | in message mode the announced size is that of the peer's next message if and only if all its fragments are queued, else -1 |
| `KcpReceive.RecvExact` | 4.4udp/kcp-20211120/ikcp.c:359-442 | in message mode: -1 if and only if nothing is queued, -2 if and only if a fragment of the next message is missing, -3 if and only if it is whole and larger than the room, else its size and its bytes |
| `KcpReceive.RecvLeaves` | 4.4udp/kcp-20211120/ikcp.c:390-442 | a call that succeeds takes out the first message's segments and nothing else, loses nothing that is buffered, and asks to tell the window if and only if the queue had been full and has room again; peeking takes nothing |
| `KcpReceive.RecvFails` | 4.4udp/kcp-20211120/ikcp.c:359-387 | a call that fails changes nothing |
| `KcpSystem.SendBytes` | 4.4udp/kcp-20211120/ikcp.c:488-562 | the queue grows by exactly the bytes taken, in order, in both modes |
| `KcpSystem.SendWhole` | 4.4udp/kcp-20211120/ikcp.c:488-562 | in message mode a message is queued whole, or refused with -2 and nothing changed when it needs 128 fragments or more |
| `KcpSystem.SendExact` | 4.4udp/kcp-20211120/ikcp.c:488-562 | -2 is returned, in both modes, exactly for what needs more than 127 full segments beyond the room in the last queued one |
| `KcpSystem.FailedSendClean` | 4.4udp/kcp-20211120/ikcp.c:488-562 | a send that fails leaves the queue alone if and only if stream mode had no room in the last queued segment |
| `KcpSystem.FailedSendHalfDone` | 4.4udp/kcp-20211120/ikcp.c:488-562 | from ikcp_create and one sent byte, a message of 176128 bytes returns -2 after 1375 of its bytes have joined the queue |
| `KcpLocal.EveryRunKeeps` | 4.4udp/kcp-20211120/ikcp.c:359-1277 | in every state one endpoint reaches from ikcp_create, whatever is sent, received, fed in, timed or tuned: both windows, the order of both buffers, the contiguous receive queue, the four counters |
| `KcpLocal.ApplyKeeps` | 4.4udp/kcp-20211120/ikcp.c:359-1277 | one call keeps all of that and never moves snd_una backwards |
| `KcpLocal.InputKeeps` | 4.4udp/kcp-20211120/ikcp.c:815-978 | any bytes at all, well formed or not, keep the endpoint's invariant, move snd_una only forward and up to snd_nxt, number nothing new and leave the send queue alone |
| `KcpInput.InputExact` | 4.4udp/kcp-20211120/ikcp.c:815-978 | for any bytes, the return value is that of the decoding, and for each segment reached: what it acknowledges is out of the send buffer for good; pushed data below the right edge of the window is to be acknowledged, within the window it is held with its bytes; the peer's window is the last one told, and the own one is to be told after a WASK |
| `KcpInput.SegmentExact` | 4.4udp/kcp-20211120/ikcp.c:857-937 | exactly what one segment changes: which segments leave the send buffer, which one acknowledgement is added, what is stored, when the round-trip time is sampled; nothing else |
| `KcpInput.AckExact` | 4.4udp/kcp-20211120/ikcp.c:615-637 | of an ordered buffer exactly the segment of that number leaves, none for a number outside the window |
| `KcpInput.DropExact` | 4.4udp/kcp-20211120/ikcp.c:640-655 | exactly the segments whose numbers una is ahead of leave |
| `KcpInput.PushExact` | 4.4udp/kcp-20211120/ikcp.c:892-920 | acknowledged if below the right edge, stored if within the window and not there yet, and nothing else touched |
| `KcpInput.InputSkips` | 4.4udp/kcp-20211120/ikcp.c:946-948 | when a packet acknowledges only numbers between the edges of the send window, a segment that stays buffered counts one skip more if and only if the packet acknowledges a later number, and nothing else of it changes |
| `KcpInput.SkipsExact` | 4.4udp/kcp-20211120/ikcp.c:657-690 | the segments before the greatest acknowledged number count one skip more, and no others |
| `KcpInput.GreatestAck` | 4.4udp/kcp-20211120/ikcp.c:868-885 | that number is the greatest one acknowledged by the packet |
| `KcpInput.InputGrows` | 4.4udp/kcp-20211120/ikcp.c:951-976 | the congestion window opens if and only if a packet that decodes moved the left edge of the send window |
| `KcpInput.GrowExact` | 4.4udp/kcp-20211120/ikcp.c:951-976 | by one segment below the threshold, above it by collected credit to the fewest segments that cover it, never beyond the peer's room; where no product with the segment size runs over 32 bits |
| `KcpLocal.UnaKeeps` | 4.4udp/kcp-20211120/ikcp.c:603-655 | acknowledging up to a number keeps the send window ordered and moves its left edge only forward |
| `KcpLocal.PlaceForCorrect` | 4.4udp/kcp-20211120/ikcp.c:754-770 | the backward search of the receive buffer finds a repeat if there is one, and otherwise the one place that keeps the buffer ordered, across wrap-around |
| `KcpLocal.WindowExact` | 4.4udp/kcp-20211120/ikcp.c:742-752 | the two cyclic comparisons accept exactly the receive window |
| `KcpLocal.FragmentsCount` | 4.4udp/kcp-20211120/ikcp.c:531-562 | the count computed by division is the number of segments the loop makes |
| `KcpLocal.FragmentsFull` | 4.4udp/kcp-20211120/ikcp.c:531-562 | every piece but the last is full |
| `KcpLocal.FlushOnTheWire` | 4.4udp/kcp-20211120/ikcp.c:1026-1219 | every packet is nonempty, at most mtu bytes and decodes without error; decoding them in order gives back the acknowledgements, probes and data segments flushed |
| `KcpFlush.FlushPushes` | 4.4udp/kcp-20211120/ikcp.c:1121-1200 | a flush sends number sn if and only if it is newly numbered or its buffered segment was never sent, has reached its resend time, or was skipped as often as fast retransmission asks within its limit |
| `KcpFlush.FlushLeaves` | 4.4udp/kcp-20211120/ikcp.c:1121-1207 | exactly which queued segments are numbered: the window is full or the queue empty; every buffered segment is untouched or sent once more, with its wait backed off and its next time as the three cases say; nothing is owed to the peer any more |
| `KcpFlush.AllWereSent` | 4.4udp/kcp-20211120/ikcp.c:1151-1207 | after a flush every buffered segment has been sent at least once, unless its count of 2^32 - 1 just ran over |
| `KcpFlush.FlushCarries` | 4.4udp/kcp-20211120/ikcp.c:1181-1207 | what is pushed under a number is that number's data and fragment count, with the time, room and next number of its sender |
| `KcpFlush.PushesInOrder` | 4.4udp/kcp-20211120/ikcp.c:1151-1207 | pushed segments travel in the order of their numbers, each once |
| `KcpFlush.FlushAnswers` | 4.4udp/kcp-20211120/ikcp.c:1052-1114 | the acknowledgements that are owed come first, in order, and no others; the window is asked for if and only if asked before or the probe timer ran out, and told if and only if it was to be |
| `KcpFlush.AdmitExact` | 4.4udp/kcp-20211120/ikcp.c:1116-1145 | as many queued segments are numbered, consecutively, as there are and the window has room for |
| `KcpTiming.FlushSlows` | 4.4udp/kcp-20211120/ikcp.c:1221-1242 | a timeout halves the threshold and closes the congestion window to one segment, a fast retransmission sets the threshold to half of what is in flight; otherwise both stay |
| `KcpTiming.FlushTimeouts` | 4.4udp/kcp-20211120/ikcp.c:1163-1177 | each segment sent again after its time is counted once |
| `KcpTiming.FlushDead` | 4.4udp/kcp-20211120/ikcp.c:1209-1211 | the link is marked dead if and only if a segment goes for the dead_link-th time or beyond |
| `KcpTiming.FlushProbes` | 4.4udp/kcp-20211120/ikcp.c:1066-1090 | while the peer has no room it is asked after 7 seconds and each time after half as long again, up to 120 seconds |
| `KcpTiming.RttExact` | 4.4udp/kcp-20211120/ikcp.c:583-600 | the round-trip time is smoothed by an eighth, its deviation by a quarter, and the wait is their sum within its bounds; for times below 2^28 milliseconds |
| `KcpTiming.GrowBounds` | 4.4udp/kcp-20211120/ikcp.c:951-976 | the congestion window never grows past the peer's room and not at all once it is there |
| `KcpLocal.HeadersIntact` | 4.4udp/kcp-20211120/ikcp.c:984-1003 | their headers arrive intact if and only if the free receive window fits 16 bits |
| `KcpLocal.WideWindowLooksClosed` | 4.4udp/kcp-20211120/ikcp.c:984-1003 | a new endpoint with a window of 65536, asked for it by the peer, answers with the single segment that it has none |
| `KcpWire.DecodeEncodeAll` | 4.4udp/kcp-20211120/ikcp.c:827-995 | the decode loop recovers exactly the segments encoded |
| `KcpWire.HeaderIntact` | 4.4udp/kcp-20211120/ikcp.c:984-995 | one header survives encoding if and only if its window fits 16 bits and its fragment number 8 |
| `KcpWire.HeaderLayout` | 4.4udp/kcp-20211120/ikcp.c:984-995 | the 24 bytes of a header: which field stands where, least significant byte first |
| `KcpWire.DecodeRefuses` | 4.4udp/kcp-20211120/ikcp.c:827-855 | behind good segments, -1 for another conversation, -2 for more data than follows or 2^31 bytes and more, -3 for an unknown command; fewer than 24 bytes are ignored; the good segments count |
| `KcpWire.PacketsCorrect` | 4.4udp/kcp-20211120/ikcp.c:1053-1219 | packing into packets of at most mtu bytes loses and reorders nothing |
| `KcpEndpoint.Ikcpcb.constructor` | 4.4udp/kcp-20211120/ikcp.c:231-294 | the block starts as the model's, with the numbers, windows, times and empty queues of ikcp_create, and satisfies the endpoint's invariant |
| `KcpEndpoint.Ikcpcb.Send` | 4.4udp/kcp-20211120/ikcp.c:488-562 | block and return value are the model's, -1 for a negative length included |
| `KcpEndpoint.Ikcpcb.PeekSize` | 4.4udp/kcp-20211120/ikcp.c:445-470 | the loop over the fragments computes the model's size, which `KcpReceive.PeekExact` says of the peer's messages |
| `KcpEndpoint.Ikcpcb.Recv` | 4.4udp/kcp-20211120/ikcp.c:359-442 | block, message and return codes are the model's, which `KcpReceive.RecvExact` and `KcpReceive.RecvLeaves` pin down; peeking keeps the message |
| `KcpEndpoint.PeekIsSpan` | 4.4udp/kcp-20211120/ikcp.c:390-413 | the closing assertion of the merge: the size announced is the size merged, whatever the queue holds |
| `KcpEndpoint.Ikcpcb.ShrinkBuf` | 4.4udp/kcp-20211120/ikcp.c:603-612 | snd_una becomes the first buffered number, or snd_nxt |
| `KcpEndpoint.Ikcpcb.ParseAck` | 4.4udp/kcp-20211120/ikcp.c:615-637 | exactly the acknowledged segment leaves the buffer |
| `KcpEndpoint.Ikcpcb.ParseUna` | 4.4udp/kcp-20211120/ikcp.c:640-655 | exactly the leading segments before una leave the buffer |
| `KcpEndpoint.Ikcpcb.ParseFastack` | 4.4udp/kcp-20211120/ikcp.c:657-690 | each segment before the largest acknowledged number is counted as skipped once |
| `KcpEndpoint.Ikcpcb.ParseData` | 4.4udp/kcp-20211120/ikcp.c:742-802 | the in-place insertion and draining are the model's |
| `KcpEndpoint.Ikcpcb.Input` | 4.4udp/kcp-20211120/ikcp.c:815-978 | decoding and acting segment by segment has the effect of decoding first, which `KcpInput.InputExact` pins down; the first test on the size is made on an int |
| `KcpEndpoint.Ikcpcb.Flush` | 4.4udp/kcp-20211120/ikcp.c:1026-1243 | the block and the packets handed to the output callback are the model's, which `KcpFlush.FlushPushes`, `KcpFlush.FlushLeaves` and `KcpFlush.FlushAnswers` pin down |
| `KcpEndpoint.Ikcpcb.Update` | 4.4udp/kcp-20211120/ikcp.c:1251-1277 | a flush happens exactly when it is due, clock jumps included |
| `KcpTiming.UpdateExact` | 4.4udp/kcp-20211120/ikcp.c:1251-1277 | it flushes on the first call, when the flush time is reached, or when the clock jumped back by more than ten seconds, and only then; the next flush lies ahead by no more than the interval |
| `RbTree.Rbtree.constructor` | 7.2timers/timers/rbtree.h:40-44 | an empty, valid tree |
| `RbTree.Rbtree.Insert` | 7.2timers/timers/rbtree.c:23-92 | the node enters the order at one place, nothing else moves, the tree stays linked and red-black, and sorted keys stay sorted |
| `RbTree.Rbtree.FindPlace` | 7.2timers/timers/rbtree.c:95-151 | the walk ends at an empty child pointer of a node of the tree, and every comparison on the path to it agrees with the key, under either order |
| `RbTree.Rbtree.PathSorts` | 7.2timers/timers/rbtree.c:95-151 | that place is the right one: no key before it is greater, every key after it is |
| `RbTree.Rbtree.LessIsRank` | 7.2timers/timers/rbtree.c:120-151 | within half the circle the cyclic comparison is a linear order |
| `RbTree.Rbtree.LeftRotate` | 7.2timers/timers/rbtree.c:321-348 | the pointers afterwards are those of the rotated tree |
| `RbTree.Rbtree.RightRotate` | 7.2timers/timers/rbtree.c:351-378 | the same on the other side |
| `RbTree.Rbtree.FixLoop` | 7.2timers/timers/rbtree.c:47-92 | the fix-up loop ends with a tree that is red-black once its root is black, in the same order |
| `RbShape.InsertRecolour` | 7.2timers/timers/rbtree.c:52-56 | red uncle: the defect moves two levels up |
| `RbShape.InsertOutward` | 7.2timers/timers/rbtree.c:59-62 | inner child: the rotation turns it into the outer case |
| `RbShape.InsertRaise` | 7.2timers/timers/rbtree.c:64-66 | outer child: the rotation at the grandparent ends the loop |
| `RbShape.InsertDone` | 7.2timers/timers/rbtree.c:91-91 | blackening the root then gives a red-black tree |
| `RbShape.SpliceColours` | 7.2timers/timers/rbtree.c:164-208 | unlinking a node with one child leaves a red-black tree, or one that is one black node short at that place |
| `RbShape.DeleteSiblingUp` | 7.2timers/timers/rbtree.c:260-265 | red sibling: afterwards the sibling is black |
| `RbShape.DeleteShift` | 7.2timers/timers/rbtree.c:267-269 | black sibling with black children: the shortage moves one level up |
| `RbShape.DeleteInnerUp` | 7.2timers/timers/rbtree.c:272-277 | inner nephew red: afterwards the outer one is |
| `RbShape.DeleteSettle` | 7.2timers/timers/rbtree.c:279-283 | outer nephew red: the rotation pays the shortage back |
| `RbShape.DeleteDone` | 7.2timers/timers/rbtree.c:317-317 | blackening the place where the loop stops gives a red-black tree |
| `RbLinks.LeftRotatedWired` | 7.2timers/timers/rbtree.c:321-348 | the cells written by a rotation link the rotated shape, above and below |
| `RbLinks.RightRotatedWired` | 7.2timers/timers/rbtree.c:351-378 | the same on the other side |
| `RbDelete.Delete` | 7.2timers/timers/rbtree.c:154-318 | the node leaves the order and is cleared, nothing else moves, the tree stays linked and red-black, and keys sorted in any half circle stay sorted |
| `RbDelete.FixLoop` | 7.2timers/timers/rbtree.c:255-317 | the fix-up loop after a deletion ends, and blackening its last place makes the tree red-black again |
| `RbDelete.RemovedSorted` | 7.2timers/timers/rbtree.c:154-318 | taking one key away leaves the rest sorted, in whatever half circle |
| `RbDelete.Min` | 7.2timers/timers/rbtree.h:74-82 | the leftmost node of a subtree |
| `RbDelete.Next` | 7.2timers/timers/rbtree.c:381-407 | the node that follows in the order, null after the last |
| `RbTimer.AddTimer` | 7.2timers/timers/rbt-timer.h:54-62 | the entry joins under its expiry time and sorted timers stay sorted |
| `RbTimer.FindNearest` | 7.2timers/timers/rbt-timer.h:69-77 | -1 without timers, else the time until the first one expires, at least 0 |
| `RbTimer.NearestIsSoonest` | 7.2timers/timers/rbt-timer.h:69-77 | no timer expires sooner than the first, and the wait is 0 exactly when some timer is due |
| `RbTimer.ExpireTimers` | 7.2timers/timers/rbt-timer.h:79-95 | the leading timers whose times are numbers up to now fire in order and leave the tree, all others stay |
| `RbTimer.ExpireExact` | 7.2timers/timers/rbt-timer.h:79-95 | those are the timers that are due if and only if no wrap of the clock lies between them and now |
| `RbTimer.NoWrapIsExact` | 7.2timers/timers/rbt-timer.h:79-95 | which holds whenever the half circle in use does not wrap |
| `RbTimer.LateTimer` | 7.2timers/timers/rbt-timer.h:79-95 | a timer due across the wrap is not fired at any later reading below its own |
| `RbTimer.EarlyTimer` | 7.2timers/timers/rbt-timer.h:79-95 | a timer due 21 ms later, after the wrap, is fired at once |
| `RbTimer.RunTimers` | 7.2timers/timers/rbt-timer.c:10-28 | in any run of starts, stops and expiries the tree stays valid and, with all times in one half circle, in the order of time |
| `Mpmc.EveryRunIsFifo` | 7.3cas_queue/cas_queue/cas_queue/ArrayLockFreeQueueImp.h:43-126 | in every interleaving of any number of threads: read, maximum-read and write index never overtake each other nor the capacity; each successful call takes effect at one step between its call and its return, each failed one takes none, and the effects are a run of one FIFO queue in the order of reservation, each element once |
| `Mpmc.StepKeeps` | 7.3cas_queue/cas_queue/cas_queue/ArrayLockFreeQueueImp.h:43-126 | one atomic step of one thread keeps the ownership of every slot and the log of effects right |
| `Mpmc.RunKeeps` | 7.3cas_queue/cas_queue/cas_queue/ArrayLockFreeQueueImp.h:9-126 | every run keeps them, and what each pending call will do |
| `Mpmc.PromisedKeeps` | 7.3cas_queue/cas_queue/cas_queue/ArrayLockFreeQueueImp.h:43-80 | every slot reserved and not yet committed belongs to a thread that will commit it |
| `Mpmc.FullExact` | 7.3cas_queue/cas_queue/cas_queue/ArrayLockFreeQueueImp.h:43-60 | with no reservation between its two loads enqueue fails exactly when the array is full; otherwise exactly when the write index has moved by a multiple of its size |
| `Mpmc.EmptyExact` | 7.3cas_queue/cas_queue/cas_queue/ArrayLockFreeQueueImp.h:89-106 | the same for dequeue and an empty queue |
| `Mpmc.EnqueueAlone` | 7.3cas_queue/cas_queue/cas_queue/ArrayLockFreeQueueImp.h:43-80 | undisturbed, enqueue succeeds unless the array is full |
| `Mpmc.DequeueAlone` | 7.3cas_queue/cas_queue/cas_queue/ArrayLockFreeQueueImp.h:89-126 | undisturbed, dequeue succeeds unless nothing is committed |
| `Mpmc.SpuriousFull` | 7.3cas_queue/cas_queue/cas_queue/ArrayLockFreeQueueImp.h:43-60 | a run from the start in which enqueue returns false with at most one slot in use |
| `Mpmc.SpuriousEmpty` | 7.3cas_queue/cas_queue/cas_queue/ArrayLockFreeQueueImp.h:89-106 | a run in which dequeue returns false although the queue was never empty during the call |
| `WheelExact.AddedTimerFires` | 7.2timers/timers/timewheel.c:48-149 | a timer is dispatched once, at the tick at which it expires, if and only if it was not filed into slot 0 of the three lower rows; otherwise never; across cascades and the wrap of the clock |
| `WheelExact.Fate` | 7.2timers/timers/timewheel.c:48-149 | a live timer fires at its tick in whatever follows, and only then |
| `WheelExact.Tick` | 7.2timers/timers/timewheel.c:142-149 | one update dispatches exactly the live timers that expire at the new time; all others stay |
| `WheelExact.ShiftedKeeps` | 7.2timers/timers/timewheel.c:95-117 | advancing the clock leaves every timer where it belongs and loses none |
| `WheelExact.RefiledKeeps` | 7.2timers/timers/timewheel.c:85-93 | filing a due row again keeps every timer in place and loses none |
| `WheelExact.FiledDue` | 7.2timers/timers/timewheel.c:48-64 | a cascaded timer is never filed into a slot no tick empties |
| `WheelExact.LostExample` | 7.2timers/timers/timewheel.c:48-64 | at time 1 a timer 16383 ticks away is lost; one tick earlier or 256 later it is not |
| `WheelOrder.KeepsOrder` | 7.2timers/timers/timewheel.c:48-149 | two timers of one expiry time are dispatched together and in the order they have, whatever is added or cascaded meanwhile |
| `WheelOrder.FirstInFirstOut` | 7.2timers/timers/timewheel.c:41-149 | timers added at one time for one expiry fire in the order they were added |
| `WheelOrder.LaterExact` | 7.2timers/timers/timewheel.c:48-83 | a timer added later fires after one that is there if and only if that one does not wait on a higher level |
| `WheelOrder.LaterOvertakes` | 7.2timers/timers/timewheel.c:48-83 | a timer started 255 ticks ahead overtakes one started 256 ticks ahead one tick before |
| `WheelOrder.TickOrder` | 7.2timers/timers/timewheel.c:142-149 | an update dispatches the timers of the new time in their order and leaves every other order as it was |
| `WheelOrder.Joins` | 7.2timers/timers/timewheel.c:41-64 | a new timer joins behind those of its expiry on its own level and below, before those above |
| `WheelOrder.RefiledOrder` | 7.2timers/timers/timewheel.c:85-93 | a cascade puts the timers of a slot behind the others of their expiry, in the order they were in |
| `WheelTime.RefiledLower` | 7.2timers/timers/timewheel.c:48-64 | a cascaded timer goes to a lower row and not to its slot 0 |
| `WheelTime.DueNow` | 7.2timers/timers/timewheel.c:95-117 | the slot the clock reaches holds timers that are due for refiling now |
| `TimeWheel.Wheel.constructor` | 7.2timers/timers/timewheel.c:156-172 | an empty wheel at time 0 |
| `TimeWheel.Wheel.AddNode` | 7.2timers/timers/timewheel.c:48-64 | the slot chosen by the difference of times |
| `TimeWheel.Wheel.AddTimer` | 7.2timers/timers/timewheel.c:67-83 | a time not in the future calls back at once, any other is filed |
| `TimeWheel.Wheel.MoveList` | 7.2timers/timers/timewheel.c:85-93 | the slot is emptied and each of its timers filed again, in order |
| `TimeWheel.Wheel.Shift` | 7.2timers/timers/timewheel.c:95-117 | the clock advances and the row it turns to is cascaded |
| `TimeWheel.Wheel.Execute` | 7.2timers/timers/timewheel.c:130-140 | everything in the current near slot is dispatched |
| `TimeWheel.Wheel.Update` | 7.2timers/timers/timewheel.c:142-149 | execute, advance, execute |
| `RespBuffer.ChunksDoNotMatter` | 6.4mysql_connect_pool/connect_pool/redis_pool/read.c:518-598 | however a stream of any length is cut into feeds, the same replies come out and the reader ends the same, as long as no feed makes the buffer longer than an int can say |
| `RespBuffer.PiecesJoin` | 6.4mysql_connect_pool/connect_pool/redis_pool/read.c:119-598 | then the reader with its 32-bit integers, its buffer and its trimming does what a parser over unbounded integers does with the whole stream at once |
| `RespBuffer.TrimExact` | 6.4mysql_connect_pool/connect_pool/redis_pool/read.c:583-588 | discarding what was read keeps the unread bytes if and only if less than a kilobyte was read, nothing is unread, or the buffer's length fits an int |
| `RespLimits.ChunkLimit` | 6.4mysql_connect_pool/connect_pool/redis_pool/read.c:518-598 | the bound is exact: cutting makes no difference for all streams of up to n bytes if and only if n is at most 2^31 - 1 |
| `RespLimits.CutMatters` | 6.4mysql_connect_pool/connect_pool/redis_pool/read.c:583-588 | one byte more: two status lines of 2^31 bytes together yield one reply fed at once, and two fed in two parts |
| `Resp.StepOk` | 6.4mysql_connect_pool/connect_pool/redis_pool/read.c:235-488 | whatever the bytes, a step leaves a proper task stack of at most nine or none, and consumes something unless it waits |
| `Resp.ParseGets` | 6.4mysql_connect_pool/connect_pool/redis_pool/read.c:550-598 | draining is getting one reply after another |
| `RespLimits.ReplyRoundTrip` | 6.4mysql_connect_pool/connect_pool/redis_pool/read.c:119-598 | an encoded reply, fed in pieces that fit, comes out if and only if its arrays nest at most eight deep; otherwise the reader fails |
| `RespLimits.NineDeep` | 6.4mysql_connect_pool/connect_pool/redis_pool/read.c:365-439 | the 41 bytes of an array nested nine deep make a new reader fail |
| `RespLimits.StreamRoundTrip` | 6.4mysql_connect_pool/connect_pool/redis_pool/read.c:518-598 | a stream of such replies, of any length in all, fed in pieces that fit, is read back reply for reply |
| `RespLimits.ReplyLimit` | 6.4mysql_connect_pool/connect_pool/redis_pool/read.c:119-598 | every reply of up to n bytes comes out, in whatever pieces, if and only if n is at most 2^31 |
| `RespLimits.LongStatus` | 6.4mysql_connect_pool/connect_pool/redis_pool/read.c:220-233 | one byte more: a status line whose length and its CR LF run over the int of readLine |
| `RespLimits.BulkExact` | 6.4mysql_connect_pool/connect_pool/redis_pool/read.c:301-363 | a bulk string of any length fed at once comes out if and only if the end of its length line is among the bytes the int-typed search looks at |
| `RespTexts.NilArray` | 6.4mysql_connect_pool/connect_pool/redis_pool/read.c:365-404 | "*-1" reads as nil wherever an element may stand |
| `RespTexts.NilArrayRead` | 6.4mysql_connect_pool/connect_pool/redis_pool/read.c:365-404 | the five bytes "*-1" CR LF give a new reader the reply nil |
| `RespTexts.ArrayRefused` | 6.4mysql_connect_pool/connect_pool/redis_pool/read.c:379-392 | an array length that is no 64-bit number, below -1 or above INT_MAX fails, each with its own error |
| `RespTexts.ArrayRefusedDeep` | 6.4mysql_connect_pool/connect_pool/redis_pool/read.c:372-377 | an array below eight others fails whatever follows |
| `RespTexts.BulkRefused` | 6.4mysql_connect_pool/connect_pool/redis_pool/read.c:315-325 | a string length that is no 64-bit number, or below -1, fails, each with its own error |
| `RespTexts.BulkWaits` | 6.4mysql_connect_pool/connect_pool/redis_pool/read.c:334-362 | a string whose bytes are not all there waits with its length line unread |
| `RespTexts.BulkUnread` | 6.4mysql_connect_pool/connect_pool/redis_pool/read.c:335-356 | the two bytes behind a string's payload may be any |
| `RespTexts.NumberRefused` | 6.4mysql_connect_pool/connect_pool/redis_pool/read.c:266-275 | an integer line that is no 64-bit number fails |
| `RespTexts.TypeRefused` | 6.4mysql_connect_pool/connect_pool/redis_pool/read.c:441-467 | any first byte but the five types fails with that byte |
| `RespTexts.LineWaits` | 6.4mysql_connect_pool/connect_pool/redis_pool/read.c:220-299 | without the end of its line a reply waits and nothing but its type is read |
| `RespTexts.Letters` | 6.4mysql_connect_pool/connect_pool/redis_pool/read.c:441-488 | the encodings of a status, an error, a number, a string, nothing and an array, byte for byte |
| `RespReader.SeekNewline` | 6.4mysql_connect_pool/connect_pool/redis_pool/read.c:119-143 | the first CR LF among the bytes an int can index, or none |
| `RespReader.RedisReader.constructor` | 6.4mysql_connect_pool/connect_pool/redis_pool/read.c:490-507 | a reader at the start of a reply |
| `RespReader.SdsRange` | 6.4mysql_connect_pool/connect_pool/redis_pool/sds.c:712-738 | the slice that the two int indices give for a string of any length |
| `RespReader.RedisReader.ReadLine` | 6.4mysql_connect_pool/connect_pool/redis_pool/read.c:220-233 | the unread line without its CR LF, consumed, or nothing changed; undefined just when the line's length and 2 exceed an int |
| `RespReader.RedisReader.MoveToNextTask` | 6.4mysql_connect_pool/connect_pool/redis_pool/read.c:235-258 | completed arrays close and the next element becomes the current item |
| `RespReader.RedisReader.ProcessLineItem` | 6.4mysql_connect_pool/connect_pool/redis_pool/read.c:260-299 | reader fields and result are those of the specification's step, its error cases included |
| `RespReader.RedisReader.ProcessBulkItem` | 6.4mysql_connect_pool/connect_pool/redis_pool/read.c:301-363 | the same for a bulk string: negative lengths, nil, incomplete data |
| `RespReader.RedisReader.ProcessMultiBulkItem` | 6.4mysql_connect_pool/connect_pool/redis_pool/read.c:365-439 | the same for an array; `RespTexts.NilArray` and `RespTexts.ArrayRefused` pin down its lengths below 0 and above INT_MAX, `RespLimits.ReplyRoundTrip` the others |
| `RespReader.RedisReader.ProcessItem` | 6.4mysql_connect_pool/connect_pool/redis_pool/read.c:441-488 | the type byte is read once, and then the item is processed |
| `RespReader.RedisReader.Feed` | 6.4mysql_connect_pool/connect_pool/redis_pool/read.c:518-548 | the bytes are appended to the unread ones, the consumed ones discarded |
| `RespReader.RedisReader.GetReply` | 6.4mysql_connect_pool/connect_pool/redis_pool/read.c:550-598 | the next reply of the specification and the buffer it leaves, none while the reply is incomplete, and a sticky error; `RespLimits.ReplyRoundTrip` and the rows of RespTexts pin down the specification |
| `Decimal.ParseExact` | 6.4mysql_connect_pool/connect_pool/redis_pool/read.c:157-218 | string2ll accepts exactly what printing a 64-bit number gives |
| `Decimal.String2LL` | 6.4mysql_connect_pool/connect_pool/redis_pool/read.c:157-218 | the scan with its overflow tests computes that parse |
| `Decimal.CountDigits` | 6.4mysql_connect_pool/connect_pool/redis_pool/hiredis.c:191-201 | the length of the number printed |
| `RespFormat.BulkLen` | 6.4mysql_connect_pool/connect_pool/redis_pool/hiredis.c:204-206 | the length of a bulk string's encoding |
| `RespFormat.TotalLen` | 6.4mysql_connect_pool/connect_pool/redis_pool/hiredis.c:534-539 | the length of the command cut to a signed 32-bit integer |
| `RespFormat.FormatCommandArgv` | 6.4mysql_connect_pool/connect_pool/redis_pool/hiredis.c:524-560 | the buffer is filled exactly, terminated and its length returned if and only if the command is shorter than 2^31 - 1 bytes; which longer ones end in -1 and which write past the buffer |
| `RespFormat.CatFmt` | 6.4mysql_connect_pool/connect_pool/redis_pool/sds.c:578-665 | the text goes to the end of the string if and only if both together fit an int |
| `RespFormat.FormatSdsCommandArgv` | 6.4mysql_connect_pool/connect_pool/redis_pool/hiredis.c:471-513 | every header is placed if and only if all that comes before the last argument fits an int; then what is written, whether the closing assertion holds, and the truncated length returned |
| `RespFormat.SdsExact` | 6.4mysql_connect_pool/connect_pool/redis_pool/hiredis.c:471-513 | what is written is the command if and only if all before the last argument fits an int and the last argument is shorter than 2^32 bytes |
| `RespFormat.HeldExact` | 6.4mysql_connect_pool/connect_pool/redis_pool/hiredis.c:509-509 | the closing assertion holds if and only if every argument is shorter than 2^32 bytes, or shorter than 10^10 with a length of at least 10^9 modulo 2^32 |
| `RespFormat.SecondHeader` | 6.4mysql_connect_pool/connect_pool/redis_pool/hiredis.c:501-507 | two arguments of 2^31 bytes and one: the second header is not placed |
| `RespFormat.Unnoticed` | 6.4mysql_connect_pool/connect_pool/redis_pool/hiredis.c:501-509 | an argument of 2^32 + 10^9 bytes: the length written is wrong and the assertion holds |
| `RespFormat.LongArgument` | 6.4mysql_connect_pool/connect_pool/redis_pool/hiredis.c:471-513 | an argument of 2^32 bytes is announced as empty |
| `RespFormat.WrappedTotal` | 6.4mysql_connect_pool/connect_pool/redis_pool/hiredis.c:524-560 | for the same argument the other formatter allocates 20 bytes |
| `RespFormat.CommandRoundTrip` | 6.4mysql_connect_pool/connect_pool/redis_pool/hiredis.c:524-560 | a formatted command, read back in pieces that fit, is the array of the original binary-safe arguments |
| `RespFormat.CommandLimit` | 6.4mysql_connect_pool/connect_pool/redis_pool/hiredis.c:524-560 | every command of up to n bytes comes back, fed at once, if and only if n is at most 2^31 + 1 |
| `RespFormat.PiecesLimit` | 6.4mysql_connect_pool/connect_pool/redis_pool/hiredis.c:524-560 | in whatever pieces, if and only if n is at most 2^31 |
| `RespFormat.CutCommand` | 6.4mysql_connect_pool/connect_pool/redis_pool/read.c:583-588 | one byte more: a command of two arguments in two pieces that does not come back |
| `Sds.QuotingRoundTrip` | 6.4mysql_connect_pool/connect_pool/redis_pool/sds.c:856-1030 | for every list of byte strings, splitting their quoted forms joined by spaces gives the list back |
| `SdsWords.SplitExact` | 6.4mysql_connect_pool/connect_pool/redis_pool/sds.c:931-1030 | a line splits into these arguments if and only if it is written as words that stand for them, bare or with a part in double or single quotes, blanks between; every other line is refused |
| `SdsWords.SplitWords` | 6.4mysql_connect_pool/connect_pool/redis_pool/sds.c:931-1030 | words written down are read back, and what comes behind them is split as if it stood alone |
| `SdsWords.WordRead` | 6.4mysql_connect_pool/connect_pool/redis_pool/sds.c:942-1017 | one word is read as what it stands for: escapes and two-digit hexadecimal bytes in double quotes, \' in single ones, bare bytes as they are |
| `SdsWords.BareArgs` | 6.4mysql_connect_pool/connect_pool/redis_pool/sds.c:998-1017 | arguments without quotes, zero bytes and blanks, joined by spaces, are the arguments of the line |
| `SdsWords.SingleExact` | 6.4mysql_connect_pool/connect_pool/redis_pool/sds.c:983-997 | a text in single quotes with its apostrophes escaped is read back if and only if it does not end in a backslash; else the line is refused |
| `SdsWords.UnclosedDouble` | 6.4mysql_connect_pool/connect_pool/redis_pool/sds.c:948-982 | a double quote that is not closed refuses the line |
| `SdsWords.UnclosedSingle` | 6.4mysql_connect_pool/connect_pool/redis_pool/sds.c:983-997 | so does a single quote |
| `SdsWords.TextBehindDouble` | 6.4mysql_connect_pool/connect_pool/redis_pool/sds.c:972-976 | so does anything but a blank right behind a closing double quote |
| `SdsWords.TextBehindSingle` | 6.4mysql_connect_pool/connect_pool/redis_pool/sds.c:987-991 | or behind a closing single quote |
| `SdsWords.RefusedAfter` | 6.4mysql_connect_pool/connect_pool/redis_pool/sds.c:931-1030 | whatever good words come first |
| `SdsWords.EscapeTable` | 6.4mysql_connect_pool/connect_pool/redis_pool/sds.c:856-879 | the form of every byte: letters for 7 to 10 and 13, a backslash before quote and backslash, the byte itself when printable, else two lower-case hexadecimal digits |
| `SdsWords.ReprPrintable` | 6.4mysql_connect_pool/connect_pool/redis_pool/sds.c:856-879 | only printable bytes are written, and a printable text without backslash and double quote is only put in quotes |
| `Sds.CatRepr` | 6.4mysql_connect_pool/connect_pool/redis_pool/sds.c:856-879 | the quoted form is appended, which `SdsWords.EscapeTable` and `SdsWords.ReprPrintable` pin down |
| `Sds.TakeToken` | 6.4mysql_connect_pool/connect_pool/redis_pool/sds.c:942-1019 | the in-place scan computes the token, or finds an unbalanced quote, as `SdsWords.WordRead` says of every word |
| `Sds.SplitArgsLine` | 6.4mysql_connect_pool/connect_pool/redis_pool/sds.c:931-1030 | all tokens of the line, or none when it is refused, as `SdsWords.SplitExact` says of every line |
| `Sds.SplitJoin` | 6.4mysql_connect_pool/connect_pool/redis_pool/sds.c:793-830 | joining what was split with the same separator gives the string back, and no piece contains the separator |
| `Sds.SplitLen` | 6.4mysql_connect_pool/connect_pool/redis_pool/sds.c:793-830 | the in-place scan computes that split |
| `Sds.JoinSds` | 6.4mysql_connect_pool/connect_pool/redis_pool/sds.c:1078-1087 | the pieces with the separator between them |
| `Sds.LL2Str` | 6.4mysql_connect_pool/connect_pool/redis_pool/sds.c:429-458 | the decimal form of any 64-bit signed number, terminated |
| `Sds.ULL2Str` | 6.4mysql_connect_pool/connect_pool/redis_pool/sds.c:461-487 | the decimal form of any 64-bit unsigned number, terminated |
| `Sds.ReverseFirst` | 6.4mysql_connect_pool/connect_pool/redis_pool/sds.c:446-456 | the swapping loop reverses the digits in place |
| `BTree.InsertCorrect` | 1.1rbtree/btree.c:64-142 | one occurrence of the key is added to a sorted tree, all leaves stay at one depth and every node within its bounds, for every degree of at least 2 |
| `BTree.EveryRunHolds` | 1.1rbtree/btree.c:122-142 | after any insertions the tree holds what it held and the keys inserted, sorted |
| `BTree.SplitOrder` | 1.1rbtree/btree.c:64-95 | splitting a child leaves the order as it was |
| `BTree.NonfullOrder` | 1.1rbtree/btree.c:97-120 | insertion below a node that is not full adds the key in order and keeps its shape |
| `BTreeNodes.InsertInLeaf` | 1.1rbtree/btree.c:99-108 | the keys greater than the new one are shifted and it takes the place behind the last that is not |
| `BTreeNodes.UpperHalf` | 1.1rbtree/btree.c:66-82 | a new node takes the upper half of a full one's arrays |
| `BTreeNodes.SplitChildNode` | 1.1rbtree/btree.c:64-95 | the arrays of parent, lower and upper half after a split |
| `BTreeHeap.SplitAt` | 1.1rbtree/btree.c:64-95 | the linked tree after a split is the split tree, made of the old nodes and one new one |
| `BTreeHeap.InsertNonfullAt` | 1.1rbtree/btree.c:97-120 | the linked tree after the descent is the specification's, no node shared or lost |
| `BTreeHeap.GrowRoot` | 1.1rbtree/btree.c:125-137 | a full root is split below a new one |
| `BTreeHeap.Btree.constructor` | 1.1rbtree/btree.c:54-61 | an empty tree |
| `BTreeHeap.Btree.Insert` | 1.1rbtree/btree.c:122-142 | the pointers and arrays after btree_insert are the specification's tree, and the keys one occurrence more |
| `SkipList.ZSkipList.constructor` | 7.2timers/timers/skiplist.c:17-29 | an empty list |
| `SkipList.ZSkipList.Search` | 7.2timers/timers/skiplist.c:59-67 | on each level the last node before the score's place that is tall enough |
| `SkipList.ZSkipList.Insert` | 7.2timers/timers/skiplist.c:55-84 | one new node at its place in the order, for every height drawn |
| `SkipList.ZSkipList.DeleteHead` | 7.2timers/timers/skiplist.c:92-105 | the first node leaves |
| `SkipList.ZSkipList.DeleteNode` | 7.2timers/timers/skiplist.c:107-117 | the node leaves every level it is on |
| `SkipList.ZSkipList.Delete` | 7.2timers/timers/skiplist.c:119-137 | exactly the first node of that score leaves, if there is one |
| `SkipList.ZSkipList.NextOnLevel` | 7.2timers/timers/skiplist.c:59-80 | level i links exactly the nodes taller than i, in order |
| `SkipList.ZSkipList.AboveLevel` | 7.2timers/timers/skiplist.c:102-103 | the header's links above level are null |
| `SkipList.ZSkipList.DeletesItself` | 7.2timers/timers/skiplist.c:119-137 | the node handed to zslDelete is the one that leaves if and only if no earlier node has its score |
| `SkipList.DeletesAnother` | 7.2timers/timers/skiplist.c:119-137 | from an empty list, two insertions of one score: deleting the later of the two nodes takes out the other |
| `MinHeap.TimerHeap.Push` | 7.2timers/timers/minheap.c:13-19 | one entry more, heap order and every entry's index right |
| `MinHeap.TimerHeap.Pop` | 7.2timers/timers/minheap.c:21-31 | an entry of least time leaves, marked as no member; only with more than 2^31 entries may an index run over |
| `MinHeap.TimerHeap.Erase` | 7.2timers/timers/minheap.c:38-57 | exactly that entry leaves, wherever it was; none if it is no member; an index runs over only with 2^31 entries or more, and with the last of them it does |
| `MinHeap.TimerHeap.Adjust` | 7.2timers/timers/minheap.c:59-73 | after any change of one entry's time the heap is right again, with the same entries, unless it sinks to place 2^31 - 1 or beyond; exactly then an index runs over |
| `MinHeap.TimerHeap.Reserve` | 7.2timers/timers/minheap.c:75-89 | room for more entries, the entries unchanged |
| `MinHeap.TimerHeap.ShiftUp` | 7.2timers/timers/minheap.c:103-113 | the hole rises to the entry's place |
| `MinHeap.TimerHeap.ShiftUpUnconditional` | 7.2timers/timers/minheap.c:91-101 | the same when the first step is known to be needed |
| `MinHeap.TimerHeap.ShiftDown` | 7.2timers/timers/minheap.c:115-128 | the hole sinks to the entry's place; the unsigned index of the children wraps if and only if that place is 2^31 - 1 or beyond |
| `MinHeap.RestLimit` | 7.2timers/timers/minheap.c:115-128 | entries always come to rest below that place if and only if there are fewer than 2^31 |
| `MinHeap.Replaced` | 7.2timers/timers/minheap.c:43-52 | after replacing one time a single direction suffices, the one the test of the parent picks |
| `MinHeap.StepUp` | 7.2timers/timers/minheap.c:103-113 | one exchange with the parent moves the only defect up |
| `MinHeap.StepDown` | 7.2timers/timers/minheap.c:115-128 | one exchange with the least child moves the only defect down |
| `MinHeap.TopIsLeast` | 7.2timers/timers/minheap.c:11-11 | the first entry is the least |
| `Dict.TableIsMap` | 6.4mysql_connect_pool/connect_pool/redis_pool/dict.c:88-256 | no key occurs twice among the entries, there are as many as the map has keys, and lookup finds what the map says |
| `Dict.Table.constructor` | 6.4mysql_connect_pool/connect_pool/redis_pool/dict.c:60-82 | an empty map |
| `Dict.Table.Expand` | 6.4mysql_connect_pool/connect_pool/redis_pool/dict.c:88-132 | every key keeps its value, the closing assertion holds, and it refuses exactly a size below the number of entries |
| `Dict.Table.NextPower` | 6.4mysql_connect_pool/connect_pool/redis_pool/dict.c:306-315 | a power of two of at least 4 and at least the size |
| `Dict.Table.KeyIndex` | 6.4mysql_connect_pool/connect_pool/redis_pool/dict.c:320-337 | -1 for a key that is there, else its chain in the table as it is after any rehash, cut to an int |
| `Dict.ChainLimit` | 6.4mysql_connect_pool/connect_pool/redis_pool/dict.c:135-154 | every new key is placed if and only if that table has no more than 2^31 chains |
| `Dict.Table.Add` | 6.4mysql_connect_pool/connect_pool/redis_pool/dict.c:135-154 | the map gains the key, or is unchanged and the call fails because the key is there; with its chain at 2^31 or beyond it is refused or strays before the array, and exactly which |
| `Dict.Table.Replace` | 6.4mysql_connect_pool/connect_pool/redis_pool/dict.c:160-179 | the map with the key set, and whether it was new; undefined exactly when a new key's chain is at 2^31 or beyond |
| `Dict.Table.Delete` | 6.4mysql_connect_pool/connect_pool/redis_pool/dict.c:182-210 | the map without the key, every other chain untouched |
| `Dict.Table.FindEntry` | 6.4mysql_connect_pool/connect_pool/redis_pool/dict.c:243-256 | the value of the key in the map |
| `Dict.Iterator.Next` | 6.4mysql_connect_pool/connect_pool/redis_pool/dict.c:268-286 | the first of the entries not yet returned, none after the last |
| `Dict.ScannedIs` | 6.4mysql_connect_pool/connect_pool/redis_pool/dict.c:268-286 | the size cut to an int lets the iterator see all chains of a table below 2^31 chains, and none of a larger one |
| `Dict.Iterator.NextThenDelete` | 6.4mysql_connect_pool/connect_pool/redis_pool/dict.c:268-286 | deleting the entry just returned leaves the entries to come as they were |
| `Dict.VisitAll` | 6.4mysql_connect_pool/connect_pool/redis_pool/async.c:290-292 | a whole iteration visits each entry of the map once: as many as used, no key twice, together the map; from 2^31 chains on it visits none |
| `RingBuffer.Ring.constructor` | 4.2net_from_nginx_redis_memcached/reactor/ringbuf.h:30-36 | an empty queue of the least power-of-two capacity that is at least sz and 2 |
| `RingBuffer.Ring.Write` | 4.2net_from_nginx_redis_memcached/reactor/ringbuf.h:66-89 | all the bytes join the queue or none does, as the free room decides, across the wrap of buffer and positions |
| `RingBuffer.Ring.Read` | 4.2net_from_nginx_redis_memcached/reactor/ringbuf.h:91-114 | the oldest bytes leave in order, as many as asked for and there |
| `RingBuffer.ChooseSize` | 4.2net_from_nginx_redis_memcached/reactor/ringbuf.h:30-36 | the capacity is the least power of two at or above sz and 2 |
| `RingBuffer.RoundUp` | 4.2net_from_nginx_redis_memcached/reactor/ringbuf.h:22-28 | the least power of two above the number |
| `RingBuffer.WrapSlot` | 4.2net_from_nginx_redis_memcached/reactor/ringbuf.h:66-114 | the wrap of a 32-bit position does not move its slot |
| `Deadlock.SilentMeansAcyclic` | 7.4deadlock_detect/deadlock_success.c:308-322 | no report from any vertex means no cycle, self-loops included |
| `Deadlock.ReportsExactly` | 7.4deadlock_detect/deadlock_success.c:224-251 | a search reports if and only if, behind some edge of its start, a walk comes back to the start or two different walks reach one vertex |
| `Deadlock.DfsExact` | 7.4deadlock_detect/deadlock_success.c:194-221 | the depth-first search stays silent if and only if no walk enters a vertex seen before and none is reached in two ways; then it has visited exactly what is reachable |
| `Deadlock.OneSuccessorExact` | 7.4deadlock_detect/deadlock_success.c:308-322 | where every vertex has at most one successor, some search reports if and only if there is a cycle |
| `Deadlock.DiamondReported` | 7.4deadlock_detect/deadlock_success.c:224-251 | a graph without a cycle that is reported |
| `DeadlockSearch.Detector.SearchVertex` | 7.4deadlock_detect/deadlock_success.c:81-94 | the first index that holds the vertex, or the number of vertices |
| `DeadlockSearch.Detector.DFS` | 7.4deadlock_detect/deadlock_success.c:194-221 | visited set and deadlock flag are the specification's; the recursion ends and the path never leaves its array |
| `DeadlockSearch.Detector.SearchForCycle` | 7.4deadlock_detect/deadlock_success.c:224-251 | the flag is raised exactly when the search from that vertex reports |
| `DeadlockSearch.Detector.CheckDeadLock` | 7.4deadlock_detect/deadlock_success.c:308-322 | the flag ends set exactly when some vertex's search reports; when it is not set there is no cycle; with at most one successor each it is set if and only if there is one |

## Findings

Where a promise does not hold of the code, the model keeps the code as it is, proves exactly when the promise does
hold, and gives an input that breaks it.

- **A failed ikcp_send can leave half a message queued** (`ikcp.c:488-562`). Stream mode fills the last queued segment
  before it counts the fragments of the rest. `KcpSystem.FailedSendClean` says when (if and only if that segment has
  room); `KcpSystem.FailedSendHalfDone` gives a message of which 1375 bytes are queued although -2 is returned.
- **A receive window of 65536 or more is advertised modulo 65536** (`ikcp.c:984-1003`). `KcpLocal.HeadersIntact` gives
  the exact condition, `KcpLocal.WideWindowLooksClosed` an idle endpoint that tells its peer it has no room at all.
- **expire_timer compares times as unsigned numbers while the tree orders them by signed difference**
  (`rbt-timer.h:79-95`). `RbTimer.ExpireExact` says when it fires exactly what is due; across the wrap of the
  millisecond clock a due timer blocks the queue (`RbTimer.LateTimer`) and a future one fires at once
  (`RbTimer.EarlyTimer`).
- **enqueue and dequeue can return false although the queue is neither full nor empty**
  (`ArrayLockFreeQueueImp.h:43-126`): the two indices are loaded one after the other. `Mpmc.FullExact` and
  `Mpmc.EmptyExact` give the conditions, `Mpmc.SpuriousFull` and `Mpmc.SpuriousEmpty` whole runs.
- **A timer filed directly into slot 0 of one of the three lower rows never fires** (`timewheel.c:48-117`).
  `WheelExact.AddedTimerFires` is exact; `WheelExact.LostExample` names the times.
- **Timers of one expiry time need not fire in the order they were added** (`timewheel.c:48-117`): one added late goes
  straight to a lower row. `WheelOrder.LaterExact` says when, `WheelOrder.LaterOvertakes` gives an example; added at one
  time they do (`WheelOrder.FirstInFirstOut`).
- **The reply reader loses unread bytes once its buffer holds 2^31 bytes** (`read.c:583-588`, `sds.c:712-738`):
  redisReaderGetReply discards what it read with sdsrange, whose indices and length are ints. `RespBuffer.TrimExact`
  says when nothing is lost, `RespBuffer.ChunksDoNotMatter` that then it does not matter how a stream is cut,
  `RespLimits.ChunkLimit` that the bound of 2^31 - 1 bytes is exact, and `RespLimits.CutMatters` gives a stream that
  breaks it.
- **A reply of more than 2^31 bytes may not come out** (`read.c:119-143`, `read.c:220-233`): readLine adds 2 to a length
  kept in an int (`RespLimits.LongStatus`), and seekNewline keeps its last index in one. `RespLimits.ReplyLimit`,
  `RespFormat.PiecesLimit` and, for commands fed at once, `RespFormat.CommandLimit` are the exact bounds;
  `RespFormat.CutCommand` is a command that breaks the second and `RespLimits.BulkExact` says which single bulk strings
  still come out.
- **A reply nested more than eight arrays deep is refused** (`read.c:365-439`); `RespLimits.ReplyRoundTrip`,
  `RespLimits.NineDeep`.
- **redisFormatCommandArgv overruns its buffer when the command's length does not fit an int**
  (`hiredis.c:524-560`). `RespFormat.FormatCommandArgv` separates the lengths that are formatted, those that return -1
  and those that overrun; `RespFormat.WrappedTotal` is one argument of 2^32 bytes.
- **redisFormatSdsCommandArgv writes a wrong command once an argument is long** (`hiredis.c:471-513`, `sds.c:578-665`).
  sdscatfmt keeps its place in an int, so that after 2^31 bytes the next header goes astray (`RespFormat.SecondHeader`),
  and prints a length of 2^32 or more modulo 2^32 (`RespFormat.LongArgument`). `RespFormat.SdsExact` is the exact
  condition. The closing assertion does not always notice: `RespFormat.HeldExact`, `RespFormat.Unnoticed`.
- **sdssplitargs has no way to write a single-quoted text that ends in a backslash** (`sds.c:983-997`): the backslash
  takes the closing quote. `SdsWords.SingleExact` is exact.
- **zslDelete takes out another node when an earlier one has the same score** (`skiplist.c:119-137`);
  `SkipList.ZSkipList.DeletesItself`, `SkipList.DeletesAnother`.
- **The min-heap goes astray from 2^31 entries on** (`minheap.c:115-128`): the place after a hole's children is an
  unsigned int. `MinHeap.TimerHeap.ShiftDown` says when it wraps, `MinHeap.RestLimit` that the bound is exact.
- **The hash table goes astray beyond 2^31 chains, and its iterator sees nothing from 2^31 on** (`dict.c:135-154`,
  `dict.c:268-286`, `dict.c:320-337`): a chain's number and the size are cut to an int. `Dict.Table.Add` and
  `Dict.ChainLimit`, `Dict.ScannedIs` and `Dict.VisitAll` are exact.
- **check_dead_lock reports graphs that have no cycle** (`deadlock_success.c:224-251`). `Deadlock.ReportsExactly` says
  which graphs it reports, `Deadlock.DiamondReported` is one without a cycle. Silence does mean there is none, and where
  every thread waits for at most one other, a report means there is one (`Deadlock.OneSuccessorExact`).

The comment on ikcp_send and the documentation of KCP's stream mode do not mention the first; the comment in
`minheap.c:44-48` that an entry never has to move both ways is proved (`MinHeap.Replaced`).

## Left out

KCP
- KcpSystem.EndToEnd: assumes that both ends run this code and that fewer than 2^31 segments are sent in a run, since
  a number that comes round again cannot be told from the old one; forged acknowledgements are covered by `KcpLocal`
  only.
- KcpEndpoint.Ikcpcb.constructor: mtu and windows are fixed at creation, as ikcp_setmtu, ikcp_wndsize and ikcp_nodelay
  leave them.
- The control block is held in one field of the class and its queues are sequences; relinking of list nodes and aliasing
  are not modelled.
- KcpEndpoint.Ikcpcb.PeekSize: the size of a message does not run over an int, as fragments of a gigabyte would make it.
- KcpInput.GrowExact: says nothing of windows or segment sizes whose products run over 32 bits; `KcpTiming.GrowBounds`
  holds of all.
- KcpTiming.RttExact: says nothing of round-trip times of 2^28 milliseconds and more.
- KcpProgress.AllArrives: the times of the rounds are given; that resend times are reached is not derived from them.
- The 32-bit overflow of the smoothed round-trip time, the growth of the acknowledgement array, failing allocation,
  logging.

Red-black tree and its timers
- RbDelete.Delete: says nothing of the root's own parent pointer, which may be left dangling after a root with one
  child is deleted; nothing reads it.
- RbTimer.FindNearest: `(int) key - (int) now` is taken to wrap, where C leaves an overflow undefined.
- RbTimer.RunTimers: starting a pending entry again, or stopping one that is not pending, is skipped; handlers that
  add or delete timers while they run are not modelled.

Lock-free queue
- Mpmc.EveryRunIsFifo: the counters are unbounded; 65535 does not divide 2^64, so the code does not survive their wrap.
- m_count is an unbounded integer, and size() is not modelled.

Timing wheel, min-heap, skip list
- TimeWheel.Wheel.AddTimer: the cancel flag, the spinlock, reading the clock and the loop of expire_timer in
  `timewheel.c`; slots are sequences.
- MinHeap.TimerHeap.Reserve: failing allocation.
- MinHeap.TimerHeap.Push: asks for fewer than 2^32 - 2 entries, the greatest index being the mark of a non-member.
- MinHeap.TimerHeap.ShiftDown: what the code does after an index has run over; it reads outside the array.
- SkipList.ZSkipList.Insert: the draw of zslRandomLevel is a parameter. A new node's links are null, where the code
  leaves them unset until zslInsert fills them. Printing and freeing.

RESP and sds
- RespFormat.FormatCommandArgv: allocation failure, lengths given as NULL, and the formats of redisvFormatCommand.
- RespFormat.TotalLen: Representable asks that the arguments fit the address space together.
- RespReader.RedisReader.GetReply: replaced reply functions, allocation failure, the trimming of an idle buffer; an
  array is attached to its parent when it is complete, where the code does so when it is created.
- RespReader.RedisReader.ProcessBulkItem: the sum of a length just below 2^63 and 2 is not cut to 64 bits.
- Sds.CatRepr: isprint, and in Sds.SplitArgsLine isspace, are those of the C locale.
- Sds.LL2Str: the negation of the least 64-bit number is taken to wrap.
- sds headers, allocation and growth, and the other formats of sdscatfmt.

B-tree, hash table, ring buffer
- btree_delete_key, btree_merge and traversal.
- BTree.InsertCorrect: twice the degree does not run over an int.
- Dict.Iterator.Next: the index does not run over, as it would when the iterator is asked 2^31 times after its end.
- Dict.Table.NextPower: the branch for sizes of LONG_MAX and above.
- Key and value duplication, destructors and _dictClear; chains are sequences.
- RingBuffer.ChooseSize: requires sz of at most 2^31, because above it the code shifts a 32-bit one by 32, which C
  leaves undefined.
- rb_readline, rb_clear, rb_free, rb_remain beyond its use in rb_write, and the memory barriers.

Deadlock detector
- DeadlockSearch.Detector.CheckDeadLock: the bookkeeping of locks and threads that builds the graph; the search is
  over a fixed graph.

Out of scope: the repository's sockets, event loops, HTTP and WebSocket servers, connection pools, coroutines and
allocators, whose behaviour is that of the operating system and the network, and its language samples.
