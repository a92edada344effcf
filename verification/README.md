# kkdg: models and proofs

kkdg is a Go library for game servers. This project models its hard parts in Dafny and proves what they
are meant to guarantee. Each module follows one component:

| component | modules |
|---|---|
| hierarchical timing wheel: values and invariant, histories and theorems, the objects that refine them | `TimingWheelSpec`, `TimingWheelRuns`, `TimingWheel`, `Arithmetic` |
| delay queue: the heap; what is handed over when, the sleep/wake handshake | `DelayQueue`, `DelayQueueWake`, `Bags` |
| write side of a connection: batching, retry and accounting, the goroutine protocol, the worker-queue variant | `WriteBatch`, `WriteProtocol`, `WriteWorker` |
| read side of a connection: framing, reassembly, the consumer protocol | `Bytes`, `Framing`, `PacketSpliter`, `ReadProtocol` |
| actor directory: server, its state read off the history, client, both with a failing wire between them; the relay hub | `HubServer`, `HubHistory`, `HubClient`, `HubConvergence`, `RelayHub` |
| queues and scheduler | `Deque`, `WorkerQueue`, `Fifo`, `BBQueue`, `NNQueue`, `RBQueue`, `ByteRing` |
| pending requests and membership | `PendingTable`, `PendingRace`, `Membership`, `MembershipRace` |
| message codec and buffer pools | `Codec`, `Pools` |

Code that changes state is a class whose methods are proved against functions of the old state; the
theorems are about those functions. Goroutines are state machines whose steps are the critical sections,
the atomic accesses and the channel operations; "run" means any sequence of enabled steps. Time is an
explicit `now` that does not go back. A pooled buffer, a message body or a task is an opaque value.

Points where the code does not do what one might expect are kept as they are. Lemmas show
them, most with a run that leads there, beside the condition under which the expected property holds:

- A chunk that ends in an oversized header drops the frames completed by the same chunk
  (`PacketSpliter.FailingChunkDropsFrames`); `PacketSpliter.DeliveredIffFailingChunkHasNoFrame` says when.
- On the worker-queue write side a buffer accepted after a fatal write error is still sent
  (`WriteWorker.FatalErrorLeavesGap`); the prefix is kept if and only if nothing is sent after a loss
  (`WriteWorker.PrefixIffNoSendAfterLoss`). The write loop has no such gap.
- `ReadProcessor.Stop` before `Start` returns without handing over what was accepted
  (`ReadProtocol.EarlyStopReturnsWithoutHanding`); `ReadProtocol.HandsOverIffStarted` says when.
- `WriteProcessor.Stop` before `Start` does not return until `Start` comes
  (`WriteProtocol.StopReturnsIffStarted`).
- An `Offer` that is waking the poll loop stays blocked when the loop exits instead
  (`DelayQueueWake.OfferCanBeLeftBlocked`, `DelayQueueWake.BlockedReturnsIffPolling`).
- A registration left in a superseded connection's queue, handled after the successor's, takes the actor
  away (`HubConvergence.ConvergenceCanFail`, `HubConvergence.Convergence`).
- A relay session that registers under a second name leaves its first entry behind (`RelayHub.BoundInv`).
- `takeCallback` never gives its place in the counter back (`PendingRace.TimeoutsExhaust`); the counter's
  load and add are two steps, so p overlapping callers exceed the maximum by p - 1 and no more
  (`PendingRace.OverlapAttainsBound`, `PendingRace.LiveWithinMaximum`); a send that fails after the
  callback was claimed runs it twice (`PendingRace.FailedSendRunsTwice`, `PendingRace.FailedSendRuns`).
- `WriteByte` on a full byte ring of 4096 bytes or more does not grow it (`ByteRing.WriteByteHasRoom`).
- `NewBBPool` does not return for a lower bound of 0 or beyond 2^31 (`Pools.LoopEnds`).
- `bbPool.GetWithCap` promises at least n bytes; beyond 2^31 the 32-bit size wraps
  (`Pools.PowerPool.GetWithCap`).
- The comment at utils/buffers/kkbuffer/doc.go:10 calls `maxItemSize` 64 KB; the expression is 2 MB, and
  `Pools.MAX_ITEM_SIZE` follows the expression.
- A heartbeat and a removal that overlap can leave an update time without a member or a member that no
  sweep removes, and a sweep can remove a member just heard of (`MembershipRace.OrphanTime`,
  `MembershipRace.TimelessMember`, `MembershipRace.FreshMemberRemoved`);
  `MembershipRace.AgreeIffSameOrder` says when the two records agree.
- A member without a node id is never removed by a timeout sweep (`Membership.Discovery.CheckMemberTimeout`).

`dafny verify dfyconfig.toml` checks the whole project.

## Model

| member | source | states |
|---|---|---|
| `TimingWheelSpec.SlotIsIdleOrSame` | utils/timingwheel/timingwheel.go:73-88 | the slot a timer goes to is idle or already armed with that very expiration, so a bucket is queued once per cycle |
| `TimingWheelSpec.AddInv` | utils/timingwheel/timingwheel.go:67-109 | `add` keeps the invariant of every level (clock links, expirations that are multiples of the tick and inside the window, slot numbers, one queue entry per armed bucket, timers inside their bucket's tick); an overflow wheel never answers "expired"; a timer coming out of a flushed bucket lands strictly below it |
| `TimingWheelSpec.AdvanceInv` | utils/timingwheel/timingwheel.go:123-135 | advancing to the earliest bucket keeps the invariant on all levels and leaves the finest clock exactly at that bucket's expiration |
| `TimingWheelSpec.ClocksAgree` | utils/timingwheel/timingwheel.go:123-135 | each level's clock is the finest clock truncated to that level's tick, whatever the finest clock is |
| `TimingWheelSpec.DetachInv` | utils/timingwheel/bucket.go:98-111 | taking a timer out of its bucket keeps the invariant and touches no other timer |
| `TimingWheelRuns.AfterFuncInv` | utils/timingwheel/timingwheel.go:171-179 | scheduling keeps the history invariant: every issued timer is in exactly one of bucket, stopped, fired |
| `TimingWheelRuns.StopInv` | utils/timingwheel/bucket.go:45-58 | `Stop` keeps it, and answers true exactly for a pending timer |
| `TimingWheelRuns.DispatchInv` | utils/timingwheel/timingwheel.go:145-156 | taking a due bucket, advancing and flushing keeps it |
| `TimingWheelRuns.DispatchLowers` | utils/timingwheel/bucket.go:119-138 | a flush only runs timers or moves them to a strictly lower level, never back into its own bucket, and a measure goes down |
| `TimingWheelRuns.RunIsSafe` | utils/timingwheel/timingwheel.go:113-179 | over any run of a new wheel: no timer fires twice, each firing is of a scheduled timer and less than a tick early, every scheduled timer is in just one of bucket, stopped and fired, and none cascades more often than there are levels |
| `TimingWheelRuns.QuietMeansAllDueFired` | utils/timingwheel/timingwheel.go:137-157 | when polling finds nothing due, a timer that was not stopped has fired if and only if its expiration, truncated to the tick, has come |
| `TimingWheelRuns.PendingIsLater` | utils/timingwheel/timingwheel.go:137-157 | then every pending timer expires later |
| `TimingWheelRuns.FiresAtOnceIffExpired` | utils/timingwheel/timingwheel.go:111-179 | in every state: a timer fires within the call that schedules it if and only if it expires before the end of the clock's tick; any other is pending afterwards and nothing fires |
| `TimingWheelRuns.ClockIsLastTaken` | utils/timingwheel/timingwheel.go:123-157 | over any run the finest clock is the expiration of the last bucket taken, and where it was before if none was |
| `TimingWheelRuns.NewWheelFiresAtOnce` | utils/timingwheel/timingwheel.go:33-72 | on a new wheel the clock is the truncated start time, so a timer fires at once exactly if it expires before the end of the tick the wheel was made in |
| `TimingWheelRuns.StoppedNeverFires` | utils/timingwheel/bucket.go:39-58 | after `Stop` returned true the timer never fires, in any continuation |
| `TimingWheelRuns.PollingEnds` | utils/timingwheel/timingwheel.go:145-156 | polling at a fixed time ends after a bounded number of dispatches |
| `TimingWheelRuns.PollingFiresExactlyDue` | utils/timingwheel/timingwheel.go:137-157 | from every state polling fires exactly the due timers |
| `TimingWheel.Bucket.SetExpiration` | utils/timingwheel/bucket.go:84-86 | swap; true exactly when the value changed |
| `TimingWheel.Bucket.Add` | utils/timingwheel/bucket.go:88-96 | appends the timer and points it at the bucket |
| `TimingWheel.TimingWheel.EnsureOverflow` | utils/timingwheel/timingwheel.go:92-106 | creates the next level once, with tick, clock and shared queue as the specification says |
| `TimingWheel.TimingWheel.Add` | utils/timingwheel/timingwheel.go:67-109 | the recursive in-place `add` refines the specification's `Add` |
| `TimingWheel.TimingWheel.AdvanceClock` | utils/timingwheel/timingwheel.go:123-135 | the recursive in-place clock update refines `Advance` |
| `TimingWheel.TimingWheel.AddOrRun` | utils/timingwheel/timingwheel.go:111-121 | refines the history step: added, or started now |
| `TimingWheel.TimingWheel.AfterFunc` | utils/timingwheel/timingwheel.go:169-179 | issues the next id to a new timer and adds or runs it; the timer is known to the wheel from then on |
| `TimingWheel.TimingWheel.Stop` | utils/timingwheel/bucket.go:39-58 | for any timer the wheel has issued, pending or not: refines the history's `Stop`; the loop ends with the timer in no bucket |
| `TimingWheel.TimingWheel.Remove` | utils/timingwheel/bucket.go:98-117 | false, without effect, when the timer is in another bucket |
| `TimingWheel.TimingWheel.FlushOne` | utils/timingwheel/bucket.go:123-135 | one turn of the flush loop refines one re-insertion and leaves the rest of the bucket alone |
| `TimingWheel.TimingWheel.Flush` | utils/timingwheel/bucket.go:119-138 | the whole flush refines the specification's cascade and leaves the bucket idle |
| `TimingWheel.TimingWheel.Poll` | utils/timingwheel/timingwheel.go:137-157 | one turn of dispatch at `now`: takes a due bucket exactly when there is one and refines `Dispatch` |
| `TimingWheel.NewTimingWheel` | utils/timingwheel/timingwheel.go:33-65 | a new wheel has the given tick and size, its clock at the start time truncated to the tick and every bucket idle; it shows the initial world, on objects of its own, and is ready to schedule |
| `DelayQueue.RootIsLeast` | utils/timingwheel/delayqueue/delayqueue.go:19-33 | in an ordered heap the root is a least item |
| `DelayQueue.PriorityQueue.Push` | utils/timingwheel/delayqueue/delayqueue.go:41-53 | appends, doubling the capacity when full; the Index fields stay right |
| `DelayQueue.PriorityQueue.Pop` | utils/timingwheel/delayqueue/delayqueue.go:55-67 | takes the last item off, halving a sparse array |
| `DelayQueue.PriorityQueue.Insert` | utils/timingwheel/delayqueue/delayqueue.go:108-115 | heap.Push: the heap order, the contents plus one, and what the item's index 0 means |
| `DelayQueue.PriorityQueue.PeekAndShift` | utils/timingwheel/delayqueue/delayqueue.go:69-81 | removes a least item exactly when it is due, else tells how long to wait |
| `DelayQueueWake.NextInv` | utils/timingwheel/delayqueue/delayqueue.go:108-186 | every step of Offer and Poll keeps the handshake invariant |
| `DelayQueueWake.NoLostWakeup` | utils/timingwheel/delayqueue/delayqueue.go:108-186 | in every reachable state at most one Offer is blocked on wakeupC, and then the poller, unless it has left, is where it receives; a parked poller that must learn of a new earliest item has a wake-up due |
| `DelayQueueWake.HandsIffDue` | utils/timingwheel/delayqueue/delayqueue.go:69-81 | a look at the queue hands an item over if and only if one is due; it is then a least one, due, and has left the queue once; otherwise the poller parks on the least item and the queue is unchanged |
| `DelayQueueWake.NothingLostOrEarly` | utils/timingwheel/delayqueue/delayqueue.go:108-186 | over any run: what was pushed is, each as often as pushed, queued, in hand, delivered or dropped by an exit; nothing is in hand or delivered before its time |
| `DelayQueueWake.TimerHands` | utils/timingwheel/delayqueue/delayqueue.go:152-171 | once the timer has fired the next look hands an item over, whatever Offer does in between |
| `DelayQueueWake.Queue.Push` | utils/timingwheel/delayqueue/delayqueue.go:108-115 | Offer's critical section adds the element to the heap and is the protocol's push, with the flag it needs |
| `DelayQueueWake.Queue.TryWake` | utils/timingwheel/delayqueue/delayqueue.go:117-122 | Offer's compare-and-swap is the protocol's race |
| `DelayQueueWake.Queue.Look` | utils/timingwheel/delayqueue/delayqueue.go:126-141 | Poll's critical section is the protocol's look: the item it hands over leaves the heap, and otherwise the delay leads to the least item's time |
| `DelayQueueWake.Queue.Awake` | utils/timingwheel/delayqueue/delayqueue.go:162-169 | the swap after the timer is the protocol's reset, with the answer whether to drain |
| `DelayQueueWake.RaceWakes` | utils/timingwheel/delayqueue/delayqueue.go:117-122 | an Offer that races with a parked poller wakes it or finds a wake-up under way |
| `DelayQueueWake.HelpIsPossible` | utils/timingwheel/delayqueue/delayqueue.go:108-186 | whenever a waiting poller should look again, a step other than its timer firing or an exit is possible and brings it nearer to looking |
| `DelayQueueWake.NothingSetsBack` | utils/timingwheel/delayqueue/delayqueue.go:108-186 | and no step but an exit takes it further away: it gets nearer, or the same step stays the helpful one |
| `DelayQueueWake.BlockedReturnsIffPolling` | utils/timingwheel/delayqueue/delayqueue.go:117-186 | an Offer blocked on wakeupC can return if and only if the poll loop has not left |
| `DelayQueueWake.OfferCanBeLeftBlocked` | utils/timingwheel/delayqueue/delayqueue.go:117-186 | a run in which the loop leaves with an Offer blocked for good |
| `Deque.UnlinkedChain` | utils/queues/dqueue/deque.go:308-337 | the pointer writes of doRemove leave a chain without that slot |
| `Deque.LinkedChain` | utils/queues/dqueue/deque.go:221-268 | the pointer writes of an insertion leave a chain with the slot in place |
| `Deque.Deque.GetElement` | utils/queues/dqueue/deque.go:89-106 | a blank slot in no list, from the free stack or new; live slots keep their contents |
| `Deque.Deque.PushFront` | utils/queues/dqueue/deque.go:147-168 | prepends; other live addresses keep their values; links, free stack and live slots still partition the array |
| `Deque.Deque.PushBack` | utils/queues/dqueue/deque.go:170-191 | appends, likewise |
| `Deque.Deque.PopFront` | utils/queues/dqueue/deque.go:193-205 | takes the first value, the zero value when empty |
| `Deque.Deque.PopBack` | utils/queues/dqueue/deque.go:207-219 | takes the last value |
| `Deque.Deque.Remove` | utils/queues/dqueue/deque.go:298-337 | takes a live address out of the sequence |
| `Deque.Deque.Reset` | utils/queues/dqueue/deque.go:115-127 | empties the deque |
| `Deque.Deque.InsertAfter` | utils/queues/dqueue/deque.go:221-243 | inserts behind a live address |
| `Deque.Deque.InsertBefore` | utils/queues/dqueue/deque.go:245-268 | inserts in front of a live address |
| `Deque.Deque.MoveToBack` | utils/queues/dqueue/deque.go:270-278 | moves a live address to the end, everything else in order |
| `Deque.Deque.MoveToFront` | utils/queues/dqueue/deque.go:280-288 | moves a live address to the front |
| `Deque.Deque.Update` | utils/queues/dqueue/deque.go:290-296 | changes one value in place |
| `Deque.Deque.Range` | utils/queues/dqueue/deque.go:339-347 | visits the values in order until the callback stops |
| `WorkerQueue.Queue.GetJobM` | utils/queues/taskqueue/workerqueue.go:50-71 | on the deque: enqueue, adjust the running count, hand out the first job if a slot is free |
| `WorkerQueue.NextInv` | utils/queues/taskqueue/workerqueue.go:50-88 | every step of Push, job start and job end keeps the scheduler's invariant |
| `WorkerQueue.SchedulerIsFair` | utils/queues/taskqueue/workerqueue.go:50-88 | running jobs equal the count and never exceed the maximum; jobs wait only when all slots are busy; each is handed out once, in push order |
| `WorkerQueue.OneSlotIsSerial` | utils/queues/taskqueue/workerqueue.go:71-88 | with one slot jobs begin in push order and never overlap |
| `WorkerQueue.IdleMeansAllStarted` | utils/queues/taskqueue/workerqueue.go:71-88 | when no goroutine is left every pushed job has been started |
| `Bytes.RoundTrip` | kknet/kkpacket/packet_lfstream.go:106-117 | reading a written field gives the value modulo 256^width |
| `Bytes.WrittenAt` | kknet/kkpacket/packet_lfstream.go:106-117 | byte i of a written number is its digit for that place: rising powers of 256 in little-endian, falling in big-endian order |
| `Bytes.ReadIsSum` | kknet/kkpacket/packet_lfstream.go:88-100 | a number read is the sum of its bytes, each times the power of 256 of its place in that order |
| `Bytes.Inverse` | kknet/kkpacket/packet_lfstream.go:88-117 | writing a read field gives the bytes back |
| `Framing.PackUnpack` | kknet/kkpacket/packet_lfstream.go:158-190 | a message that fits packs into a frame that CheckPacket accepts and that unpacks to it |
| `Framing.PackedAt` | kknet/kkpacket/packet_lfstream.go:158-190 | a frame byte by byte: the message's length in the format's order and width, then the message |
| `Framing.LegalIsPacked` | kknet/kkpacket/packet_lfstream.go:123-139 | the frames CheckPacket accepts are exactly the packings |
| `Framing.Split` | kknet/kkpacket/packet_lfstream.go:199-241 | the loop over positions computes the frame-by-frame parse |
| `Framing.SplitConserves` | kknet/kkpacket/packet_lfstream.go:199-241 | packets and residue concatenate to the input |
| `Framing.SplitIsLegal` | kknet/kkpacket/packet_lfstream.go:199-241 | CheckPacket accepts each packet; the residue holds no complete frame |
| `Framing.SplitStops` | kknet/kkpacket/packet_lfstream.go:199-241 | the error is MaxSize if and only if the residue's header tells of a frame above the maximum; without an error the residue is an unfinished frame |
| `Framing.SplitIsUnique` | kknet/kkpacket/packet_lfstream.go:199-241 | legal frames and a residue without a complete frame are the only way to cut the input |
| `Framing.SplitPacked` | kknet/kkpacket/packet_lfstream.go:158-241 | splitting packed messages gives the frames back |
| `Framing.ParseContinues` | kknet/kkpacket/packet_lfstream.go:199-241 | parsing more input continues the parse of the first part |
| `Framing.SplitAll` | kknet/kkpacket/packet_lfstream.go:249-286 | repeated SplitSR on the same bytes yields the packets, residue and error of Split |
| `PacketSpliter.PacketSpliter.Split` | kknet/kkprocessor/packet_spliter.go:42-80 | one call on the residue buffer refines `Feed`; on error no packet is returned |
| `PacketSpliter.ChunkingIsImmaterial` | kknet/kkprocessor/packet_spliter.go:42-80 | in any chunks: what is delivered followed by what the failing call dropped is the parse of the whole stream, with the same residue and error |
| `PacketSpliter.SomeChunkFails` | kknet/kkprocessor/packet_spliter.go:54-60 | an oversized header anywhere in the stream is met within one particular chunk |
| `PacketSpliter.DeliveredBeforeFailure` | kknet/kkprocessor/packet_spliter.go:54-60 | what is delivered is then exactly the parse of the stream before that chunk, frames of the chunk excluded |
| `PacketSpliter.DeliveredIffFailingChunkHasNoFrame` | kknet/kkprocessor/packet_spliter.go:42-80 | without an oversized header the whole stream is delivered; with one, it is if and only if the failing chunk, behind the residue before it, completes no frame |
| `PacketSpliter.FailingChunkDropsFrames` | kknet/kkprocessor/packet_spliter.go:54-60 | a stream whose chunking does matter: a legal frame before an oversized header |
| `WriteBatch.SentIs` | kknet/kkws/ws_conn.go:256-342 | k buffers sent one after the other put exactly their bytes on the wire, in order, and release exactly them |
| `WriteBatch.SentTwice` | kknet/kkprocessor/write_thread.go:282-312 | a retry after a partial write adds up to one write of both parts |
| `WriteBatch.Window` | kknet/kkws/ws_conn.go:287-311 | once a window's slots are nil, what is left is what was pending behind it |
| `WriteBatch.WindowsCarry` | kknet/kkws/ws_conn.go:275-319 | the messages of a batch carry exactly the buffers' bytes, and all but the last have reached the limit |
| `WriteBatch.ClosedByFirst` | kknet/kkws/ws_conn.go:287-311 | a message is closed by the first buffer with which it reaches the limit |
| `WriteBatch.LeftOpen` | kknet/kkws/ws_conn.go:313-319 | and is sent at the end when no buffer did |
| `WriteBatch.Sender.WriteBatch` | kknet/kkws/ws_conn.go:256-342 | whatever fails, a prefix of the held buffers went out, in order, and it alone was released; the messages written are the first of the batch's windows; it fails exactly when the connection does, and without an error all went out |
| `WriteBatch.Sender.CompactBatch` | kknet/kkprocessor/write_thread.go:314-327 | the held buffers move to the front and keep their order |
| `WriteBatch.Sender.RetryWriteFn` | kknet/kkprocessor/write_thread.go:282-312 | the attempts together send a prefix, and everything on success; it gives up only if no retry is configured, the processor is closing, the last failure is final, or the maximum of attempts has failed, and every earlier failure was worth a retry |
| `WriteBatch.Sender.PopAndWrite` | kknet/kkprocessor/write_thread.go:248-269 | a popped batch is sent whole, or a prefix is sent and the rest released; it fails only after failed sends with a reason not to go on |
| `WriteBatch.Sender.Turn` | kknet/kkprocessor/write_thread.go:229-270 | keeps the books: the wire is the concatenation of the first accepted buffers, each buffer taken off the queue was released once; at the idle and drained exits everything accepted was sent; it fails only after failed sends it could not make good |
| `WriteBatch.Sender.Abort` | kknet/kkprocessor/write_thread.go:216-226 | releases everything left and sends nothing |
| `WriteBatch.Sender.Accept` | kknet/kkprocessor/write_thread.go:91-101 | closed first, then full (a strict queue at its maximum), else appends; a wake-up is due exactly when the queue was empty |
| `WriteBatch.Sender.SendBufferDrop` | kknet/kkprocessor/write_thread.go:91-111 | a buffer is accepted or given back, never both; a full queue gives it back without an error |
| `WriteBatch.Sender.SendBufferRetry` | kknet/kkprocessor/write_thread.go:114-146 | any maximum, over any number of attempts, whatever the other goroutines do between them: it goes on while the maximum is not reached, or for ever without one; when it ends the buffer is the last one accepted or the last one given back; refused as full after exactly the maximum of attempts, accepted at once when there is room |
| `WriteProtocol.StepInv` | kknet/kkprocessor/write_thread.go:91-272 | every interleaved step keeps the protocol invariant |
| `WriteProtocol.RunIsSafe` | kknet/kkprocessor/write_thread.go:91-272 | accepted buffers are, in order, released, in hand or queued; a prefix was sent; a parked loop with work has a wake-up due |
| `WriteProtocol.AfterStop` | kknet/kkprocessor/write_thread.go:171-272 | once Stop has returned, the drained exit has sent all and the aborted exit released all; only a fatal write error leaves buffers queued |
| `WriteProtocol.OnlyWritesSend` | kknet/kkprocessor/write_thread.go:216-270 | over any run exactly the writes send: what is given up or discarded never goes out |
| `WriteProtocol.LeavingSendsNothing` | kknet/kkprocessor/write_thread.go:204-226 | once the loop has seen closeCh, given up or drained nothing more is sent |
| `WriteProtocol.ErrorStopDoesNotFlush` | kknet/kkprocessor/write_thread.go:171-196 | a Stop with an error never waits for a flush but goes on to close closeCh |
| `WriteProtocol.GracefulStopSendsAll` | kknet/kkprocessor/write_thread.go:166-196 | Stop(nil) without timeout and without a fatal error sent everything accepted, including a push that raced with it |
| `WriteProtocol.StopUsesBudget` | kknet/kkprocessor/write_thread.go:171-272 | after Stop was called every step uses up a finite budget |
| `WriteProtocol.StopReturns` | kknet/kkprocessor/write_thread.go:171-196 | and until Stop has returned some step other than the timer or an error is possible and uses budget (Start, where the loop was not started) |
| `WriteProtocol.StopReturnsIffStarted` | kknet/kkprocessor/write_thread.go:71-77 | from any state in which Stop was called: it can return without a later Start if and only if the loop was started, and then needs neither the timer nor an error |
| `WriteProtocol.ReturnedMeansStarted` | kknet/kkprocessor/write_thread.go:71-196 | every run from the beginning in which Stop has returned contains Start |
| `WriteWorker.StepInv` | kknet/kkprocessor/write_worker.go:95-316 | every interleaved step of the worker-queue variant keeps its invariant |
| `WriteWorker.NeverStranded` | kknet/kkprocessor/write_worker.go:162-316 | a non-empty queue always has a job on its way unless a fatal write error broke the chain; after Stop it is empty |
| `WriteWorker.OnlyWritesSend` | kknet/kkprocessor/write_worker.go:217-316 | over any run exactly the writes send: a dropped batch and the final release send nothing |
| `WriteWorker.ErrorStopDoesNotFlush` | kknet/kkprocessor/write_worker.go:172-316 | a Stop with an error sends nothing in its shutdown job and waits for no flush |
| `WriteWorker.AbortedShutdownSendsNothing` | kknet/kkprocessor/write_worker.go:257-316 | after Stop with an error or a flush timeout the shutdown job takes no further batch to the wire |
| `WriteWorker.FatalErrorEndsFlush` | kknet/kkprocessor/write_worker.go:257-316 | a fatal write error during the final flush ends it: nothing is sent after it |
| `WriteWorker.GracefulStopSendsAll` | kknet/kkprocessor/write_worker.go:172-316 | without error, timeout or Stop(err) a prefix is sent, and everything once Stop has returned |
| `WriteWorker.PrefixWithoutFatalError` | kknet/kkprocessor/write_worker.go:217-316 | without a fatal write error a prefix is sent, however and whenever Stop is called |
| `WriteWorker.PrefixIffNoSendAfterLoss` | kknet/kkprocessor/write_worker.go:217-316 | with any errors, for distinct buffers: what was sent is a prefix of what was accepted if and only if no buffer was sent after another had been released unsent |
| `WriteWorker.FatalErrorLeavesGap` | kknet/kkprocessor/write_worker.go:217-255 | a run in which a buffer accepted after a fatal error is sent, so the prefix property needs its condition |
| `WriteWorker.StopReturns` | kknet/kkprocessor/write_worker.go:172-205 | Stop always returns |
| `ReadProtocol.StepInv` | kknet/kkprocessor/read_thread.go:81-275 | every interleaved step of producer, consumer and Stop keeps the invariant |
| `ReadProtocol.RunIsSafe` | kknet/kkprocessor/read_thread.go:98-275 | packets are handed over in the order accepted, none twice, none skipped; a parked consumer with work has a token, a wake or a close pending |
| `ReadProtocol.AfterStop` | kknet/kkprocessor/read_thread.go:79-97 | when Stop has returned and had found the consumer started, everything accepted was handed over |
| `ReadProtocol.StartedThenStopped` | kknet/kkprocessor/read_thread.go:69-97 | so a processor whose Start comes anywhere before Stop's check loses nothing, packets accepted before Start included |
| `ReadProtocol.HandsOverIffStarted` | kknet/kkprocessor/read_thread.go:79-97 | at Stop's check of `started`: every continuation hands everything accepted over before Stop returns if and only if the consumer has started, or nothing is queued and no producer is about to push |
| `ReadProtocol.EarlyStopReturnsWithoutHanding` | kknet/kkprocessor/read_thread.go:81-90 | a run in which Stop precedes Start and a packet is not handed over |
| `ReadProtocol.StopReturns` | kknet/kkprocessor/read_thread.go:81-97 | Stop always returns |
| `HubServer.NewLucencyID` | kkapp/kkactor/actor_id.go:37-49 | an id exists exactly for two valid names |
| `HubServer.HandledInv` | kkapp/kkactor/registry/hubtcp/server.go:152-250 | register, take over and unregister keep the ownership invariant, refused requests included |
| `HubServer.ClosedInv` | kkapp/kkactor/registry/hubtcp/server.go:91-106 | so does a close |
| `HubServer.CloseSparesSuccessors` | kkapp/kkactor/registry/hubtcp/server.go:91-106 | a close removes exactly the entries its connection still owns; an actor taken over stays listed |
| `HubServer.AlwaysConsistent` | kkapp/kkactor/registry/hubtcp/server.go:91-250 | after any events from the empty server: registered-by and owned-by agree, the directory lists exactly the owned actors, owners are authenticated, and listed actors have validated node data |
| `HubServer.RefusalReasons` | kkapp/kkactor/registry/hubtcp/server.go:152-191 | which error a request gets, each if and only if its own cause |
| `HubHistory.AuthedIffLoggedIn` | kkapp/kkactor/registry/hubtcp/server.go:91-143 | over any history a connection is authenticated if and only if it has sent the right password and not closed since |
| `HubHistory.StrangersLeaveNoTrace` | kkapp/kkactor/registry/hubtcp/server.go:91-250 | a connection that never sends the right password leaves the server exactly as if it had never existed |
| `HubHistory.OwnsIffHeld` | kkapp/kkactor/registry/hubtcp/server.go:91-250 | over any history a connection owns an actor if and only if it has registered it, no accepted registration of the actor came later, and it has neither withdrawn it nor closed since |
| `HubHistory.AddressIsRegistered` | kkapp/kkactor/registry/hubtcp/server.go:196-222 | and the directory then lists the address of that registration |
| `HubHistory.NodeDataIsLatest` | kkapp/kkactor/registry/hubtcp/server.go:214-222 | what the server knows of a node is what came with the latest accepted registration of one of its actors |
| `HubHistory.NoNodeDataUnsent` | kkapp/kkactor/registry/hubtcp/server.go:214-222 | and nothing if there was none |
| `HubServer.RemoteActorMgr.RegisterActor` | kkapp/kkactor/registry/actorhub/RemoteActorMgr.go:62-74 | adds or overwrites an entry with valid names |
| `HubServer.RemoteActorMgr.GetAllActorsOfNode` | kkapp/kkactor/registry/actorhub/RemoteActorMgr.go:97-107 | lists exactly the node's actors, each once |
| `HubServer.ServerHandler.OnAuthReq` | kkapp/kkactor/registry/hubtcp/server.go:128-143 | authenticates the connection exactly on the right password, and changes nothing else |
| `HubServer.ServerHandler.OnClose` | kkapp/kkactor/registry/hubtcp/server.go:91-106 | the loop over the registrations refines the specification's close |
| `HubServer.ServerHandler.OnRegisterActorReq` | kkapp/kkactor/registry/hubtcp/server.go:152-250 | each refusal in the order of the checks, without effect; otherwise the new owner and address, or the entry gone if this connection owns it |
| `HubServer.ServerHandler.OnFindActorReq` | kkapp/kkactor/registry/hubtcp/server.go:264-294 | succeeds exactly for a listed actor, with usable data of its node |
| `HubServer.ServerHandler.OnGetAllActorsOfNodeReq` | kkapp/kkactor/registry/hubtcp/server.go:304-342 | lists the node's actors, each once, with exactly the data known of the node |
| `HubClient.HubClient.ReqRegisterActor` | kkapp/kkactor/registry/hubtcp/client.go:114-132 | an actor is owned exactly when its request was sent |
| `HubClient.HubClient.ReqUnregisterActor` | kkapp/kkactor/registry/hubtcp/client.go:134-152 | and no longer owned when its withdrawal was sent |
| `HubClient.HubClient.OnClose` | kkapp/kkactor/registry/hubtcp/client.go:272-275 | forgets authentication and requests, keeps the owned actors |
| `HubClient.HubClient.OnAuthResp` | kkapp/kkactor/registry/hubtcp/client.go:284-290 | on success re-registers every owned actor, each once |
| `HubClient.HubClient.OnRegisterActorResp` | kkapp/kkactor/registry/hubtcp/client.go:319-323 | settles a request on success only |
| `HubClient.HubClient.OnRetryTimer` | kkapp/kkactor/registry/hubtcp/client.go:324-343 | repeats the request if and only if it is still recorded and the client is authenticated and connected |
| `HubConvergence.StepInv` | kkapp/kkactor/registry/hubtcp/client.go:114-290 | every event of client, wire and server keeps the convergence invariant |
| `HubConvergence.Convergence` | kkapp/kkactor/registry/hubtcp/client.go:226-290 | once settled, the current connection owns exactly the client's acceptable actors minus those a late registration of an old connection stole, so exactly the wanted ones if and only if none was stolen |
| `HubConvergence.OrderlyConvergence` | kkapp/kkactor/registry/hubtcp/client.go:226-290 | whenever the old connection's close arrives: if no registration of a superseded connection is handled while the current one has that actor, the current connection owns exactly the client's actors |
| `HubConvergence.OnlyConnectionLists` | kkapp/kkactor/registry/hubtcp/server.go:91-106 | once the other connections are closed the directory lists nothing else |
| `HubConvergence.LateRegistrationSteals` | kkapp/kkactor/registry/hubtcp/server.go:196-222 | what goes wrong otherwise: the late registration takes the actor and the old close then drops it |
| `HubConvergence.ConvergenceCanFail` | kkapp/kkactor/registry/hubtcp/server.go:91-222 | a run from the start that ends that way |
| `RelayHub.BoundInv` | kkapp/kkactor/transport/atransrelay/hub.go:148-161 | registering keeps every entry pointing at a session that answers to it if and only if the session does not still serve under another name |
| `RelayHub.Hub.Register` | kkapp/kkactor/transport/atransrelay/hub.go:148-161 | the session takes the name over, from whatever name it had, and the old connection is closed; the table stays consistent exactly under that condition |
| `RelayHub.AlwaysConsistent` | kkapp/kkactor/transport/atransrelay/hub.go:112-161 | so after any run from the empty hub in which no session takes a second name while it serves a first, every entry points at an open session that answers to it |
| `RelayHub.TableIsHistory` | kkapp/kkactor/transport/atransrelay/hub.go:112-161 | and knows a name if and only if the last session that registered it is still open, which it then leads to |
| `RelayHub.Hub.OnClose` | kkapp/kkactor/transport/atransrelay/hub.go:112-146 | removes the session, and its entry only if it still points at it |
| `RelayHub.CloseSparesSuccessors` | kkapp/kkactor/transport/atransrelay/hub.go:137-146 | unregister removes exactly the entry that points at this session |
| `RelayHub.TakeoverSurvives` | kkapp/kkactor/transport/atransrelay/hub.go:137-161 | a session keeps its name through any late closes of earlier sessions, whatever names the sessions take |
| `Fifo.TakenBounds` | utils/queues/bbqueue/bbqueue.go:80-132 | PopMany takes at least one item, at most what was asked for and fits, within the byte limit unless it is a single item, and stops only for count, limit reached or next item too big |
| `Fifo.TakenIsLeast` | utils/queues/bbqueue/bbqueue.go:80-132 | exactly: it takes the least positive number of items at which it has a reason to stop |
| `BBQueue.BBQueue.Push` | utils/queues/bbqueue/bbqueue.go:48-59 | appends, growing a full lenient ring, refusing on a full strict one |
| `BBQueue.BBQueue.Pop` | utils/queues/bbqueue/bbqueue.go:61-78 | takes the first item |
| `BBQueue.BBQueue.PopMany` | utils/queues/bbqueue/bbqueue.go:80-132 | takes exactly the specified count off the front |
| `BBQueue.BBQueue.Grow` | utils/queues/bbqueue/bbqueue.go:134-152 | doubles the ring and keeps the contents across the wrap |
| `BBQueue.ReceivedIsPrefix` | utils/queues/bbqueue/bbqueue.go:113-120 | without nil items the receiver gets the same prefix from both queues |
| `NNQueue.ChainSnoc` | utils/queues/bbqueue/nnqueue.go:107-118 | linking a new last node extends the chain |
| `NNQueue.NNQueue.Push` | utils/queues/bbqueue/nnqueue.go:107-118 | appends through a recycled or new node |
| `NNQueue.NNQueue.Pop` | utils/queues/bbqueue/nnqueue.go:120-133 | takes the first item and recycles its node |
| `NNQueue.NNQueue.PopMany` | utils/queues/bbqueue/nnqueue.go:135-192 | takes exactly the specified count, detaching nodes while the sentinel still points at the first |
| `RBQueue.Queue.Push` | utils/queues/rbqueue/queue.go:36-60 | appends, across wrap-around and growth with one slot kept free |
| `RBQueue.Queue.Pop` | utils/queues/rbqueue/queue.go:63-77 | takes the first element |
| `RBQueue.Queue.PopMany` | utils/queues/rbqueue/queue.go:81-111 | takes up to the count into the given or a new buffer |
| `ByteRing.GrownTakesWrite` | utils/buffers/kkring/ring_buffer.go:487-522 | growing for a write makes enough room |
| `ByteRing.CeilIsLeast` | utils/buffers/kkring/ring_buffer.go:487-492 | a new ring's size is a power of two and the next smaller one does not do |
| `ByteRing.GrownIsTight` | utils/buffers/kkring/ring_buffer.go:487-510 | the new size holds what is asked for and wastes little: the default or the least power of two for a new ring, the double below the threshold, at most a quarter more above it, the request itself beyond twice the size |
| `ByteRing.WriteByteHasRoom` | utils/buffers/kkring/ring_buffer.go:253-267 | WriteByte has room if and only if the ring is not full or is smaller than 4096 bytes |
| `ByteRing.Buffer.Write` | utils/buffers/kkring/ring_buffer.go:217-251 | appends all bytes, growing and wrapping as needed |
| `ByteRing.Buffer.WriteByte` | utils/buffers/kkring/ring_buffer.go:254-267 | appends one byte wherever there is room |
| `ByteRing.Buffer.Read` | utils/buffers/kkring/ring_buffer.go:151-192 | moves the oldest bytes into the caller's slice |
| `ByteRing.Buffer.ReadByte` | utils/buffers/kkring/ring_buffer.go:195-209 | takes the oldest byte |
| `ByteRing.Buffer.Peek` | utils/buffers/kkring/ring_buffer.go:71-123 | shows the oldest bytes in one or two pieces |
| `ByteRing.Buffer.Discard` | utils/buffers/kkring/ring_buffer.go:126-138 | skips the oldest bytes |
| `ByteRing.Buffer.Bytes` | utils/buffers/kkring/ring_buffer.go:317-340 | copies everything |
| `ByteRing.Buffer.Grow` | utils/buffers/kkring/ring_buffer.go:487-522 | keeps the contents and has the computed size |
| `PendingTable.PendingMap.AddCallback` | remotes/kkrpc/pending.go:102-120 | accepts exactly while open and below the maximum; the counter counts the waiting requests and the timeouts so far |
| `PendingTable.PendingMap.AddCh` | remotes/kkrpc/pending.go:57-76 | the same for a blocking caller |
| `PendingTable.PendingMap.DelCh` | remotes/kkrpc/pending.go:79-94 | removes a waiting channel and gives its place back |
| `PendingTable.PendingMap.TakeCallback` | remotes/kkrpc/pending.go:134-141 | claims a callback at most once and does not give its place back |
| `PendingTable.PendingMap.Deliver` | remotes/kkrpc/pending.go:179-200 | a response reaches the one that waits for it |
| `PendingTable.PendingMap.CloseAll` | remotes/kkrpc/pending.go:143-176 | closes every channel and claims every callback, each once, over all shards |
| `PendingRace.CallbackRunsOnce` | remotes/kkrpc/invoker_reqrsp.go:204-294 | a callback that was added and whose send did not fail runs at most once, and has run exactly once when it is neither waiting nor about to run |
| `PendingRace.ChannelEndsOnce` | remotes/kkrpc/pending.go:57-94 | an added channel is in exactly one of: waiting, answered, taken back, closed by closeAll |
| `PendingRace.CloseLeavesNoneWaiting` | remotes/kkrpc/pending.go:143-176 | after closeAll every added callback was called or is about to be, and no channel waits |
| `PendingRace.LiveWithinMaximum` | remotes/kkrpc/pending.go:57-141 | until closed the counter is the waiting callbacks and channels, the places reserved or about to be given back, and the timeouts; it, and so the live requests of both kinds, is at most the maximum plus p - 1 when at most p callers were between its load and its add at once |
| `PendingRace.CounterIsTally` | remotes/kkrpc/pending.go:57-200 | over any run the counter is the reservations less the places given back, from 0 again when closeAll ends |
| `PendingRace.OverlapAttainsBound` | remotes/kkrpc/pending.go:106-109 | that bound is reached, for every positive maximum and every p |
| `PendingRace.OverlapExceedsMaximum` | remotes/kkrpc/pending.go:106-109 | so two overlapping callers exceed the maximum |
| `PendingRace.TimeoutsExhaust` | remotes/kkrpc/pending.go:133-141 | when the timeouts reach the maximum nothing is accepted again |
| `PendingRace.FailedSendRuns` | remotes/kkrpc/invoker_reqrsp.go:262-270 | a callback whose send failed runs, once it has settled, exactly once if delCallback still found it and exactly twice otherwise |
| `PendingRace.FailedSendRunsTwice` | remotes/kkrpc/invoker_reqrsp.go:262-270 | a send that fails after closeAll claimed the callback runs it twice |
| `Membership.AgreeWithout` | remotes/kkdiscovery/member_mgr.go:57-64 | cutting a member out of its list keeps index and types in agreement |
| `Membership.AgreeWith` | remotes/kkdiscovery/member_mgr.go:52-65 | appending a member to a list does |
| `Membership.CountIs` | remotes/kkdiscovery/member_mgr.go:159-164 | the length of a type's list is the number of members of that type |
| `Membership.MemberMgr.AddMember` | remotes/kkdiscovery/member_mgr.go:39-87 | adds or overwrites a member, moving it between the type lists when its type changes |
| `Membership.MemberMgr.RemoveMember` | remotes/kkdiscovery/member_mgr.go:90-114 | removes it from the map and from its list |
| `Membership.MemberMgr.CountOfType` | remotes/kkdiscovery/member_mgr.go:159-164 | counts exactly the members of the type |
| `Membership.Discovery.AddMemberInfo` | remotes/kkdiscovery/dnats/nats_discovery.go:108-122 | an uninterrupted call keeps the update times' keys equal to the members and added minus removed equal to their number |
| `Membership.Discovery.RemoveMember` | remotes/kkdiscovery/dnats/nats_discovery.go:125-140 | keeps both; the empty node id is never removed |
| `Membership.Discovery.CheckMemberTimeout` | remotes/kkdiscovery/dnats/nats_discovery.go:483-499 | an uninterrupted sweep removes exactly the members not heard of for longer than the timeout |
| `MembershipRace.CountsAreMembers` | remotes/kkdiscovery/dnats/nats_discovery.go:107-140 | in any interleaving of heartbeats, removals and sweeps: once everything owed is counted, added minus removed is the number of members |
| `MembershipRace.CollectsSilent` | remotes/kkdiscovery/dnats/nats_discovery.go:483-492 | the sweep's look finds exactly the members silent for longer than the timeout |
| `MembershipRace.AgreeIffSameOrder` | remotes/kkdiscovery/dnats/nats_discovery.go:107-140 | over any run: member list and update times agree about an id if and only if the last first half and the last second half concerning it are both of a heartbeat or both of a removal |
| `MembershipRace.ApartAgrees` | remotes/kkdiscovery/dnats/nats_discovery.go:107-140 | they agree whenever no call for the id is under way, if its heartbeats and removals never overlapped |
| `MembershipRace.OrphanTime` | remotes/kkdiscovery/dnats/nats_discovery.go:107-140 | a heartbeat around a removal leaves an update time without a member |
| `MembershipRace.OrphanTimeStays` | remotes/kkdiscovery/dnats/nats_discovery.go:125-140 | no sweep or removal ever takes that time away; only a heartbeat of the id can change it |
| `MembershipRace.TimelessMember` | remotes/kkdiscovery/dnats/nats_discovery.go:107-140 | a removal around a heartbeat leaves a member without an update time |
| `MembershipRace.TimelessMemberStays` | remotes/kkdiscovery/dnats/nats_discovery.go:483-499 | no sweep ever removes that member, however long it is silent |
| `MembershipRace.FreshMemberRemoved` | remotes/kkdiscovery/dnats/nats_discovery.go:483-499 | for every timeout: a member heard of between the sweep's look and its removal is removed all the same |
| `Pools.IndexIsLeast` | utils/buffers/byteslice/byteslice.go:162-164 | the class of a request is the least power of two that holds it |
| `Pools.ReturnedFits` | utils/buffers/byteslice/byteslice.go:148-151 | a buffer is returned to the greatest class it is large enough for |
| `Pools.SlicePool.Get` | utils/buffers/byteslice/byteslice.go:122-139 | the length is as asked; when the runtime's pool offers one, an array comes out of exactly the request's class, which loses it, and the unchecked reslice stays inside it; otherwise the pool is unchanged |
| `Pools.SlicePool.Put` | utils/buffers/byteslice/byteslice.go:142-160 | adds to exactly the class the capacity rounds down to, unless that is full or the size is not pooled |
| `Pools.BufferPool.GetWithCap` | utils/buffers/kkbuffer/bspool.go:40-65 | the capacity is at least as asked; a pooled buffer of the request's class goes to one holder when it is offered, and otherwise a new one is made |
| `Pools.BufferPool.Put` | utils/buffers/kkbuffer/bspool.go:67-88 | a first Put of a pooled size enters the class the capacity rounds down to, unless the pool is full; a second Put has no effect |
| `Pools.BinaryCeil` | utils/buffers/kkbuffer/comm.go:25-34 | the least power of two not below v for 1 <= v <= 2^31, and 0 for 0 and beyond |
| `Pools.CeilIsLeast` | utils/buffers/kkbuffer/comm.go:25-34 | the same on numbers, as the pool uses it: the least power of two not below n for 1 <= n <= 2^31, and 0 otherwise |
| `Pools.LoopEnds` | utils/buffers/kkbuffer/bbpool.go:25-43 | the constructor's loop comes to an end if and only if the lower bound is from 1 to 2^31 |
| `Pools.PowerPool.constructor` | utils/buffers/kkbuffer/bbpool.go:25-43 | where it ends, the shards are exactly the powers of two between the two bounds |
| `Pools.PowerPool.GetWithCap` | utils/buffers/kkbuffer/bbpool.go:47-60 | exactly the wanted size from its shard, which loses a buffer when it has one to offer; at least n bytes for every n up to 2^31; beyond, if and only if no shard answers; a negative n gets the smallest size if that is a shard, and panics exactly otherwise |
| `Codec.PartRoundTrip` | kknet/kkpacket/head_part.go:25-120 | a part gives a value back if and only if the value fits it |
| `Codec.PacketHead.SetNames` | kknet/kkpacket/packet_head.go:60-73 | names every part, or refuses and changes nothing |
| `Codec.PacketHead.Marshal` | kknet/kkpacket/packet_head.go:83-98 | writes the parts one after the other and nothing else |
| `Codec.PacketHead.Unmarshal` | kknet/kkpacket/packet_head.go:100-115 | reads each part at its offset |
| `Codec.PacketHead.UnmarshalTo` | kknet/kkpacket/packet_head.go:117-134 | reads them into the caller's list, or a new one when it is too short |
| `Codec.PacketHead.ReadValueByName` | kknet/kkpacket/packet_head.go:136-147 | reads the named part at its offset, of bytes that reach as far as its end |
| `Codec.PacketHead.HeadRoundTrip` | kknet/kkpacket/packet_head.go:83-147 | a value that fits its part is read back from a written head |
| `Codec.MsgRouter.Register` | kknet/kkpacket/router.go:56-85 | an id keeps its first type; any history keeps every registered type's id leading back to it |
| `Codec.MsgRouter.GetMsgID` | kknet/kkpacket/router.go:87-104 | 0 exactly for an unregistered type; otherwise the id names the type |
| `Codec.Packer.EncodeStream` | kknet/kkpacket/codec.go:18-56 | the packet is size field, head, body; each error has its cause |
| `Codec.Packer.DecodePacket` | kknet/kkpacket/codec.go:81-104 | the decoded value or the first error, in the order of the checks: too short, no msgID part, an id nobody registered, a body its decoder rejects, each exactly then |
| `Codec.Packer.DecodedById` | kknet/kkpacket/codec.go:81-104 | a packet made of any id that fits and any body decodes as the id's type says, and fails exactly on an unregistered id or a rejected body |
| `Codec.Packer.DecodeUndoesEncode` | kknet/kkpacket/codec.go:18-104 | for any registration history decoding undoes encoding, with a one-part msgID head wide enough for the id |
| `Codec.Packer.CheckAccepts` | kknet/kkpacket/packet_lfstream.go:123-139 | the frame check accepts an encoded packet if and only if it fits the maximum size |
| `Codec.NarrowHead` | kknet/kkpacket/head_part.go:25-57 | a part too narrow for the id fails, or reads another id |

## Left out

- Fixed-width arithmetic: int64 times and counters and 32-bit ids are unbounded integers, except where a
  width decides a result (length fields, head parts, message ids, `binaryCeil`, the pools' 32-bit sizes).
- Goroutine scheduling and the Go memory model: steps interleave in any order, each step is atomic.
- Timing wheel: taking a bucket, advancing the clock and flushing it are one step with respect to
  `AfterFunc` and `Stop`, because a finer interleaving breaks the reuse of buckets; `wheelSize` is at
  least 2, as `add` recurses without end on 1; `ScheduleFunc` and the task bodies.
- Timing wheel lists: a bucket's `container/list` is a sequence.
- WriteBatch.Sender.Turn: how many buffers PopMany returns is any number from 1 to 32; `Fifo.TakenBounds`
  says which one the queues choose.
- WriteBatch.Conn.SendBytes: is all or nothing, which holds for the websocket connection; the TLS
  connection's `writeAll` can put part of a buffer on the wire.
- WriteBatch.Sender.RetryWriteFn: while it sleeps the others only set the closing flag; buffers that they
  push meanwhile wait behind the batch, which `WriteProtocol` interleaves.
- WriteBatch.Sender.SendBufferRetry: the length of the sleep between two attempts.
- WriteProtocol and WriteWorker: a full queue (dropped or retried before it is accepted), the sleep
  between retries, statistics, the callbacks on errors and timeouts.
- ReadProtocol: the callback on a full queue; the copy of a packet into its own buffer.
- PacketSpliter: the residue buffer is a value, so returned packets do not alias it; in the source they
  do until the buffer is reused, and correctness rests on the pool handing back another array.
- HubServer: a request and the close of its own connection do not overlap, and the check of its
  authentication is one step with its handling.
- HubConvergence: one client; its calls are atomic, so a withdrawal that races with the re-registration
  loop is not covered; a connection that is up loses no message, which a write queue in drop mode does.
- HubConvergence.Reply: the client's own cache of other nodes' actors, filled by lookup answers.
- RelayHub: the relaying of frames between sessions.
- Deque.Deque.Reset: a deque without even the unused slot 0, as a zero-value deque before its first
  insertion is, which Reset cannot reslice.
- Deque: operations on addresses that are not live, Clone.
- BBQueue: shrinking, which is switched off; the panic on an empty receiver is a precondition.
- NNQueue: the process-wide node pool hands out blank nodes, which a new node stands for.
- RBQueue.Queue.constructor: an initial size of 0, on which Push divides by zero.
- ByteRing: ReadFrom and WriteTo, and the allocator behind grow.
- PendingTable: the reply channels' recycling in `Invoke`; each call is one step, which `PendingRace` takes apart;
  the statistics.
- PendingRace: frames other than responses, which the receiver does not deliver.
- Membership.Discovery: its methods run uninterrupted; their critical sections interleave in
  `MembershipRace`, where a member is its id and the type lists do not matter.
- Membership: listeners, logging, and the NATS side of the discovery.
- Pools.PowerPool.constructor: a lower bound of 0 or beyond 2^31, on which the source's loop never ends
  (`Pools.LoopEnds`).
- Pools: whether the runtime's pool still offers a buffer, and whether the pools' byte totals and counts
  are above their maximum, are parameters; `Get` of the default size; `BinaryCeil` is proved on 32-bit
  words, and `PowerPool` uses the same least power of two as a number.
- Codec.PacketHead.ReadValueByName: bytes that end before the named part does, on which the source's slice
  expression panics.
- Codec: message bodies are encoded by any codec that its decoder undoes; reflection types are opaque;
  routes are recorded but not used.
- The rest of the repository (gateways, configuration, logging, metrics, text formats, generated code,
  the NATS, gnet and websocket adapters) would add foreign calls or easy members.
