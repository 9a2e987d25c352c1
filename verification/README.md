# mineNet: scheduler, wire codec and connection lifecycle

This project models the core of the mineNet game server framework and proves
what it promises over every input, every run or every interleaving. Each file
is one layer.

| file | what it models |
|---|---|
| TaskHeap.dfy | the task slice of `common/scheduler.go` in an array, and the container/heap algorithms over it |
| SchedulerModel.dfy | the scheduler as a step system: clients, run loop, workers, clock |
| SchedulerRuns.dfy | bounded wait and stopping over whole runs |
| SchedulerOverlap.dfy | mutual exclusion and spacing of one id's executions, and exactly when a removal breaks them |
| Scheduler.dfy | the Scheduler class; each method performs a step of the step system |
| Bytes.dfy, Cfb.dfy, Reader.dfy | big-endian integers, cipher feedback over any block function, a stream read in arbitrary pieces |
| Packet.dfy | the 26-byte header, the codec class and what Decode makes of any bytes |
| Stream.dfy | round trips in both directions, cut-off streams, arbitrary input |
| Pipeline.dfy | concurrent Send calls, the bounded queue, the writer and the closers as a step system; end-to-end delivery |
| Conn.dfy | the Connection class: Send, Close, one pass of the write loop, the read loop |
| Cleanup.dfy | what a cleanup pass leaves, for every order of the map |
| Pool.dfy | the ConnPool class; each method does what Lifecycle does to its pool |
| Lifecycle.dfy | accept loop, monitors, cleanup, shutdown and Close calls racing over the same connections |
| LifecycleStretches.dfy | Close calls and visits that run to their end, as stretches of steps |
| LifecycleProgress.dfy | the steps owed run out, and then no lock is held and no closed connection is in the pool |
| LifecycleShutdown.dfy | what can still be open after Stop, exactly |
| LifecyclePass.dfy | a pass of the ConnPool class is a stretch of Lifecycle's steps |
| Bounds.dfy | larger and smaller of two numbers, sizes of sets, sums over maps |
| Heartbeat.dfy | the check loop and the ping loop in time |

Where one thread owns the state (the heap, the codec, the pool under its lock,
one goroutine's pass) the model is a class with the source's fields and loops,
proved against a specification function. Where goroutines race, the model is a
step system whose steps are the atomic actions of the source, and the results
are about every run.

## How the source is read

* `select` takes any ready case: Send may enqueue, and the writer may still
  dequeue, after `closeChan` is closed.
* The queue holds 1024 packets, the literal in `NewConnection`. The configuration
  also names `SendQueueSize`, `RecvQueueSize`, `MaxMessageSize` and read and write
  timeouts; the code never reads them, and the model follows the code.
* `Encode` overwrites the number `Send` assigned, counts even when encoding
  fails, and checks neither size nor version; `Decode` checks both. The exact
  condition for a round trip is `FrameRoundTrip`.
* `TCPServer.Stop` comments that it waits for existing connections; the code
  closes them at once, and the model follows the code.
* RemoveTask does not see running tasks. What this breaks, and exactly when, is
  `PartitionedThroughout` for the whole scheduler, `OrphanedExactly` and
  `OverlapExactly` for one id; `OverlapIsReachable` and `ZombieIsReachable` give
  runs from the start.
* With an entry that must go, how many connections a cleanup pass leaves can
  depend on the order of the map: `OrderMattersExactly` says when.
* gzip and AES are parameters: a compressor that may fail, assumed lossless when
  it does not (`Config.Lossless`), and an arbitrary function on 16-byte blocks.
  A key of a size AES rejects is an error, as in the source; the initialization
  vector has 16 bytes, which crypto/cipher demands of its caller.
* Decompression may itself report the end of its input as io.EOF; then `Decode`
  does too, for a complete frame. `EofExactly` names that third case.
* Task, connection and call identities are unbounded; times and intervals are
  integers of nanoseconds; the clock never goes back. The results about
  numbering and about frames treat 64-bit and 32-bit wrap-around exactly.

## Model

| member | source | states |
|---|---|---|
| `TaskQueue.TaskHeap.Less` | common/scheduler.go:28-30 | true exactly when the first task is scheduled strictly before the second |
| `TaskQueue.TaskHeap.Swap` | common/scheduler.go:32-34 | exchanges two entries in place and touches no other |
| `TaskQueue.TaskHeap.Push` | common/scheduler.go:36-38 | appends one task to the slice, in place or into a larger copy |
| `TaskQueue.TaskHeap.Pop` | common/scheduler.go:40-46 | removes and returns the last entry of the slice |
| `TaskQueue.RootIsEarliest` | common/scheduler.go:138 | heap order between parents and children makes the root no later than any entry |
| `TaskQueue.TaskHeap.Up` | common/scheduler.go:78 | restores heap order after one entry became earlier; contents unchanged as a multiset |
| `TaskQueue.TaskHeap.Down` | common/scheduler.go:138 | restores heap order below one position within a prefix; contents of the prefix and the rest of the slice unchanged |
| `TaskQueue.TaskHeap.Init` | common/scheduler.go:95 | turns an arbitrary slice into heap order with the same contents |
| `TaskQueue.TaskHeap.HeapPush` | common/scheduler.go:78 | adds exactly one entry to the multiset and keeps heap order |
| `TaskQueue.TaskHeap.HeapPop` | common/scheduler.go:138 | removes exactly one entry, one that is no later than any other, and keeps heap order |
| `SchedulerClass.Scheduler.constructor` | common/scheduler.go:58-66 | a new scheduler is the initial state of the step system |
| `SchedulerClass.Scheduler.AddTask` | common/scheduler.go:69-79 | registers and queues exactly this task, as the registration step; a known id changes nothing |
| `SchedulerClass.Scheduler.OtherTasks` | common/scheduler.go:88-93 | the filtering loop keeps exactly the entries with another id |
| `SchedulerClass.Scheduler.RemoveTask` | common/scheduler.go:82-96 | performs the removal step: every entry with the id goes, all others stay, heap order is rebuilt, running tasks are not touched |
| `SchedulerClass.Scheduler.Stop` | common/scheduler.go:107-112 | performs the stop step |
| `SchedulerClass.Scheduler.Iterate` | common/scheduler.go:131-191 | an iteration over the array heap performs an idle, not-due or dispatch step: it starts a task that is due and no later than any queued one, or leaves the multiset unchanged with every entry later than now |
| `SchedulerClass.Scheduler.WorkerDone` | common/scheduler.go:169-188 | performs the completion step: a repeat task is queued again for exactly now plus its interval and stays registered, a one-time task is unregistered |
| `SchedulerModel.AllKnownStep` | common/scheduler.go:69-191 | every step keeps each registered id queued or running, even when RemoveTask names a running id |
| `SchedulerModel.AlwaysAccounted` | common/scheduler.go:69-191 | in every run each registered id is queued or running, and accepted registrations equal queued plus running plus completed one-time plus dropped |
| `SchedulerModel.PartitionedStep` | common/scheduler.go:69-191 | every step that does not remove a running id keeps queued and running ids distinct, disjoint, equal to the registered ids, with matching repetition and interval |
| `SchedulerModel.AlwaysPartitioned` | common/scheduler.go:69-191 | up to the first removal of a running id, every state of a run is partitioned |
| `SchedulerModel.RemoveKeepsPartition` | common/scheduler.go:82-96 | from a partitioned state RemoveTask keeps the partition if and only if the id is not being executed |
| `SchedulerModel.PartitionedThroughout` | common/scheduler.go:69-191 | a run is partitioned throughout if and only if no RemoveTask in it names an id being executed |
| `SchedulerModel.IdleIteration` | common/scheduler.go:132-147 | an iteration that dispatches nothing changes no task and shows that no queued task is due |
| `SchedulerRuns.WaitStep` | common/scheduler.go:131-191 | in one step a dispatch uses up one place ahead of a waiting task, only an earlier arrival creates one, and only a removal takes any away besides |
| `SchedulerRuns.BoundedWait` | common/scheduler.go:125-192 | while a due task waits no iteration is idle, and dispatches plus places still ahead are at most places ahead at the start plus earlier arrivals since, exactly as many without removals |
| `SchedulerRuns.DueTaskIsServed` | common/scheduler.go:125-192 | more iterations than places ahead plus earlier arrivals force the dispatch or removal of the due task |
| `SchedulerRuns.OnlyAddsOvertake` | common/scheduler.go:172-180 | when the repeat tasks that complete have positive intervals only registrations scheduled no later go ahead of a due task |
| `SchedulerRuns.StopBound` | common/scheduler.go:125-130 | after a stop the loop iterates at most once more, and only if it was already past its select |
| `SchedulerOverlap.SoloStep` | common/scheduler.go:69-191 | every step that does not remove this id while it runs keeps it to at most one task, queued or running, and then registered |
| `SchedulerOverlap.NoOverlap` | common/scheduler.go:156-189 | between two dispatches of one id lies the completion of the first, unless this id was removed before while running; removals of other ids and later ones do not matter |
| `SchedulerOverlap.RepeatSpacing` | common/scheduler.go:172-180 | the first dispatch of a repeat task after its completion is the one queued for completion plus interval, no earlier, unless this id was removed before while running or in between |
| `SchedulerOverlap.RepeatIsServed` | common/scheduler.go:131-180 | from one interval after a completion on, while the rescheduled task waits, no iteration of the loop is idle |
| `SchedulerOverlap.OrphanedExactly` | common/scheduler.go:82-96 | in any run a task of this id is at some time live without a registration if and only if RemoveTask named the id while it was being executed |
| `SchedulerOverlap.OverlapExactly` | common/scheduler.go:82-191 | from every state, removing an id once can be followed by a second execution of it beside the first if and only if the id is being executed and the loop can still dispatch |
| `SchedulerOverlap.OverlapIsReachable` | common/scheduler.go:69-191 | for every task a run from the start ends with it being executed twice at once |
| `SchedulerOverlap.ZombieIsReachable` | common/scheduler.go:82-180 | for every repeat task a run from the start ends with it queued and not registered |
| `Bytes.XorUndo` | network/packet.go:233 | exclusive or with the same byte undoes itself |
| `Bytes.XorBit` | network/packet.go:233 | every bit of the result is set exactly where the two operands differ |
| `Bytes.ValueOfBigEndian` | network/packet.go:137-141 | reading back n big-endian bytes gives the number modulo the width |
| `Bytes.BigEndianOfValue` | network/packet.go:153-175 | writing back what was read gives the same bytes, and the value is below the width |
| `Bytes.BigEndianAt` | network/packet.go:137-141 | byte k of n counts units of 256 to the power n - 1 - k: most significant first |
| `Bytes.Put` | network/packet.go:137-141 | overwrites exactly the n bytes at a position with the big-endian form |
| `Cfb.DecryptUndoesEncrypt` | network/packet.go:225-250 | for any block function, 16-byte IV and length, decrypting an encryption gives the plaintext |
| `Cfb.EncryptUndoesDecrypt` | network/packet.go:225-250 | and encrypting a decryption gives the ciphertext |
| `Cfb.EncryptIsStandard` | network/packet.go:231-233 | each output byte is the input byte xor the encrypted previous ciphertext block (the IV at first), as section 6.3 of NIST SP 800-38A defines it |
| `Cfb.XorKeyStream` | network/packet.go:231-233 | the in-place block loop fills the destination with exactly the feedback stream, partial last block included |
| `Readers.ReadFull` | network/packet.go:149-164 | fills the buffer with the next bytes of the stream, or reports a clean end, a cut-short end or another read error, whatever pieces the reads return |
| `Packets.CountIsModulo` | network/packet.go:114 | after n increments the counter holds n modulo 2^64 |
| `Packets.TwosComplement` | network/packet.go:141 | the conversions between int64 and uint64 keep the number modulo 2^64 and undo each other |
| `Packets.WrapExactly` | network/packet.go:117-131 | wrapping succeeds if and only if compression, when on, succeeds and the key, when encrypting, has 16, 24 or 32 bytes; the error otherwise; the payload decrypts to what the compressor gave |
| `Packets.UnwrapExactly` | network/packet.go:181-194 | what unwrapping makes of every payload, given as what was encrypted into it, with the key error and the decompression outcome |
| `Packets.UnwrapUndoesWrap` | network/packet.go:117-194 | decrypt-then-decompress undoes compress-then-encrypt, given a lossless compressor |
| `Packets.WrapUndoesUnwrap` | network/packet.go:117-194 | without compression wrapping undoes unwrapping |
| `Packets.LayoutParts` | network/packet.go:133-142 | a byte string is a frame layout if and only if each field sits at its offset |
| `Packets.EncodesExactly` | network/packet.go:112-145 | encoding fails exactly when wrapping does, with its error, whatever the size; otherwise every field sits at its offset, most significant byte first |
| `Packets.RejectsExactly` | network/packet.go:147-204 | every rejection by its error and the bytes it consumes: stream ending in or after the length field, length below 26 or above 10485760, version above 1, payload that cannot be unwrapped |
| `Packets.PacketCodec.EncryptData` | network/packet.go:225-236 | encrypts with a fresh stream from the IV, or rejects the key size |
| `Packets.PacketCodec.DecryptData` | network/packet.go:239-250 | decrypts with a fresh stream from the IV, or rejects the key size |
| `Packets.PacketCodec.FillFrame` | network/packet.go:133-142 | the buffer filled field by field is the frame layout |
| `Packets.PacketCodec.Encode` | network/packet.go:112-145 | increments the codec counter, overwrites the packet number with it even on failure, and returns the frame or the transformation error |
| `Packets.PacketCodec.ParseBody` | network/packet.go:166-204 | checks the version, reads the fields, decrypts and decompresses as the specification of the body says |
| `Packets.PacketCodec.Decode` | network/packet.go:147-205 | result and bytes consumed depend only on the bytes of the stream and how it ends, for every way the reads are chunked, in success and in each error case |
| `Streams.FrameFields` | network/packet.go:133-142 | the fields read back from a frame; the length field holds the length modulo 2^32 |
| `Streams.DecodeOfFrame` | network/packet.go:147-205 | decoding any frame under 2^32 bytes followed by anything: too large, unsupported version, or the same packet with exactly the rest left |
| `Streams.FrameRoundTrip` | network/packet.go:112-205 | for frames of any size, Decode returns the same packet leaving exactly what follows if and only if the version is at most 1 and the frame at most MaxPacketSize |
| `Streams.NumberedConsecutively` | network/packet.go:114 | the k-th packet of a stream carries the counter plus k plus 1 modulo 2^64 |
| `Streams.StreamRoundTrip` | network/packet.go:112-205 | decoding the concatenated encodings of any list of deliverable packets returns the list, numbered consecutively, and ends with EOF (the read error of a broken stream) and no byte left |
| `Streams.PartOfFrame` | network/packet.go:149-164 | a proper prefix of a frame is never taken for a packet |
| `Streams.WholeExactly` | network/packet.go:112-178 | k packets is the number that n bytes bring if and only if the first k are deliverable and fit into n bytes, and the next is absent, undeliverable or does not fit |
| `Streams.PrefixDelivery` | network/conn.go:208-243 | from any prefix of the written frames the packets read are exactly the first packets written, in order: as many as arrived whole before any the peer rejects |
| `Streams.FullDelivery` | network/conn.go:208-243 | if all bytes arrive and all packets are deliverable, all are read |
| `Streams.AcceptsFrame` | network/packet.go:147-178 | Decode succeeds consuming n bytes if and only if the first n bytes are an acceptable frame |
| `Streams.ReadsLongestPrefix` | network/conn.go:208-243 | any acceptable frames the input starts with are all read |
| `Streams.ReadsOnlyFrames` | network/conn.go:208-243 | the input splits into as many acceptable frames as packets read and a tail that starts with none, whose decoding is the final error |
| `Streams.EofExactly` | network/packet.go:149-194 | io.EOF is returned exactly for a clean end with no bytes or only a valid length field left, or for a complete frame whose decompression reports end of input |
| `Streams.ConsumedLayout` | network/packet.go:147-204 | the bytes a successful Decode consumed are the layout of what it returned |
| `Streams.ReverseRoundTrip` | network/packet.go:112-202 | without compression, re-encoding a decoded packet reproduces the consumed bytes except offsets 6 to 14, and those too for the same number |
| `Pipeline.FifoStep` | network/conn.go:114-415 | every step keeps the accepted packets equal, in order, to handled, then in hand, then queued, with at most 1024 queued |
| `Pipeline.NilStep` | network/conn.go:97-124 | every step keeps: a call has returned nil if and only if it enqueued, and it enqueued once |
| `Pipeline.WireStep` | network/conn.go:380-415 | every step keeps the wire equal to the frames of handled packets (a prefix of them once a write failed), numbered by position |
| `Pipeline.ReachableInv` | network/conn.go:97-417 | all three invariants in every reachable state of any number of senders, the writer and the closers |
| `Pipeline.Accounting` | network/conn.go:111-123 | in every reachable state at most 1024 packets are queued, accepted equals queued plus in hand plus handled, and the calls that returned nil are the enqueuers, each once |
| `Pipeline.EndToEnd` | network/conn.go:97-417 | for every interleaving and every prefix of the written bytes, however the stream then ends, a peer with equal settings reads exactly the first of the accepted packets less the encode failures, in order and with equal version, command, timestamp and data: as many as arrived whole before any it rejects |
| `Pipeline.AllDelivered` | network/conn.go:97-417 | when the channel is drained and all bytes arrived, exactly the accepted packets were read, if all were deliverable |
| `Pipeline.ReceivedNumbers` | network/conn.go:111-115 | without encode errors the numbers the peer reads are 1, 2, 3, ... modulo 2^64, in whatever order Send drew its own |
| `Pipeline.SendIsSteps` | network/conn.go:97-124 | an undisturbed Send call is a sequence of steps of this call alone, with this answer of the limiter and this choice of the select |
| `Pipeline.WriteIsSteps` | network/conn.go:380-415 | an undisturbed pass of the write loop is Dequeue, Encode and, if encoding succeeded, a Write with this outcome |
| `Conns.Connection.constructor` | network/conn.go:54-89 | a new connection is the initial state of the step system |
| `Conns.Connection.Send` | network/conn.go:97-124 | nil if and only if open, allowed and fewer than 1024 queued, and then this packet is appended; queue full, rate limit and closed errors each exactly when; the number goes up by one exactly when allowed and open |
| `Conns.Connection.Close` | network/conn.go:127-138 | sets the flag, closes the channel and stops the heartbeat once however often it is called; only the first call can return an error, that of the socket |
| `Conns.Connection.EncodeNext` | network/conn.go:382-396 | takes the oldest packet, numbers it with the codec counter and encodes it |
| `Conns.Connection.WriteNext` | network/conn.go:382-408 | takes and numbers the oldest packet; an encoding error is counted and the loop goes on; a complete write adds exactly the frame and the loop goes on; a failed write ends the loop, counts an error and closes |
| `Conns.Connection.ReadLoop` | network/conn.go:195-303 | dispatches exactly the packets DecodeAll reads, up to the iteration that sees the connection closed, leaves the rest unread, counts an error unless the end was EOF (a read broken by a local close counts one), and closes |
| `Cleanups.Survivors` | network/conn_pool.go:121-150 | after a pass in any order every survivor was open, young, within the error limit and alive, or its Close failed; every entry with no reason to go survives |
| `Cleanups.NoIdleSurvivor` | network/conn_pool.go:127-131 | if more than minIdleConns remain, no survivor was idle when visited, unless its Close failed |
| `Cleanups.ExactCount` | network/conn_pool.go:121-171 | with no entry that must go, exactly max(firm, min(initial, minIdleConns)) remain, for every order, where firm entries are busy or fail to close |
| `Cleanups.CountBounds` | network/conn_pool.go:121-171 | for every order the number left lies between max(firm, min(initial, minIdleConns) - going) and max(firm, min(initial - going, minIdleConns)), where firm entries are busy or fail to close and going ones must go and close |
| `Cleanups.GoingFirst` | network/conn_pool.go:121-171 | every order that visits the entries that must go first leaves the most |
| `Cleanups.GoingLast` | network/conn_pool.go:121-171 | every order that visits them last leaves the fewest |
| `Cleanups.BoundsAttained` | network/conn_pool.go:160-171 | for every pool both bounds are reached by some order of the map |
| `Cleanups.OrderMattersExactly` | network/conn_pool.go:121-171 | the number left is the same for every order of the map if and only if no entry is going, or all others are firm, or the firm ones reach minIdleConns, or the pool starts within minIdleConns |
| `Pools.ConnPool.Add` | network/conn_pool.go:46-65 | rejects at the limit and changes nothing; otherwise stores and counts as the step system does; a right gauge stays right if and only if it rejected or the id is fresh |
| `Pools.ConnPool.Remove` | network/conn_pool.go:68-85 | deletes and counts the entry, as the step system does, unless its Close fails; an unknown id changes nothing; the gauge stays right |
| `Pools.ConnPool.VisitEntry` | network/conn_pool.go:121-170 | closes the entry if and only if it is closed, idle too long with more than minIdleConns in the pool, too old, over the error limit or not alive; deletes it if that succeeds, counts an error if not |
| `Pools.ConnPool.Cleanup` | network/conn_pool.go:156-180 | visits every entry once in some order and leaves exactly the entries kept by that order, with gauge, counters, failures and history right |
| `LifecyclePass.PassIsSteps` | network/conn_pool.go:156-180 | from every reachable state with the lock free, and for every order, the step system can run that very pass: the same entries remain by the same deletions |
| `LifecyclePass.AddIsStep` | network/conn_pool.go:46-65 | in the step system exactly one outcome of Add is possible, full exactly at the limit |
| `LifecyclePass.PassRemovesClosed` | network/conn_pool.go:121-199 | in any run, when a cleanup pass or shutdown releases its lock no connection that was closed when it took it is in the pool, whatever happened meanwhile |
| `Pools.ConnPool.Close` | network/conn_pool.go:184-199 | leaves exactly the entries whose Close failed and counts as many errors |
| `Lifecycle.CloseKeepsClosedOnce` | network/conn.go:127-138 | every step of any number of concurrent Close calls keeps one winner per connection and each channel closed at most once |
| `Lifecycle.InvStep` | network/tcp_net.go:127-246 | every step of accept loop, monitors, cleanup, shutdown and Close calls keeps the whole invariant |
| `Lifecycle.BoundsAndCounters` | network/conn_pool.go:46-85 | in every reachable state the pool is within maxConns, at most one more connection is open, created minus closed equals the gauge equals the map size, and closed counts each removed connection once |
| `Lifecycle.ExactlyOnce` | network/conn.go:127-138 | closeChan and the heartbeat channel are closed at most once, and only after the flag is set |
| `Lifecycle.ClosedForGood` | network/conn.go:127-138 | the closed flag never reverts |
| `Lifecycle.NoLeakedEntry` | network/tcp_net.go:184-246 | a pooled connection has an unfinished monitor or is about to get one from the accept loop |
| `Lifecycle.MonitorRemoveSucceeds` | network/tcp_net.go:239-246 | Remove called by a monitor finds its Close returned nil and deletes the entry: the error branch is never taken |
| `Lifecycle.GoneForGood` | network/tcp_net.go:239-246 | once a monitor is past its Remove the connection is never in the pool again |
| `LifecycleProgress.WorkStep` | network/tcp_net.go:127-246 | every step owed by the lock holder, a Close call, a monitor or an accept loop that just added uses up some of the work left; any other step adds only what it grants |
| `LifecycleProgress.OwedStepsBounded` | network/tcp_net.go:127-246 | in any stretch from a reachable state owed steps taken plus work left are at most the work there was plus what was granted since |
| `LifecycleProgress.UnsettledCanGoOn` | network/conn_pool.go:68-199 | in every reachable state in which the lock is held or a closed connection is in the pool an owed step can be taken, however a cleanup decides about open entries |
| `LifecycleProgress.RemovalIsInevitable` | network/tcp_net.go:239-246 | owed steps cannot go on for ever, and wherever none is left the lock is free and no closed connection is in the pool |
| `LifecycleProgress.RemovalCompletes` | network/tcp_net.go:239-246 | every stretch of owed steps goes on to such an end, however a cleanup decides |
| `Lifecycle.ShutdownClosesAll` | network/conn_pool.go:184-199 | when pool Close releases the lock every entry still in the pool has been closed |
| `LifecycleShutdown.AddsAfterCancel` | network/tcp_net.go:96-145 | once Stop has cancelled the context at most one more connection is added, and only if the accept loop was past its select |
| `LifecycleShutdown.OpenAfterShutdown` | network/tcp_net.go:96-145 | from the return of pool Close on at most one pooled connection is ever open, and none unless the accept loop was waiting for a connection or held an open one, and maxConns is positive |
| `LifecycleShutdown.OpenAfterShutdownExactly` | network/tcp_net.go:96-197 | when pool Close returns an open pooled connection can still follow if and only if maxConns is positive and the accept loop is waiting for a connection or holds an open one; a full pool makes room first |
| `LifecycleShutdown.OpenAfterShutdownIsReachable` | network/tcp_net.go:96-197 | a run from the start in which Stop closes the pool while the accept loop waits, and ends with an open connection in it |
| `Heartbeats.HeartbeatManager.HandlePong` | network/heartbeat.go:126-128 | from a pong on the peer counts as alive for exactly one timeout |
| `Heartbeats.HeartbeatManager.HandleTimeout` | network/heartbeat.go:103-112 | twice the time slept is n(n+1) seconds, in nanoseconds; nothing for a negative count |
| `Heartbeats.SteadyNeverStale` | network/heartbeat.go:78-101 | while pongs closer than the timeout continue, no tick finds the peer timed out |
| `Heartbeats.HeartbeatManager.CheckLoop` | network/heartbeat.go:78-118 | over any pongs: the loop calls Close after the first stale tick and the retries; never without a pong; after steady pongs, the last at T, within [T+timeout+n(n+1)/2 s, T+2*timeout+n(n+1)/2 s); and certainly once it ran through a silence of two timeouts |
| `Heartbeats.CloseWindow` | network/heartbeat.go:78-118 | after steady pongs, the last at T, Close comes within [T+timeout+n(n+1)/2 s, T+2*timeout+n(n+1)/2 s) |
| `Heartbeats.CloseHappens` | network/heartbeat.go:78-101 | a stale tick occurs once the ticks reach two timeouts past the last pong |
| `Heartbeats.GapIsNoticed` | network/heartbeat.go:78-101 | a silence of two timeouts between pongs makes some tick stale, wherever the ticks fall |
| `Heartbeats.NeverClosesSilent` | network/heartbeat.go:95-101 | a peer that never sent a pong is never timed out |
| `Heartbeats.AlwaysFresh` | network/heartbeat.go:57-76 | while open and pinging, the last activity is at most one interval before the next ping |
| `Heartbeats.PingsMaskIdleness` | network/conn_pool.go:127-131 | so the idle rule does not select the connection when the interval is within maxIdleTime, whatever the limiter answers |

## Left out

- gzip, AES and JSON internals: foreign libraries, taken as parameters or as given values.
- The rate limiter: its answer is a parameter of Send, either way at every call.
- Metrics other than the pool's gauge, its counters and its cleanup counter; logging, Redis, configuration loading, signal handling.
- The router and the protocol generator: reflection and text templates.
- Message handlers: they run in goroutines of their own, so only the order in which packets are read is stated; which handler is installed when is not.
- Whether a ping elicits a pong: pings travel with type 0, which the receiver ignores, so heartbeat results speak of pongs actually received.
- Panics in task bodies, handlers and callbacks, and the recover blocks around them.
- A read timeout in the read loop: no deadline is ever set on the socket.
- Broadcast sharing one packet between connections: numbering results need each packet handed to Send once.
- Several run loops: Start is called once.
- An empty pool after the server has stopped: the accept loop may still add a connection; `OpenAfterShutdownExactly` says when an open one can follow.
- Pool Get, GetAll, Len and Status, and the collection of server metrics: they only read.
- The component manager, id generation and calendar helpers for daily and weekly tasks: simple, or dependent on time zones and randomness.
- Scheduler.Iterate: the endless loop around it is not a method; SchedulerModel's runs take its place.
- Conns.Connection.Send: the method is one undisturbed call; interleavings with other calls are in Pipeline.
- Heartbeats.HeartbeatManager.CheckLoop: a loop over finitely many ticks, stopped after any number of them. It returns at the first Close it calls; the source goes on until it sees the stop that Close signals, and a further Close there does nothing.
- Pools.ConnPool.Cleanup: what each connection answers when visited is a parameter, since other goroutines may change it during the pass.
