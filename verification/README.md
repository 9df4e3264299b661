# A verified model of Rex and its packet-processing samples

Rex lets kernel extensions be written in safe Rust. Instead of a verifier it relies on a small runtime: objects
that own kernel resources register themselves in a per-CPU table, a three-valued flag delays the kernel's watchdog
while a helper is running, and a panic does not unwind but walks the table and leaves through a landing pad. This
project models that runtime, the two protocol samples built on it, and the byte-level code they share, in Dafny.

| file | what it models |
|---|---|
| `CleanupRegistry.dfy` | the 64-entry cleanup table, and what the program holds according to its foreign calls |
| `RexRuntime.dfy` | one CPU as a step relation: owners, `termination_check!`, the panic handler, watchdog ticks anywhere; the invariant of every step |
| `RexRuntimeTheorems.dfy` | what holds over whole runs, and exactly when it stops |
| `RexCpuObject.dfy` | the same runtime as methods over the array and the flag, each proved to be a run of the step relation |
| `ElectrodeQuorum.dfy` | the ring of acknowledgement bitsets, and which PrepareOK messages are passed up |
| `ElectrodeBroadcast.dfy` | the egress handler that clones its own packet |
| `ElectrodePrepare.dfy` | acceptance of Prepares on a follower, and the buffer they are copied to |
| `BmcText.dfy`, `BmcCache.dfy` | FNV-1a, the scanning loops, the direct-mapped cache and its four operations |
| `BmcCoherence.dfy` | agreement of the cache with the server over whole runs, and which response is served |
| `BmcLimits.dfy` | where that agreement ends: incomplete responses, colliding slots, long keys |
| `BmcPacket.dfy`, `BmcEndToEnd.dfy` | the receive and transmit filters on whole frames, the reply written over the request, and the two joined with coherence |
| `Ipv4Checksum.dfy` | `compute_ip_checksum` against the Internet checksum |
| `AlignedView.dfy` | header views over a reference or over a copy |
| `BoundedWriter.dfy` | the bounded string writers and the panic message |
| `LoaderPatch.dfy` | the loader writing map descriptors into the program image |

`dafny verify dfyconfig.toml` checks the whole project.

## Assumptions

- The watchdog: at flag 0 it diverts the program to `__rex_handle_timeout`; at flag 1 it writes 2; at 2 it does
  nothing more. The flag is 0 when a program starts. Ticks may come before any statement, and every statement of
  the constructors, drop handlers and of the panic handler is a step of its own.
- `bpf_spin_lock` returns only when the lock is free. A reservation is handed out only for free space.
- Owners are dropped when they go out of scope: the samples' `clippy.toml` forbids `core::mem::forget` and
  `ManuallyDrop`. So a program returns only without live owners.
- Electrode's handlers run one at a time on one core, as the sample says. `bpf_clone_redirect` succeeds; the clone is
  an independent copy and goes through the handler before the call returns.
- Each section under an entry's lock in BMC is atomic, and so is the whole pass of a SET over its packet: the test of
  `valid` there stands outside the lock.
- A SET command stands in one packet from "set " to the end of its key: the filter hashes what it finds in the packet,
  so that a SET cut inside its key clears another slot and does not count as a SET of the key.
- The release profile has no overflow checks: shift amounts are masked, 16-bit additions wrap. Statistics counters
  are unbounded.

## Where the code does less than it seems to promise

Each of these has a counterexample and the exact condition, for all inputs.

- `from_pid` takes its task reference before it registers. A landed panic leaks a lock or a task reference if and only
  if some `from_pid` of the run found the table full (`LeakIffRegistryFull`, `FromPidCanLeak`).
- `termination_check!` reads and clears the flag in two accesses. In every reachable state of a running program a tick
  takes effect if and only if the state is not between the two; there it is overwritten (`TickTakesEffectIff`).
- The acknowledgements behind a passed PrepareOK make a strict majority, with the leader, if and only if the cluster
  size is odd (`PassedIsMajorityIff`). A matching PrepareOK can be passed at all if and only if there are 3 to 66
  replicas: with fewer the count aimed at is zero, with more the 32-bit word cannot reach it (`PassesIff`).
- The egress handler flips the broadcast bit instead of clearing it, so a unicast resend of a Prepare is recorded
  under another view and discards the acknowledgements (`ResendKeepsIff`, `UnicastResendForgets`).
- The broadcast reaches exactly the other replicas if and only if there are any and each has one of the 100 entries of
  the configuration. With one replica it sends to replica 1; packets for replicas 100 and up are shot
  (`BroadcastServesIff`).
- The buffer comment in `write_buffer` says that a full buffer offloads to user space. The code returns `Err(0)` after
  having raised `last_op`, and the Prepare will not be accepted again (`NeverAcceptedAgain`, `BufferIsLogIff`).
- A response without its second newline overwrites a valid entry, which goes on claiming the old key
  (`FillConsistentIff`, `AlwaysConsistentIff`, `TruncatedResponseMisleads`, `TruncatedRun`).
- The fill loop reads a whole key if and only if it has at most 224 bytes; a response for a longer one is served under
  the first 224 (`KeyReadWholeIff`, `LongKeyServedUnderPrefix`).
- The up-to-date test compares keys only. A response is copied if and only if its slot does not hold the key, so a
  newer value is ignored while an older one is cached (`CopiedIff`, `ServedIsFirstSince`, `NewerIgnored`).
- `hash_key` keeps the offset of the key in eight bits. Behind 202 or more extra spaces a GET panics if and only if fewer
  than 231 bytes are left from its key on; otherwise the key is found behind any number of spaces (`GetParsed`).
- The comparison of the up-to-date test stops 50 bytes before the end of the payload, so that a key of
  the same hash that differs only behind is taken for the same (`DiffersIff`, `DifferentKeyRepairs`).
- The headers are turned around before the second lookup. If the key is gone by then, and only then, the client gets its
  own request back (`BouncedIff`, `SetBetweenBounces`).
- The reply's lengths are the request's moved by the padding. They fit the reply if and only if they fitted the request,
  and on a request that Ethernet padded the end of "END\r\n" is cut (`ReplyLengthsIff`, `ShortKeyReplyCut`).
- The checksum folds carries once. It is the Internet checksum, and the header verifies, if and only if that leaves no
  carry (`ChecksumIsRfcIff`, `StampedVerifiesIff`, `CarryExample`).
- The loader creates maps while it iterates over a hash table, so descriptors follow its order: two orders give the same
  file if and only if they are the same (`SameFileIffSameOrder`, `TwoOrdersDiffer`). In every order each address finds
  its own map's descriptor (`SentAddressFindsDescriptor`).
- An empty string written to an empty ring-buffer reservation panics; nothing else does (`WriteRingStr`).

## Model

| member | source | states |
|---|---|---|
| KernelResources.HeldIsBalance | rex/src/panic.rs:119-129 | what is held after any trace of foreign calls is acquisitions minus releases |
| KernelResources.LegalHolds | rex/src/spinlock.rs:46-54 | in a trace where only held things are released and no lock or reservation is handed out twice, nothing is ever over-released and locks and reservations are held at most once |
| CleanupRegistry.RegisteredUpdate | rex/src/panic.rs:102-117 | overwriting one entry changes how often a panic would release a resource by exactly that entry's share |
| CleanupRegistry.RegisteredFirstEmpty | rex/src/panic.rs:41-51 | a table without valid entries releases nothing |
| CleanupRegistry.FirstFree | rex/src/panic.rs:90-97 | the slot found is free and all slots below it are taken; the length of the table stands for the panic |
| RexRuntime.InitialInv | rex/src/panic.rs:54-64 | an empty table, flag 0 and nothing held satisfy the invariant |
| RexRuntime.OwnerKeepsInv | rex/src/spinlock.rs:19-55 | each statement of the lock and task constructors and drop handlers keeps the invariant, the registry being full included |
| RexRuntime.HelperKeepsInv | rex/src/map.rs:186-206 | so does each statement of reserve, submit, discard and of any other helper |
| RexRuntime.ControlKeepsInv | rex/src/base_helper.rs:26-41 | so do the flag test, the flag reset with delivery of the result, and each statement of the panic handler |
| RexRuntime.TextKeepsInv | rex/src/base_helper.rs:13-24 | so does entering a helper, panicking or returning from program text |
| RexRuntime.TickKeepsInv | rex/src/panic.rs:158-161 | so does a watchdog tick at any point |
| RexRuntime.StepKeepsInv | rex/src/panic.rs:66-130 | every step keeps: releases are legal, everything held is registered, in flight or reserved (as counts per resource), valid slots and live owners correspond one to one |
| RexRuntime.RunKeepsInv | rex/src/panic.rs:170-189 | every state of every run satisfies that invariant |
| RexRuntimeTheorems.ReachableInv | rex/src/panic.rs:66-130 | so does every state reachable from the initial one |
| RexRuntimeTheorems.DeferredAbort | rex/src/base_helper.rs:13-42 | whenever the flag is 0, valid slots are exactly those of live owners, one to one with matching arguments, and every lock and task reference is held exactly as often as it is registered, so a diversion cannot land between register and lock or between deregister and unlock |
| RexRuntimeTheorems.ExactlyOnceRelease | rex/src/panic.rs:121-189 | when a panic of any origin has landed, all slots are free, nothing unheld was released, and each lock and task reference was released as often as acquired; only live reservations and the one resource caught before registration stay behind |
| RexRuntimeTheorems.ReleasedAtMostOnce | rex/src/map.rs:307-331 | in every reachable state a reservation or lock was released as often as acquired, or once less, and nothing was released more often |
| RexRuntimeTheorems.NormalExitReleasesAll | rex/src/map.rs:372-378 | a run that returns normally has released every lock, task reference and reservation exactly as often as acquired, and left the table empty |
| RexRuntimeTheorems.ExitIff | rex/src/map.rs:372-378 | in every reachable state of program text the program may return if and only if it holds nothing at all |
| RexRuntimeTheorems.CallEnds | rex/src/base_helper.rs:29-40 | from the test on, a call puts its value into the program's hands after two statements at flag 1, and begins a panic that carries the value at flag 2 |
| RexRuntimeTheorems.HelperReturns | rex/src/base_helper.rs:13-42 | from every reachable state of program text a helper returns to exactly that state, and a tick inside it leads to a panic instead |
| RexRuntimeTheorems.Reserves | rex/src/map.rs:186-206 | from every such state a ring-buffer entry that is free is acquired and becomes the program's, and nothing else changes |
| RexRuntimeTheorems.Finishes | rex/src/map.rs:307-331 | from every such state an entry of the program is released once and is no longer its own, and nothing else changes |
| RexRuntimeTheorems.GuardTakes | rex/src/spinlock.rs:19-33 | from every such state with a slot free, a free lock is acquired, in the hands of a new owner and named by the first free slot, and nothing else changes |
| RexRuntimeTheorems.TaskTakes | rex/src/task_struct.rs:84-105 | the same for a task that the kernel finds |
| RexRuntimeTheorems.DropReleases | rex/src/spinlock.rs:45-55 | from every such state, dropping an owner releases what it owns and frees its slot, and nothing else changes |
| RexRuntimeTheorems.PanicOnlyReleases | rex/src/panic.rs:168-189 | during a panic, whatever ticks come, nothing is acquired and owners and reservations do not change |
| RexRuntimeTheorems.PanicReleasesHeld | rex/src/panic.rs:119-129 | between its start and the landing pad a panic releases each resource exactly as often as it was registered at the start |
| RexRuntimeTheorems.PanicNeverStuck | rex/src/panic.rs:119-129 | a panic can always take its next statement, also while ticks arrive |
| RexRuntimeTheorems.PanicLands | rex/src/panic.rs:170-189 | it lands after one statement per entry and two more, however many ticks come between |
| RexRuntimeTheorems.DoomedStays | rex/src/base_helper.rs:29-33 | once a tick has been noted inside a helper, no step leads back to program text |
| RexRuntimeTheorems.DeferredTickAborts | rex/src/base_helper.rs:26-33 | so on every continuation of every run program text does not resume after a tick before the flag test: the helper is still running or a panic has begun |
| RexRuntimeTheorems.TickTakesEffectIff | rex/src/base_helper.rs:30-37 | in every reachable state that has neither landed nor returned, program text included, a tick is possible and dooms the program if and only if the state is not between test and reset; there the step that clears the flag ends in the same state with and without the tick |
| RexRuntimeTheorems.TextAborts | rex/src/panic.rs:158-161 | a tick or a panic is possible in every reachable state of program text, begins a panic of its own origin and changes nothing else |
| RexRuntimeTheorems.TextAbortIsPanic | rex/src/panic.rs:158-189 | after a tick in program text or a panic of the program, on every continuation, program text does not resume, nothing is acquired and owners and reservations stay |
| RexRuntimeTheorems.TextAbortLands | rex/src/panic.rs:158-189 | and it lands after 66 statements, with every lock and task reference that was held released exactly as often as it was held |
| RexRuntimeTheorems.LostTaskStep | rex/src/task_struct.rs:86-94 | a step leads to a panic that has lost a task reference if and only if it was one already or is the registration after `bpf_task_from_pid` on a full table |
| RexRuntimeTheorems.LostTaskIff | rex/src/task_struct.rs:84-105 | a run is in such a panic if and only if one of its statements was that registration |
| RexRuntimeTheorems.LeakIffRegistryFull | rex/src/task_struct.rs:84-105 | a landed panic leaves a lock or task reference held if and only if some `from_pid` of the run found the table full; it is then that one reference |
| RexRuntimeTheorems.FromPidCanLeak | rex/src/task_struct.rs:86-94 | for every task there is a run, of 64 guards and one `from_pid`, that lands holding it |
| RexRuntimeTheorems.FillRun | rex/src/spinlock.rs:19-33 | up to 64 lock guards can be made one after the other, filling the slots from the lowest up |
| RexCpuObject.RexCpu.constructor | rex/src/panic.rs:54-64 | the object starts as the initial state of the step relation |
| RexCpuObject.RexCpu.FindNextEmptyEntry | rex/src/panic.rs:90-97 | the scan returns the lowest free slot, or reports a full table |
| RexCpuObject.RexCpu.RegisterCleanup | rex/src/panic.rs:102-110 | it overwrites that slot and no other; a full table stays as it is |
| RexCpuObject.RexCpu.DeregisterCleanup | rex/src/panic.rs:114-117 | only the validity of the given slot changes |
| RexCpuObject.RexCpu.CleanupAll | rex/src/panic.rs:121-129 | what the valid entries name is released in order, every slot is free afterwards with its other fields kept, and this is one step of the relation for each entry |
| RexCpuObject.RexCpu.HandlePanic | rex/src/panic.rs:170-189 | the handler is a run of the relation from the start of a panic to the landing pad |
| RexCpuObject.RexCpu.EndTerminationCheck | rex/src/base_helper.rs:29-37 | it panics if a tick came before the test and returns to program text otherwise, a tick between test and reset included, as a run of the relation |
| RexCpuObject.RexCpu.Deliver | rex/src/base_helper.rs:33-40 | the reset overwrites a late tick and the result reaches the program, as a run of the relation |
| RexCpuObject.RexCpu.NewSpinlockGuard | rex/src/spinlock.rs:19-33 | how the constructor ends on a full table and with a tick, and that it is a run of the relation |
| RexCpuObject.RexCpu.TaskFromPid | rex/src/task_struct.rs:84-105 | the same for `from_pid`, with and without a task |
| RexCpuObject.RexCpu.Drop | rex/src/spinlock.rs:45-55 | the drop handler deregisters, then releases, as a run of the relation |
| RexCpuObject.RexCpu.ReserveEntry | rex/src/map.rs:186-206 | the same for a reservation, with and without room |
| RexCpuObject.RexCpu.FinishEntry | rex/src/map.rs:307-331 | the same for its submission, discarding or drop |
| Bitset32.SetBitValue | samples/electrode/src/main.rs:525-525 | setting a bit adds its power of two unless it is there |
| Bitset32.SetBitMembers | samples/electrode/src/main.rs:525-525 | or-ing in `1 << i` makes the set of members the old one and i |
| Bitset32.CountIsCardinality | samples/electrode/src/main.rs:527-527 | `count_ones` is the number of members |
| Bitset32.LowBitsIff | samples/electrode/src/main.rs:517-517 | a mask of the low n bits keeps exactly the bits below n |
| Bitset32.LowBitsRemain | samples/electrode/src/main.rs:517-517 | and leaves the remainder modulo the n-th power of two |
| ElectrodeQuorum.QuorumRing.constructor | samples/electrode/src/maps.rs:7-13 | the ring starts with zero entries |
| ElectrodeQuorum.QuorumRing.RecordPrepare | samples/electrode/src/main.rs:146-161 | an outgoing Prepare changes its slot as the specification step says, and no entry at another index than the operation modulo 1024 |
| ElectrodeQuorum.QuorumRing.HandlePrepareOk | samples/electrode/src/main.rs:498-541 | an acknowledgement changes its slot, and is passed or dropped, as the specification says; no entry at another index than the operation modulo 1024 changes, and a short packet changes nothing |
| ElectrodeQuorum.AckersStep | samples/electrode/src/main.rs:517-525 | how one message changes the replicas that have acknowledged a slot's key since it was installed |
| ElectrodeQuorum.RingRefines | samples/electrode/src/main.rs:153-161 | for every history and slot, the entry names the last key prepared there and its bits are exactly the acknowledgers of that key since it was installed, so operations 1024 apart are never mixed |
| ElectrodeQuorum.KeyIsLastPrepare | samples/electrode/src/main.rs:146-161 | the key named at an operation modulo 1024 is the operation, and the view with its top bit flipped, of the last Prepare congruent to it modulo 1024 |
| ElectrodeQuorum.MatchesIff | samples/electrode/src/main.rs:517-523 | an acknowledgement matches if and only if the last Prepare before it whose operation is congruent to its own modulo 1024 has its key, or there is none and its key is zero |
| ElectrodeQuorum.OtherClassesIrrelevant | samples/electrode/src/main.rs:154-161 | messages for operations of other residue classes modulo 1024 change neither the acknowledgers of an operation nor the verdict on an acknowledgement of it |
| ElectrodeQuorum.RingHoldsWords | samples/electrode/src/maps.rs:9-13 | the bitsets stay within 32 bits |
| ElectrodeQuorum.PassIffQuorum | samples/electrode/src/main.rs:525-540 | a matching acknowledgement is passed if and only if the distinct acknowledgers, itself included, are one short of the quorum and the tail could be moved, duplicates or not |
| ElectrodeQuorum.OtherAcksIgnored | samples/electrode/src/main.rs:519-523 | any other acknowledgement is passed and leaves the ring as it is |
| ElectrodeQuorum.AckersGrow | samples/electrode/src/main.rs:525-525 | within one installation acknowledgers only grow, by at most one a message |
| ElectrodeQuorum.LateAcksDropped | samples/electrode/src/main.rs:527-529 | past the quorum every later acknowledgement of the installation is dropped |
| ElectrodeQuorum.QuorumCompletesOnce | samples/electrode/src/main.rs:517-540 | whenever the acknowledgers of an installation reach the quorum, exactly one message completes them, and it is passed |
| ElectrodeQuorum.PassedIsMajorityIff | samples/electrode/src/common.rs:31-31 | the acknowledgers behind a passed message, with the leader, are a strict majority if and only if the cluster size is odd |
| ElectrodeQuorum.AckersBounded | samples/electrode/src/main.rs:525-525 | a slot never counts more than 32 acknowledgers |
| ElectrodeQuorum.HistoryPasses | samples/electrode/src/main.rs:517-540 | for every view and operation and 3 to 66 replicas, a Prepare followed by the acknowledgements of a quorum ends in one that is passed |
| ElectrodeQuorum.PassesIff | samples/electrode/src/common.rs:31-31 | some acknowledgement is passed in some history if and only if the cluster has 3 to 66 replicas |
| ElectrodeQuorum.AckersAreReplicas | samples/electrode/src/main.rs:515-525 | with indices below 32, each acknowledger is a replica whose message is in the history |
| ElectrodeQuorum.ResendKeepsIff | samples/electrode/src/main.rs:146-161 | a Prepare sent again keeps the acknowledgers if and only if its view field is bit for bit the same or there are none, so a clone clears nothing |
| ElectrodeQuorum.UnicastResendForgets | samples/electrode/src/main.rs:146-161 | for every view and operation, a unicast resend after a broadcast forgets the acknowledgement that came between |
| ElectrodeBroadcast.MarkNext | samples/electrode/src/main.rs:174-202 | whatever the first two bytes of the type, which replica the packet is for and how it is marked for the next that is not the leader, counting modulo 256 |
| ElectrodeBroadcast.HandleBroadcast | samples/electrode/src/main.rs:171-212 | on every packet the handler and the clones it makes terminate; which replicas they are entered for and which packets leave, innermost clone first, each with its type prefix restored, replicas without a configuration entry shot |
| ElectrodeBroadcast.HandledInOrder | samples/electrode/src/main.rs:177-207 | from a packet marked for any replica on, the handler is entered for exactly each later replica but the leader, in increasing order |
| ElectrodeBroadcast.EmittedLeaves | samples/electrode/src/main.rs:187-212 | what leaves is one packet for exactly each of these that has a configuration entry, in decreasing order, all with the same bytes |
| ElectrodeBroadcast.BroadcastServesIff | samples/electrode/src/main.rs:174-212 | the broadcast reaches exactly the other replicas if and only if there are at least two and all others are among the 100 configured: at most 100, or 101 with the leader last |
| ElectrodeBroadcast.EmittedOnceEach | samples/electrode/src/main.rs:171-212 | for every size from two on, the whole broadcast enters the handler for each other replica in order and sends to the configured ones once each |
| ElectrodePrepare.Follower.HandlePrepare | samples/electrode/src/main.rs:320-367 | in the fields of replica and message: when `last_op` rises, when the first 64 data bytes are buffered, and exactly when the message is dropped, aborted, answered or passed |
| ElectrodePrepare.Follower.WriteBuffer | samples/electrode/src/main.rs:370-394 | a record is appended if and only if there are 64 data bytes and room |
| ElectrodePrepare.Progress | samples/electrode/src/main.rs:343-366 | over any deliveries `last_op` never decreases, view and status never change, the buffer only grows at its end |
| ElectrodePrepare.RaisedIff | samples/electrode/src/main.rs:337-366 | `last_op` rises, to that of the message, if and only if the status is normal, the views agree, the message goes past `last_op` and starts at most one behind it |
| ElectrodePrepare.InOrderAccepted | samples/electrode/src/main.rs:356-366 | deliveries of the current view in normal status, each starting one past the end of the one before, are all accepted and end at the last one's `last_op` |
| ElectrodePrepare.NoHoles | samples/electrode/src/main.rs:343-366 | every operation between the starting and the current `last_op` lies in the range of some Prepare accepted in the view with normal status |
| ElectrodePrepare.AcceptedExact | samples/electrode/src/main.rs:337-366 | the list of accepted deliveries holds exactly the accepted ones, each once and in order |
| ElectrodePrepare.AcceptedRaise | samples/electrode/src/main.rs:356-366 | accepted Prepares have strictly increasing `last_op` |
| ElectrodePrepare.BufferIsRecords | samples/electrode/src/main.rs:370-394 | on every run the buffer gains exactly the records of accepted Prepares that were long enough and found room |
| ElectrodePrepare.BufferIsLogIff | samples/electrode/src/main.rs:356-394 | it gains one record for each accepted Prepare if and only if all were long enough and found room, and then record k is the first 64 data bytes of the k-th |
| ElectrodePrepare.NeverAcceptedAgain | samples/electrode/src/main.rs:356-388 | an accepted Prepare, an aborted one included, changes nothing when it comes again |
| BmcText.ScanEnd | samples/bmc/src/main.rs:122-128 | where a scan ends: no stop byte before, and a stop byte there unless it is the limit |
| BmcText.ScanKey | samples/bmc/src/main.rs:402-411 | the loop returns that end and the hash of the bytes before it |
| BmcText.HashOfKeyAt | samples/bmc/src/main.rs:86-90 | the hash depends on the bytes only, not on where they stand |
| BmcText.ShareSlotIff | samples/bmc/src/main.rs:137-137 | two hashes share a slot if and only if they differ by a multiple of 3250000 |
| BmcText.ScanStopsAfterKey | samples/bmc/src/main.rs:306-313 | a scan over a key followed by a stop byte or the limit ends behind it, with the key's hash |
| BmcCache.Cache.constructor | samples/bmc/src/main.rs:74-76 | no entry is valid at first |
| BmcCache.Cache.KeyDiffers | samples/bmc/src/main.rs:422-440 | the comparison loop decides the up-to-date test, with the header length counted twice in its bound as the source has it |
| BmcCache.DiffersIff | samples/bmc/src/main.rs:422-440 | the comparison finds a difference if and only if the two texts first part, with no space before, within 230 bytes and 50 bytes before the end of the payload |
| BmcCache.ScanPanicsIff | samples/bmc/src/main.rs:402-411 | the key scan of a response panics if and only if the packet goes on behind its linear bytes and these are fewer than 230 and hold no space |
| BmcCache.CachedIff | samples/bmc/src/main.rs:442-456 | the bytes copied are those through the second newline, or the first 1283, or all there are |
| BmcCache.Cache.CopyResponse | samples/bmc/src/main.rs:442-456 | the copy takes the response through its second newline or up to the limit, and leaves the rest of the entry's bytes |
| BmcCache.Cache.Update | samples/bmc/src/main.rs:395-466 | the whole new table and the update count after a response, and when the key scan panics |
| BmcCache.Cache.Invalidate | samples/bmc/src/main.rs:295-326 | after a SET every slot named by a "set " window is invalid, all other slots and all other fields are unchanged, and the counts grow by the windows that hold the four bytes and by the distinct slots cleared |
| BmcCache.Cache.InvalidateWindow | samples/bmc/src/main.rs:303-325 | one window clears the validity of its key's slot and nothing else, and counts it if it was valid |
| BmcCache.SetStepNamed | samples/bmc/src/main.rs:296-326 | clearing the slots named by n + 1 windows is clearing those of n and then one more |
| BmcCache.SetAtIff | samples/bmc/src/main.rs:296-303 | a window is a SET if and only if its bytes are 0x73, 0x65, 0x74, 0x20, at any index from 0 on |
| BmcCache.SetStepIff | samples/bmc/src/main.rs:296-326 | an entry stops being valid if and only if the bytes between some "set " and the next space, or the end, hash to its index modulo 3250000; nothing else of any entry changes |
| BmcCache.NoSetNoChange | samples/bmc/src/main.rs:296-303 | a payload that holds these four bytes nowhere changes no entry |
| BmcCache.ClearedCount | samples/bmc/src/main.rs:321-325 | a window adds one to the distinct cleared slots if and only if its slot is still valid when it is met |
| BmcCache.Cache.Perform | samples/bmc/src/main.rs:331-491 | any sequence of responses and SETs takes the table where the specification of the packets does |
| BmcCache.Cache.LookupKey | samples/bmc/src/main.rs:202-223 | the second locked section: the stored bytes and "END\r\n" if the key matches, else nothing and a counted misprediction |
| BmcCoherence.ResponseAgrees | samples/bmc/src/main.rs:402-412 | for a key of up to 224 bytes the response loop does not panic, stops behind the key and hashes it |
| BmcCoherence.SetAgrees | samples/bmc/src/main.rs:306-316 | a SET of a key names the key's slot |
| BmcCoherence.SetFromBytes | samples/bmc/src/main.rs:296-313 | any text, "set ", a key, a space and any text is a SET of the key |
| BmcCoherence.SetBytesEndHold | samples/bmc/src/main.rs:296-325 | in every run, after a packet of these bytes the key is not held |
| BmcCoherence.RunExists | samples/bmc/src/main.rs:331-491 | every history of packets has its run of tables, from any table without valid entries |
| BmcCoherence.RunBetween | samples/bmc/src/main.rs:331-491 | two tables of a run differ by what the packets between them do, which is what the receive filter sees happen between its lookups |
| BmcCoherence.ValidAtOwnSlot | samples/bmc/src/main.rs:459-462 | in every reachable table a valid entry sits at its own hash modulo the table size |
| BmcCoherence.FillSound | samples/bmc/src/main.rs:442-463 | a complete response leaves an entry that holds it |
| BmcCoherence.KeepSound | samples/bmc/src/main.rs:320-325 | an entry left alone by a packet stays current: a SET of its key would have cleared it |
| BmcCoherence.EntryChange | samples/bmc/src/main.rs:412-463 | a packet fills an entry, if it is a response copied to that slot, or clears its validity, if it is a SET naming the slot, or leaves it |
| BmcCoherence.AlwaysSound | samples/bmc/src/main.rs:189-466 | for every interleaving, each valid entry holds the cached part of a response for a key of its slot with no SET of that key since |
| BmcCoherence.HitIsCurrentResponse | samples/bmc/src/main.rs:189-275 | for every interleaving of fills, arbitrary SET packets and lookups, a hit for a key returns the bytes through the second newline of a complete response for it seen after its last SET, and "END\r\n"; for keys of at most 224 bytes without a hash collision among them, and incomplete responses only where they do not overwrite a valid entry |
| BmcCoherence.HitIsWholeReply | samples/bmc/src/main.rs:445-456 | for a two-line reply of up to 1283 bytes without other newlines, the cached part and "END\r\n" are the reply |
| BmcCoherence.HitIsServerReply | samples/bmc/src/main.rs:189-275 | where the server's replies are such, every hit is byte for byte a reply the server sent for the key after its last SET |
| BmcCoherence.ServedUnderIff | samples/bmc/src/main.rs:209-223 | after a response is cached, keys of other slots are served as before, and a key of its slot is served with it if and only if the key has its hash, is short enough and stands behind "VALUE " in the entry, where a key longer than the copy meets the bytes left from before |
| BmcCoherence.FilledKeyIsServed | samples/bmc/src/main.rs:442-463 | a complete response is served under its key at once |
| BmcCoherence.CopiedIff | samples/bmc/src/main.rs:421-440 | in every run, a response for a key is copied if and only if the slot does not hold the key: a newer value for a key that is held is ignored |
| BmcCoherence.HeldSince | samples/bmc/src/main.rs:421-463 | an entry holding a key is what the response left that last found the slot without it |
| BmcCoherence.HoldEndsIff | samples/bmc/src/main.rs:320-325 | a held key stops being held exactly at a SET naming its slot or at a complete response copied into it, which is one for another key |
| BmcCoherence.ServedIsFirstSince | samples/bmc/src/main.rs:137-223 | whenever the first lookup finds a key, a lookup at that time serves the earliest response for it since its slot last stopped holding it; that came after the last SET, and all later responses were ignored |
| BmcLimits.FillConsistentIff | samples/bmc/src/main.rs:442-463 | a copied response leaves the entry consistent with its hash if and only if it is complete or the entry was not valid |
| BmcLimits.AlwaysConsistentIff | samples/bmc/src/main.rs:395-466 | over any run of whatever packets, every table is consistent if and only if no incomplete response was copied over a valid entry |
| BmcLimits.DifferentKeyRepairs | samples/bmc/src/main.rs:421-463 | a complete response that parts from the text of its slot within the compared bytes is copied, and leaves the entry valid, whole and consistent, a spoiled one included |
| BmcLimits.OtherSlotKept | samples/bmc/src/main.rs:412-413 | a response changes nothing for a key of another slot, that is one whose hash does not differ from its own by a multiple of 3250000 |
| BmcLimits.TruncatedResponseMisleads | samples/bmc/src/main.rs:442-463 | for all keys a and b, a a proper prefix of b in the same slot with another hash, an incomplete response for b is served to a GET of a cached a |
| BmcLimits.CollidingKeys | samples/bmc/src/main.rs:86-90 | "b" and "bIof" are such keys |
| BmcLimits.KnownHash | samples/bmc/src/main.rs:86-90 | the hash of "foobar" is the published FNV-1a value |
| BmcLimits.TruncatedRun | samples/bmc/src/main.rs:395-466 | from any table without valid entries, the reply for "b" and then the first packet of one for "bIof" make a GET of "b" return the latter |
| BmcLimits.NewerIgnored | samples/bmc/src/main.rs:421-440 | from any table without valid entries, after a reply for "b" any further complete response for "b" changes nothing and a GET returns the first |
| BmcLimits.KeyReadWholeIff | samples/bmc/src/main.rs:402-412 | the fill loop reads a whole key if and only if it has at most 224 bytes, and hashes its first 224 otherwise |
| BmcLimits.LongKeyServedUnderPrefix | samples/bmc/src/main.rs:404-411 | a response for a longer key is served under its first 224 bytes |
| BmcPacket.WrapGetCommand | tools/memcached_benchmark/src/get_values.rs:37-45 | the printed bytes, between any headers for memcached and any trailer, parse back to the key, its offset and its hash, for every key of 1 to 230 bytes |
| BmcPacket.GetRoundTrip | samples/bmc/src/main.rs:337-385 | for every such key, a frame carrying the client's command, whatever follows it, parses to exactly that key, its offset and its hash |
| BmcPacket.NotGetIff | samples/bmc/src/main.rs:332-362 | in numbers: a frame is no GET if and only if it has its headers and lacks protocol 17, port 11211 or "get " behind byte 50; a frame too short for its headers panics |
| BmcPacket.GetParsed | samples/bmc/src/main.rs:117-135 | a key of up to 230 bytes that a CR follows is found behind any number of spaces below 1496, with its offset and hash, unless there are 202 or more and fewer than 231 bytes are left, which panics |
| BmcPacket.OtherGetsParsed | samples/bmc/src/main.rs:119-135 | a space behind the key means more keys, a CR in its place no key |
| BmcPacket.SpacesParsed | samples/bmc/src/main.rs:369-376 | nothing but spaces behind "get " is no key in frames of 55 to 256 bytes and panics in all others of up to 1550 |
| BmcPacket.ParseRequest | samples/bmc/src/main.rs:332-385 | the filter up to the lookup: a panic, on any frame too short for an IP header included, not a GET, no key, more keys, or the key |
| BmcPacket.ParseKeyBytes | samples/bmc/src/main.rs:117-135 | the scan at the head of `hash_key`, with its bound from an offset truncated to eight bits |
| BmcPacket.ParsedHash | samples/bmc/src/main.rs:117-138 | what is parsed is a key, and the hash that comes with it is the key's |
| BmcPacket.Frame.SwapFields | samples/bmc/src/main.rs:92-98 | the loop exchanges two fields and changes nothing else |
| BmcPacket.Frame.TurnAround | samples/bmc/src/main.rs:160-176 | link, network and transport addresses are exchanged |
| BmcPacket.Frame.WriteHeaders | samples/bmc/src/main.rs:247-260 | the five writes, in their order, leave every byte as a per-byte description says: both lengths grown by the padding, the IP checksum that of the lengthened header, the UDP checksum zero, everything else as it was |
| BmcPacket.Frame.WritePayload | samples/bmc/src/main.rs:262-269 | from the given place on the frame is the cached bytes and "END\r\n", in bounds, and elsewhere as it was |
| BmcPacket.Frame.WriteReply | samples/bmc/src/main.rs:226-275 | the whole reply frame, or the frame as it was when the tail could not be moved |
| BmcPacket.ReplyPayload | samples/bmc/src/main.rs:234-269 | behind the headers the frame is the cached bytes and "END\r\n", and ends there |
| BmcPacket.ReturnedOnWire | samples/bmc/src/main.rs:160-176 | in numbers: the bounced request has bytes 0 to 5 and 6 to 11, 26 to 29 and 30 to 33, 34 to 35 and 36 to 37 exchanged and every other byte as it came |
| BmcPacket.ReplyOnWire | samples/bmc/src/main.rs:160-269 | in numbers: the reply has its length, the same exchanges, the other header bytes kept but the lengths and checksums, bytes 40 and 41 zero, and ends in the cached bytes and "END\r\n" from four bytes before the key |
| BmcPacket.HeaderFields | samples/bmc/src/main.rs:247-260 | only the two length fields and the two checksums are rewritten |
| BmcPacket.WrappingIsExactIff | samples/bmc/src/main.rs:250-258 | adding a padding as `u16`, negative or not, gives the right new length if and only if the old length was right |
| BmcPacket.ReplyLengthsIff | samples/bmc/src/main.rs:234-260 | the announced IP and UDP lengths miss the end of the reply by so many bytes if and only if they missed the end of the request by as many; in particular they fit if and only if they did before, longer or shorter |
| BmcPacket.PaddingCutsReply | samples/bmc/src/main.rs:255-269 | behind a request followed by link-layer padding, the announced datagram is the cached bytes and "END\r\n" cut by as many bytes |
| BmcPacket.ReplyGoesBack | samples/bmc/src/main.rs:160-178 | every header byte not rewritten comes from the request, with addresses and ports exchanged |
| BmcPacket.ReplyIpHeader | samples/bmc/src/main.rs:249-252 | the reply's IP header is the request's with its new length, stamped |
| BmcPacket.ReplyVerifiesIff | samples/bmc/src/main.rs:249-252 | it verifies at the receiver if and only if the checksum's single fold leaves no carry |
| BmcPacket.Answer | samples/bmc/src/main.rs:159-275 | behind a potential hit the frame becomes the reply, or the turned request when the entry does not match, or is dropped when the tail cannot be moved |
| BmcPacket.ReceiveGet | samples/bmc/src/main.rs:341-390 | the UDP branch, with any packets handled by other CPUs between its two lookups; unless the first lookup finds the key the frame passes unmodified |
| BmcPacket.OthersHandled | samples/bmc/src/main.rs:332-391 | what is handed on as it came: frames too short for their headers panic, what is no GET or has no key passes, several keys are reported |
| BmcPacket.TailRefused | samples/bmc/src/main.rs:236-244 | a request that would be answered is dropped when the tail cannot be moved |
| BmcPacket.ReceiveTcp | samples/bmc/src/main.rs:278-329 | in numbers: a TCP frame of at least 58 bytes with bytes 36 and 37 those of port 11211 advances the table by a SET of its bytes from 54 on, any other leaves it, and one of fewer than 54 bytes panics |
| BmcPacket.Receive | samples/bmc/src/main.rs:331-391 | the whole receive filter, in numbers: a frame with byte 23 equal to 6 passes unchanged and advances the table by a SET of its bytes from 54 on if and only if it goes to port 11211 with four bytes of payload; all others leave the table to the other CPUs, and only a found key changes the frame |
| BmcPacket.Transmit | samples/bmc/src/main.rs:468-491 | the whole transmit filter, in numbers: the table advances by the response in bytes 50 on if and only if the packet is UDP from port 11211 and starts there with "VALUE "; and exactly when it panics |
| BmcEndToEnd.SlotAgreement | samples/bmc/src/main.rs:122-138 | the GET, SET and VALUE loops, bounded differently, agree: for the key of any parsed GET of up to 224 bytes, any SET of it and any response for it have its hash and slot |
| BmcEndToEnd.AnswerIsServerReply | samples/bmc/src/main.rs:189-275 | over any run with whole replies, the frame sent on a hit carries a reply of the server for the key, seen after its last SET, and nothing else behind the headers |
| BmcEndToEnd.CommandIsAnswered | samples/bmc/src/main.rs:331-391 | from the bytes that the client printed, with anything behind them and anything happening between the two lookups: a key not held at the first passes unmodified, a key held at both is answered with a current reply of the server |
| BmcEndToEnd.BouncedIff | samples/bmc/src/main.rs:270-274 | the request itself goes back to the client if and only if the key is held at the first lookup and not at the second |
| BmcEndToEnd.SetBetweenBounces | samples/bmc/src/main.rs:270-274 | so does every request with a SET of its key as the last packet between the lookups |
| BmcEndToEnd.SetFrameMissed | samples/bmc/src/main.rs:278-391 | from frames: after a TCP frame whose payload sets a key, anywhere in it, the next GET frame for the key passes unmodified, in every run and whatever happens between its lookups |
| BmcEndToEnd.HeldIsAnswered | samples/bmc/src/main.rs:341-391 | a GET frame for a key that is held, behind up to 201 spaces, is answered with a current reply of the server behind the headers and these spaces |
| BmcEndToEnd.ResponseFrameServed | samples/bmc/src/main.rs:331-491 | from frames: after the packet that carries a complete reply for a key in use, a GET frame for it is answered so |
| BmcEndToEnd.ShortKeyReplyCut | samples/bmc/src/main.rs:255-260 | the reply for a key of one to three bytes, whose request Ethernet padded to 60, announces a datagram that ends inside "END\r\n", after its first two to four bytes |
| Ipv4Checksum.ComputeIpChecksum | rex/src/xdp/xdp_impl.rs:31-47 | the loop clears the field and returns the complement of the once-folded sum of the words |
| Ipv4Checksum.FoldModulo | rex/src/xdp/xdp_impl.rs:45-45 | folding carries keeps the sum modulo 65535, and is zero only for zero |
| Ipv4Checksum.ByteOrder | rex/src/xdp/xdp_impl.rs:37-43 | summing in the other byte order multiplies by 256 modulo 65535 |
| Ipv4Checksum.VerifiesInEitherOrder | rex/src/xdp/xdp_impl.rs:37-43 | so a header verifies in network order if and only if it does in host order |
| Ipv4Checksum.ChecksumIsRfcIff | rex/src/xdp/xdp_impl.rs:31-47 | the result is the checksum of sections 1 and 2 of RFC 1071 if and only if the single fold leaves no carry |
| Ipv4Checksum.FoldSwapped | rex/src/xdp/xdp_impl.rs:37-45 | the folded network-order sum is the folded host-order sum with its octets exchanged |
| Ipv4Checksum.StoredIsNetworkIff | rex/src/xdp/xdp_impl.rs:31-47 | the stored bytes are those of the checksum over the network-order words if and only if the single fold leaves no carry |
| Ipv4Checksum.StampedVerifiesIff | rex/src/xdp/xdp_impl.rs:31-47 | storing it makes the header verify if and only if the single fold leaves no carry |
| Ipv4Checksum.CarryExample | rex/src/xdp/xdp_impl.rs:45-46 | a header on which it does, and which does not verify |
| Ipv4Checksum.KnownHeader | rex/src/xdp/xdp_impl.rs:31-47 | a well-known header gets its known checksum bytes 0xB8, 0x61 and verifies |
| Ipv4Checksum.SwapKeepsChecksum | samples/bmc/src/main.rs:166-171 | exchanging source and destination keeps validity, both ways, and the checksum |
| AlignedView.AlignedMut.constructor | rex/src/utils.rs:245-263 | the view's value is the bytes of the slice, in either representation |
| AlignedView.AlignedMut.Get | rex/src/utils.rs:151-166 | reading sees the value, in either representation |
| AlignedView.AlignedMut.Set | rex/src/utils.rs:168-181 | writing changes the value at the field only, and no byte outside the struct |
| AlignedView.AlignedMut.Drop | rex/src/utils.rs:183-194 | a copied value goes back to its bytes; a reference leaves the slice as it is |
| AlignedView.UseView | rex/src/utils.rs:124-194 | for any accesses, what is read and every byte of the buffer after the drop are the same in both representations; a slice that is too short panics and changes nothing |
| AlignedView.LastWriteWins | rex/src/utils.rs:168-181 | each byte of the final value is the one last written to it, or the original one |
| AlignedView.ReadSeesLastWrite | rex/src/utils.rs:151-166 | each byte that a read returns is the one last written there, or the original one; a write returns nothing |
| BoundedWriter.TextBuffer.WriteStr | rex/src/log.rs:34-52 | a string is accepted if and only if it fits with its terminator, is then appended and terminated, and otherwise nothing changes |
| BoundedWriter.TextBuffer.Store | rex/src/log.rs:43-49 | the copy, the terminator and the offset |
| BoundedWriter.TextBuffer.WriteRingStr | rex/src/map.rs:335-355 | the same for a reservation; it panics if and only if both are empty |
| BoundedWriter.TextBuffer.WriteEach | rex/src/log.rs:34-52 | after any writes the buffer holds exactly the accepted strings, terminated once one was accepted, and is untouched if none was |
| BoundedWriter.TextBuffer.WriteFormatted | rex/src/panic.rs:182-182 | `write!` succeeds if and only if the whole text fits, and then the buffer holds it |
| BoundedWriter.TextBuffer.PanicMessage | rex/src/panic.rs:181-186 | the message is the whole formatted text or the whole fallback, terminated in bounds unless there was nothing to format |
| LoaderPatch.ParseMaps | librex/lib/librex.cpp:416-437 | the table holds exactly the addresses of 32-byte map objects, each with the name of its first symbol |
| LoaderPatch.AnyOrderWellPlaced | librex/lib/librex.cpp:416-437 | whatever aliases there are, the definitions in any order of iteration are in the section and disjoint |
| LoaderPatch.FixMaps | librex/lib/librex.cpp:607-646 | every pointer field of a created map holds its descriptor and no other byte of the file differs; it fails at the first map that cannot be created |
| LoaderPatch.PatchOne | librex/lib/librex.cpp:623-643 | writing one descriptor keeps those already written and adds its own |
| LoaderPatch.FileBytes | librex/lib/librex.cpp:632-643 | in numbers: 24 bytes into each definition, at its place in the section's content, stand the eight octets of its descriptor, the lowest first |
| LoaderPatch.OtherBytes | librex/lib/librex.cpp:632-643 | every byte of the file outside these eight of each definition is as it was |
| LoaderPatch.U64RoundTrip | librex/lib/librex.cpp:641-642 | the stored bytes read back as the descriptor |
| LoaderPatch.DefinitionsReread | librex/lib/librex.cpp:104-108 | the metadata of every definition reads the same after patching |
| LoaderPatch.SameFileIff | librex/lib/librex.cpp:623-643 | two iterations over the same maps give the same file if and only if each map gets the same descriptor in both |
| LoaderPatch.SameFileIffSameOrder | librex/lib/librex.cpp:623-643 | with distinct descriptors handed out in order of creation, two orders of iteration give the same file if and only if they are the same order |
| LoaderPatch.TwoOrdersDiffer | librex/lib/librex.cpp:632-642 | two maps visited in either order, the first getting descriptor 3 and the second 4, make two different files |
| LoaderPatch.SentAddressFindsDescriptor | librex/lib/librex.cpp:664-665 | in every order of iteration, each address sent to the kernel translates into exactly one patched field, which holds that map's descriptor |

## Left out

- Kernel helpers, maps, the ring buffer itself and `bpf_clone_redirect` appear as what they return or hand over.
- Inline assembly, per-CPU addressing, the stack check and the unwinding metadata.
- The stack overflow panic is an ordinary program panic here.
- Helpers that panic in their own body or call other helpers inside a `termination_check!` other than the constructors.
- RexCpuObject.RexCpu.NewSpinlockGuard: a call for a lock that is already held never returns, so it is described for a free lock; the step relation has no step there.
- Ticks elsewhere than at the end of a `termination_check!` are in the step relation, not in the methods of `RexCpu`.
- Multi-key GETs: parsing reports them; the loop over keys, which scans the first one again in each round, is not described.
- BMC statistics other than the update, SET, invalidation and misprediction counts.
- BmcCoherence.HitIsCurrentResponse: relative to the packets that the filters have seen, not to memcached's own order of a response in flight and a SET.
- BmcCache.Cache.Update: map lookups, which cannot fail on an in-range index, always succeed.
- ElectrodeBroadcast.HandleBroadcast: the destination written into the headers is represented by the replica's number; a failing clone, which the handler turns into a panic, is not described.
- The byte offsets from which Electrode decodes its fields, `compute_message_type` and the contents of `prepare_fast_reply`.
- User-space updates of Electrode's control state between packets.
- `Aligned`, the shared view, which is `AlignedMut` without writes.
- ELF parsing, relocation and symbol handling, the temporary file and the system calls of the loader.
- Procedural macros, build scripts, loaders, benchmarks and the other samples.
