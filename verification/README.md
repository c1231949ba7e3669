# perf-agent: a Dafny model of its evidence-keeping protocols

perf-agent profiles CPUs and GPUs together. Most of its difficult code exists so that it
never gives a confident wrong answer: a lossy stream of sampling windows that must not be
read as proof of a gap, a stack walk that stops mid-way and is resumed by another program,
stacks handed from kernel to user space under reusable handles, samples and launches that
wait in bounded stores for the execution they belong to. This project models that code and
proves what it promises, for every input, every run or every reachable state.

Each module follows one component. Code that changes things in place is a class or a method
with a loop, proved against a function or a predicate; the laws are lemmas about those.

| module | component |
|---|---|
| `Serialization`, `Disclosure`, `WindowTransport` | the store of sampling windows, its soundness against the producer's true history, and the sequence numbers that flag losses |
| `DisclosureLimits`, `Exposure`, `DisclosureLosses` | exactly what eviction does to an answer, exactly when a store is wrong whatever reached it in whatever order, which promises must be strict and which losses flagged |
| `Unwind`, `CallChain`, `Handoff`, `Transparency`, `WalkVerdict`, `CfiSearch` | the hybrid stack walker, the stacks it recovers, its handoff to interpreter modules, how a finished walk is filed, the bounded table search |
| `Wire`, `Capture`, `Probe`, `StackHandles` | the byte layouts, the published record, the probe program and its decoder, the stack-handle protocol |
| `KernelNames`, `HeldEvents`, `NameDelivery` | events held until their kernel's name arrives, and which of them are delivered under it |
| `BoundedFifo`, `LaunchCache`, `PendingSamples` | the lazy-deletion FIFO and its owners |
| `ExecutionRing`, `SampleJoin`, `SampleConservation`, `HeuristicJoin`, `GraphRefusal` | the timeline: rings and snapshots, PC-sample joins, the heuristic launch join, the CUDA-graph refusal |
| `Weights`, `Projection`, `ProjectionMemo`, `SnapshotWeights` | durations split over samples, labels, the memo that shares them, and what the probe can make the split divide by |
| `ModuleStore`, `Admission` | the LRU of GPU binaries and the two-bucket sink |
| `Machine`, `GpuEvents` | fixed-width integers and the shared event types |

## Where the code and its comments part ways

The model follows the code. Each of these is proved, with the exact condition.

- Eviction is said to move answers in one direction only, from "false" to "unknown". It also
  turns "serialized" into "unknown", every time the window dropped is a closed serialized burst
  (`DisclosureLimits.DroppedForgotten`, `OverflowForgets`; reached by runs, `EvictionCanForget`),
  and it can make an answer "not serialized", from "unknown" or from "serialized"
  (`EvictionCanSettle`). `EvictionExact` gives every transition as a condition on the windows;
  `EvictionConcedesIff` says when the claim holds of every interval: the dropped window is no
  closed burst and, if it cannot be read, exposes no instant still covered. Of disjoint windows,
  as an honest producer sends them, only dropping an open one makes anything "not serialized"
  (`DisjointSettlesIff`), and soundly so.
- A flagged record older than the coverage start moves it backwards (`CoverageCanRetreat`),
  unless the history is full and the record is the one dropped (`CoverageForwardIff`).
- The quiet promise has to be strict. An orderly history never misleads if and only if every
  promise is kept strictly by the serialized bursts after it (`DisclosureLosses.PromiseIff`).
- Not every loss has to be flagged, and not every loss is. In-order delivery never misleads a
  store of any size if and only if every hole that swallows a serialized burst after a record
  that reads as closed is flagged (`LossIff`). Records the sink refuses, which the consumer
  counts but flags nowhere (`gpuprobe/consumer.go:2523`), are such holes and do mislead
  (`SinkRefusalMisleads`). So are records cut off at the cap of 64 to a fire
  (`BatchCapMisleads`), exactly when the cut swallows a serialized burst and the next fire
  arrives (`CapIff`); the shipped adapter sends one window to a fire
  (`shim/nvidia/cupti_adapter.cc:1284`), so that takes another producer.
- Fires that overtake each other mislead even with every gap flagged (`OvertakingMisleads`).
  Which arrivals are safe is `Exposure.AnyOrderIff`, for any order, loss, repetition and store
  size, and `MissedIff` in terms of the arrivals alone: their order matters only through the
  last restart of coverage. `TransportIff` is the same from the producer's fires on.
- A table miss does not stop the walk (`bpf/unwind_common.h:880`); it is flagged and the
  walk goes on by frame pointer. `Unwind` models that.
- A walk stopped by a zero return address with all 127 slots filled is filed as truncated,
  not abandoned (`RaZeroCanReadTruncated`), and that is the only case (`RaZeroAbandonedIff`).
- A stack of 128 frames whose frame pointers end at the 127th is filed as complete although
  its last frame was not recorded (`CutCanReadComplete`); `FiledAsWalked` says how every other
  stack is filed.
- The comment that the 128-bit division cannot panic is wrong: it panics for some duration if
  and only if some clamped count exceeds the 64-bit total (`Weights.PanicIff`), which takes a
  total that wrapped; two counts of 2^63 do it (`TwoHalvesPanic`), three do not
  (`ThreeHalvesDoNot`). Short of a panic the split is exact for every duration if and only if
  the counts sum below 2^64 (`SplitExactIff`). Such counts come only from a caller other than
  the probe, whose counts are 32 bits wide: over every run fed by it, into stores of the
  shipped sizes or any up to 2^32 samples to an execution, no snapshot panics and every one
  conserves its durations (`SnapshotWeights.ProbeNeverPanics`).
- A CUDA-graph refusal is said to latch. Its per-process counter is 64 bits and wraps: two
  deltas of 2^63 undo it (`GraphRefusal.RefusalCanLapse`); `RefusedIff` and `RefusalLatches`
  say exactly when it holds.
- A producer's tag is said never to forge a reserved label. Under `gpu_pid`, `gpu_queue`,
  `gpu_device`, `gpu_ambiguous` and `gpu_sample_period` it survives exactly when the profiler
  has nothing of its own to say, and under `gpu_correlation` when it has nothing to say and
  that label is not left out altogether (`Projection.TagSurvivesIff`).

## Model

| member | source | states |
|---|---|---|
| `Serialization.WindowStore.Add` | gpu/serialization.go:162-228 | a record changes one process's history as `AddRecord` says; it is refused or received, received = superseded + evicted + growth of that history, and the refused and unknown-mode counters rise exactly when they should |
| `Serialization.Window.ProvenQuietUntil` | gpu/serialization.go:72-84 | the instant a promise reaches, in unbounded arithmetic: none if the window never closed, promised nothing or promised past 2^64; the end of time for "never"; otherwise its end and a million nanoseconds for every millisecond promised |
| `Serialization.WindowStore.CoverageEndNs` | gpu/serialization.go:249-293 | the loop computes the coverage end of the ordered windows |
| `Serialization.CoverageEndExact` | gpu/serialization.go:249-293 | coverage ends at the first eligible open window's start, else at the furthest end or promise of an eligible window, else there is none |
| `Serialization.WindowStore.ClassifyExecution` | gpu/serialization.go:295-344 | the classification loop equals the specification the soundness theorem is about |
| `DisclosureLimits.AnswerIff` | gpu/serialization.go:295-344 | "serialized" iff a closed serialized window meets the interval; "not serialized" iff nothing in the way meets it and it is covered |
| `Serialization.AppendSorted` | gpu/serialization.go:214-217 | appending and sorting only when out of order is insertion in place |
| `Serialization.AddKeepsHistories` | gpu/serialization.go:162-228 | start order and both bounds survive every record, whatever it says |
| `Disclosure.RunLinked` | gpu/serialization.go:162-293 | inductive invariant over every run: each serialized burst up to the latest delivery is held, over before coverage, or in the shadow of an open window, and the latest burst is held as its record reads |
| `Disclosure.FutureOutside` | gpu/serialization.go:72-84 | no serialized burst after the last delivered one starts inside coverage, given strictly kept promises |
| `Disclosure.DisclosureSound` | gpu/serialization.go:72-340 | an interval answered "not serialized" meets no serialized burst of the true history, seen, lost, evicted or future, if every hole that swallows a serialized burst is flagged |
| `Disclosure.SerializedSound` | gpu/serialization.go:295-344 | an interval answered "serialized" meets a real serialized burst |
| `DisclosureLimits.EvictionCanSettle` | gpu/serialization.go:218-227 | reached by runs: the overflow turns an answer into "not serialized", from "unknown" or from "serialized" |
| `DisclosureLimits.EvictionExact` | gpu/serialization.go:218-227 | for every ordered history one over its bound and every interval, each transition as a condition on the windows: never newly "serialized"; "serialized" is lost iff the dropped burst alone made it so; "not serialized" is gained iff the dropped window alone stood in the way of what is still covered; "not serialized" becomes "unknown" iff coverage left it |
| `DisclosureLimits.ConcedesIff` | gpu/serialization.go:38-45 | one answer moves at most from "not serialized" to "unknown" iff the dropped window was not all that decided it |
| `DisclosureLimits.EvictionConcedesIff` | gpu/serialization.go:38-45 | eviction does no more than that to any interval iff the dropped window is no closed burst and, if it cannot be read, no instant still covered was met by it alone |
| `DisclosureLimits.DroppedForgotten` | gpu/serialization.go:218-227 | dropping any closed serialized burst turns a "serialized" answer into "unknown" |
| `DisclosureLimits.OverflowForgets` | gpu/serialization.go:214-227 | so does every newer record entering a full history whose oldest window is one |
| `DisclosureLimits.EvictionCanForget` | gpu/serialization.go:218-227 | reached by runs: "serialized" becomes "unknown", the windows disjoint and closed |
| `DisclosureLimits.EvictionSettlesIff` | gpu/serialization.go:38-45 | eviction makes some answer "not serialized" iff the dropped window stood in the way and met an instant still covered that no kept window in the way meets; needs it open or ending at or after the new coverage start, and at that start it is exact |
| `DisclosureLimits.DisjointSettlesIff` | gpu/serialization.go:38-45 | of disjoint windows an answer is settled iff the dropped window was open |
| `DisclosureLimits.OverflowExact` | gpu/serialization.go:214-227 | the same of the store: a record overflowing a full history against the same record with one more place |
| `Exposure.WrongIff` | gpu/serialization.go:249-344 | a store holding records of the true history is wrong about a serialized burst iff it does not hold it, covers up to its end, holds a later window and no open one before it |
| `Exposure.AnyOrderIff` | gpu/serialization.go:162-344 | the same of every run: records in any order, lost, repeated, flagged or not, evicted, among other processes' |
| `Exposure.MissedIff` | gpu/serialization.go:162-344 | with room for all arrivals, wrong iff nothing of the burst arrived, coverage restarted last before it, something later arrived and every earlier burst that arrived is known closed |
| `DisclosureLimits.CoverageCanRetreat` | gpu/serialization.go:191-227 | reached by a run: a flagged older record moves the coverage start back, and does not in a full history |
| `DisclosureLimits.CoverageForwardIff` | gpu/serialization.go:191-227 | for every history within its bound, the coverage start does not move back iff the record carries no loss, starts no earlier, or is itself dropped from a full, covered history |
| `DisclosureLosses.StrictPromiseNeeded` | gpu/serialization.go:72-84 | for every history, a promise reaching a later serialized burst makes the run that delivers only its close wrong at that burst's start |
| `DisclosureLosses.PromiseIff` | gpu/serialization.go:72-84 | an orderly history misleads under no in-order delivery iff every promise is strictly kept by the serialized bursts after it |
| `DisclosureLosses.LossIff` | gpu/serialization.go:191-198 | of a truthful history delivered in order, no moment misleads a store of any size iff every hole that swallows a serialized burst is flagged |
| `DisclosureLosses.SinkRefusalMisleads` | gpuprobe/consumer.go:2495-2530 | records the sink refuses are holes nobody flags: every record arrives in order in a fire of its own, and for every three bursts with a serialized middle the answer is wrong |
| `DisclosureLosses.TransportIff` | gpuprobe/consumer.go:2051-2307 | end to end, over every cut, loss, reordering, repetition and refusal: wrong about a burst iff what the store holds is exposed there, and with room iff what it was given missed it |
| `DisclosureLosses.CapIff` | bpf/gpu_usdt.bpf.c:698-705 | fires in order, some lost, each cut at the cap: no moment misleads a store of any size iff no cut between two consecutive arrivals swallows a serialized burst |
| `DisclosureLosses.UncutHarmless` | bpf/gpu_usdt.bpf.c:698-705 | a fire within the cap does no harm |
| `DisclosureLosses.BatchCapMisleads` | bpf/gpu_usdt.bpf.c:698-705 | a fire of more than 64 windows whose cut swallows a serialized burst makes the answer wrong at that burst's start |
| `DisclosureLosses.OvertakingMisleads` | gpuprobe/consumer.go:2051-2073 | fires that overtake each other mislead even with every gap flagged |
| `WindowTransport.SequenceTracker.NoteSeq` | gpuprobe/consumer.go:2063-2073 | the gap charged to an arrival, the stream's new position, and the gap total |
| `WindowTransport.GapsFlagged` | gpuprobe/consumer.go:2063-2073 | whichever numbered batches arrive in whatever order, the records handed on are in order with every loss flagged iff no batch overtook another |
| `WindowTransport.DisclosureSoundEndToEnd` | gpuprobe/consumer.go:2294-2307 | the soundness theorem from numbered batches to the answer, whatever the transport drops and other processes send |
| `Unwind.WalkCtx.Push` | bpf/unwind_record.h:347-372 | a native frame is appended under its tag, or refused on a full record, and nothing else changes |
| `Unwind.WalkCtx.PushInterp` | bpf/unwind_record.h:392-405 | a pair is appended whole or not at all |
| `Unwind.WalkCtx.UnwindFrame` | bpf/unwind_common.h:801-1102 | one frame in place equals the step function on values, stop decision included |
| `CallChain.WalkExact` | bpf/unwind_common.h:801-1102 | stated on addresses, for any memory and tables: of any chain of activations the walk records the first 127 instruction pointers in order, and its flags say exactly how the chain ends |
| `CallChain.StackExists` | bpf/unwind_common.h:801-1102 | there is such a chain from any start, so every record is one |
| `Handoff.SplitSlots` | unwind/interp/frame.go:148-175 | the consumer's loop parses words and tags, however few tags, uniquely into native frames and whole pairs |
| `Handoff.PushedReadsBack` | bpf/unwind_record.h:347-405 | a frame or pair pushed where there is room reads back as the last one, whole; otherwise it is refused, flagged, and the record is as it was |
| `Handoff.RunInv` | bpf/unwind_common.h:801-1270 | in every state of every run the record is whole and within 127 slots, at most one ending flag is set, ROOT_DISAGREEMENT implies FP_TERMINATED, the other endings exclude it, and claims are accounted for |
| `Handoff.DispatchBounds` | bpf/unwind_common.h:1119-1270 | at most 10 dispatches and 30 tail calls; claimed = dispatched + refused for budget |
| `Handoff.OfferedIff` | bpf/unwind_common.h:704-745 | a frame is offered to the unwinder that claims it, is not the native walker and has not declared itself done, and to no other |
| `Handoff.NotOfferedAgain` | bpf/unwind_common.h:704-745 | over every run, one that declared itself done is not offered another frame |
| `Handoff.OneFramePastRoot` | bpf/unwind_common.h:601-603 | after FP_TERMINATED at most one more native frame is ever pushed |
| `Transparency.WalkInPlace` | bpf/unwind_common.h:1180-1226 | the in-place loop without handoffs leaves the reference record, whatever the scratch held |
| `Transparency.HandoffTransparent` | bpf/unwind_common.h:801-1270 | for any memory, tables and modules, the native frames recorded are a prefix of those recorded with handoffs off |
| `Transparency.HandoffComplete` | bpf/unwind_common.h:1119-1270 | a sample all of whose claims were dispatched, taken up and handed back ends with every native frame of the walk without handoffs, unless the record filled up |
| `Transparency.DisabledIsPlain` | bpf/unwind_common.h:1180-1226 | with handoffs off the finished record is exactly the reference one |
| `WalkVerdict.WalkStats.Note` | gpuprobe/consumer.go:2829-2909 | a walk moves its cause counters and exactly the ending counter its flags and size call for |
| `WalkVerdict.VerdictHonest` | gpuprobe/consumer.go:2829-2909 | every exhausted, non-monotonic or disagreeing walk is abandoned; a walk the tables confirmed is complete; one with no cause is truncated iff it filled the record, else abandoned |
| `WalkVerdict.CausesDisjoint` | gpuprobe/consumer.go:2829-2844 | no reachable walk moves two of the named cause counters |
| `WalkVerdict.RaZeroAbandonedIff` | gpuprobe/consumer.go:2892-2909 | a zero-return-address walk is abandoned if and only if the record has room left |
| `WalkVerdict.RaZeroCanReadTruncated` | gpuprobe/consumer.go:2892-2896 | from a real start such a walk of exactly 127 slots exists and is filed as truncated |
| `WalkVerdict.FiledAsWalked` | gpuprobe/consumer.go:2829-2909 | how every stack is filed, by how it ends and how long it is |
| `WalkVerdict.CutCanReadComplete` | bpf/unwind_common.h:1060-1074 | a stack of 128 frames can be filed as complete with 127 of them |
| `CfiSearch.Lookup` | bpf/unwind_common.h:427-447 | the bounded loop equals the halving function for any rows, wrapping ones included; a row returned covers the pc |
| `CfiSearch.SearchExact` | bpf/unwind_common.h:427-447 | a covered pc is found iff the search is given the halvings its row's index takes |
| `CfiSearch.CompleteIff` | bpf/unwind_common.h:388-447 | for every sorted table, the search is complete iff every row that holds anything is within reach |
| `CfiSearch.BoundTight` | bpf/unwind_common.h:388-447 | n halvings are complete below 2^n rows; from 2^n on every lookup in the first row fails |
| `CfiSearch.BoundExact` | bpf/unwind_common.h:388-447 | 24 halvings are complete below 2^24 rows; from 2^24 on every lookup in the first row returns nothing |
| `Wire.DecodeGPUStack` | gpuprobe/consumer.go:2725-2746 | what is decoded, field by field, from any bytes; refused exactly when too short |
| `Wire.StackRoundTrip` | bpf/gpu_usdt.bpf.c:516-567 | decoding a published stack yields the count, flags, words and tags that were published |
| `Capture.FlagsRoundTrip` | bpf/unwind_common.h:546-571 | each walk flag is read back from its own bit |
| `Capture.ReadBack` | bpf/gpu_usdt.bpf.c:516-567 | publishing and decoding a record gives exactly this sample's slots and flags, whatever the scratch held above them |
| `Capture.ReadFrames` | gpuprobe/consumer.go:2725-2746 | a whole record read back splits into the frames pushed, none cut in half |
| `Probe.CapFits` | bpf/gpu_usdt.bpf.c:334-400 | as many records as the cap allows fit the payload, and at least one does |
| `Probe.KindCaps` | bpf/gpu_usdt.bpf.c:334-402 | each kind's record size and how many fit one message |
| `Probe.Driver.Fire` | bpf/gpu_usdt.bpf.c:581-754 | submitted + newly dropped = count for every fire of any kind, every submitted header is sound, and a batch carries a handle exactly when it is a sampled launch whose stack was published, through the parked batch and its walk; a batch is submitted iff there is something to submit, ring space and readable memory, and is the producer's records under its own header |
| `Probe.Driver.SampledWalk` | bpf/gpu_usdt.bpf.c:581-641 | the parked batch is sent under the handle its stack was published with, or under none and counted, or dropped and counted |
| `Probe.DecodeBatch` | gpuprobe/consumer.go:1899-2049 | each refusal happens exactly for its own cause, and nothing else is refused; otherwise the header fields and exactly the records |
| `Probe.Receive` | gpuprobe/consumer.go:1899-2049 | a submitted message is never refused for its length and its records come back |
| `StackHandles.HandlesCollideIff` | bpf/gpu_usdt.bpf.c:461-473 | two handles are equal if and only if CPU index and counter agree modulo their bit fields |
| `StackHandles.PublishIff` | bpf/gpu_usdt.bpf.c:457-580 | a capture is published under its CPU's next handle iff it walked anything, fewer than 4096 stacks wait and none under that handle; its own counter advances and nothing else changes |
| `StackHandles.StackMap.PublishStack` | bpf/gpu_usdt.bpf.c:516-567 | insert only if absent and there is room; each reason for -1 moves its own counter |
| `StackHandles.ConsumerReadsOwnCapture` | gpuprobe/consumer.go:2632-2651 | under every interleaving the entry read for a batch is that batch's own capture |
| `StackHandles.InFlightDistinct` | bpf/gpu_usdt.bpf.c:516-641 | batches in flight with non-negative handles have distinct handles |
| `HeldEvents.KernelNameTable.Put` | gpuprobe/kernelnames.go:78-107 | a replay replaces in place, a new name goes last and pushes out the oldest beyond capacity; the number pushed out |
| `HeldEvents.PendingNames.Push` | gpuprobe/kernelnames.go:138-144 | a full queue releases its oldest event for the new one |
| `HeldEvents.PendingNames.TakeByKernel` | gpuprobe/kernelnames.go:158-175 | takes exactly one kernel's events, oldest first, and leaves the others in order |
| `HeldEvents.Consumer.Emit` | gpuprobe/consumer.go:3082-3160 | an event is sunk named, held, or sunk unnamed, as the specification says; the unresolved counter is the events sunk without a name |
| `HeldEvents.Consumer.LearnName` | gpuprobe/consumer.go:3176-3195 | interning a name releases every event waiting on it, in order; truncated, evicted and unresolved counters exact |
| `HeldEvents.Consumer.FlushNames` | gpuprobe/consumer.go:3205-3209 | everything held is sunk unnamed, in order, and counted |
| `KernelNames.InternValid` | gpuprobe/kernelnames.go:50-91 | the order lists each interned name once, within capacity, the new one always present |
| `KernelNames.HeldOnceInOrder` | gpuprobe/consumer.go:3082-3209 | over every run no held event's kernel is named, and each kernel's emitted events are those sunk followed by those held |
| `KernelNames.FlushEmpties` | gpuprobe/consumer.go:3205-3209 | after a flush nothing is held and every kernel's events were sunk, in order |
| `KernelNames.NamesTruthful` | gpuprobe/consumer.go:3082-3195 | every name an event was sunk under was learned for its own kernel |
| `NameDelivery.NamedAtOnce` | gpuprobe/consumer.go:3082-3150 | while all names fit, an event whose kernel's name was learned goes out at once under the latest one, marked if cut short |
| `NameDelivery.NamedLater` | gpuprobe/consumer.go:3152-3195 | an event held for a name that comes before a flush and before as many further events as may wait is delivered under it |
| `NameDelivery.EveryFate` | gpuprobe/consumer.go:3082-3209 | over every run, on the steps alone: each event is still waiting, or was delivered under the name known when it came, under the first that came for it, or under none because it has no kernel, no name had been seen, it overflowed or was flushed |
| `BoundedFifo.OrderedFIFO.Insert` | gpu/boundedfifo.go:74-78 | a fresh number and a new last position |
| `BoundedFifo.OrderedFIFO.EvictOldestLive` | gpu/boundedfifo.go:90-102 | dead positions are passed, the oldest live one is consumed |
| `BoundedFifo.OrderedFIFO.PeekOldestLive` | gpu/boundedfifo.go:111-123 | dead positions are passed, the oldest live one stays |
| `BoundedFifo.OrderedFIFO.Compact` | gpu/boundedfifo.go:132-139 | compaction is invisible to an owner |
| `BoundedFifo.InsertQueues` | gpu/boundedfifo.go:74-78 | inserting puts the key at the back of the plain queue wherever it stood |
| `BoundedFifo.EvictStep` | gpu/boundedfifo.go:90-123 | an eviction takes exactly the front of the plain queue, and fails only when the owner holds nothing |
| `BoundedFifo.DropSkips` | gpu/boundedfifo.go:40-50 | a key deleted behind the FIFO's back just leaves the queue |
| `LaunchCache.LaunchStore.Put` | gpu/launchcache.go:142-172 | refines the plain queue: observe, enqueue, horizon, capacity, with every counter |
| `LaunchCache.LaunchStore.EvictHorizon` | gpu/launchcache.go:250-265 | drops the stale prefix and counts it |
| `LaunchCache.LaunchStore.EvictCapacity` | gpu/launchcache.go:266-279 | keeps the newest entries that fit, counts the rest and those of them never joined |
| `LaunchCache.LaunchStore.Get` | gpu/launchcache.go:178-195 | the launch stored, and its entry joined |
| `LaunchCache.LaunchStore.MarkJoined` | gpu/launchcache.go:208-215 | joins the entry if it is still held |
| `LaunchCache.LaunchStore.ModelExact` | gpu/launchcache.go:134-137 | the plain queue lists each key of the map once |
| `LaunchCache.RecentExact` | gpu/launchcache.go:250-265 | everything the horizon dropped lay further back than it, and what is left starts with a launch that does not |
| `LaunchCache.RunHonest` | gpu/launchcache.go:142-279 | over every run: queue ordered by latest Put, each entry that Put with the joins since, at most Capacity, Puts = Live + Replaced + EvictedCapacity + EvictedHorizon, unjoined evictions = attributions lost by the history |
| `LaunchCache.RunRetains` | gpu/launchcache.go:142-279 | nothing else is lost: a launch put is held unless as many others as fit were put since or it lies beyond the horizon |
| `LaunchCache.ClockHonest` | gpu/launchcache.go:156-172 | the horizon's clock never runs back, moves to a launch's time alone and by no more than it may, and only a launch further ahead than that stays ahead of it |
| `PendingSamples.PendingStore.Add` | gpu/timeline.go:1023-1077 | refines the queue of groups; running total = true sum; the eviction counter rises by the refused sample, the stale groups and the overflow, as the store counts them |
| `PendingSamples.EvictionsCounted` | gpu/timeline.go:1054-1131 | those increments are exactly the samples that went missing |
| `PendingSamples.RecentExact` | gpu/timeline.go:1105-1121 | every group the horizon drops lies further back than it, and the first left does not |
| `PendingSamples.NewestExact` | gpu/timeline.go:1122-1131 | the newest groups that fit stay, all of them |
| `PendingSamples.PendingStore.EvictHorizon` | gpu/timeline.go:1105-1121 | drops stale groups whole, oldest first, their samples counted |
| `PendingSamples.PendingStore.EvictCardinality` | gpu/timeline.go:1122-1131 | keeps the newest groups that fit, the dropped samples counted |
| `PendingSamples.PendingStore.Take` | gpu/timeline.go:1510-1516 | removes one group whole and its size from the total |
| `PendingSamples.PendingStore.ContentsExact` | gpu/timeline.go:915-927 | the queue lists each key of the map once, with the map's group |
| `SampleJoin.SampleIndexes.EmitPCSample` | gpu/timeline.go:1023-1175 | routes by presence of a correlation value; each store's counter rises by its own evictions and no other |
| `SampleJoin.SampleIndexes.JoinExact` | gpu/timeline.go:1507-1517 | each execution in order takes what is left under its correlation |
| `SampleJoin.IndexByKernel` | gpu/timeline.go:1304-1311 | the index holds, for every process and name, its executions in order |
| `SampleJoin.FindTarget` | gpu/timeline.go:1335-1347 | the loop picks what `Pick` picks |
| `SampleJoin.PickExact` | gpu/timeline.go:1335-1347 | none if every candidate is served; otherwise the earliest start, ring order on ties |
| `SampleJoin.DecideExact` | gpu/timeline.go:1321-1359 | a group joins an unserved execution of its own process and kernel, the earliest, and waits only if there is none |
| `SampleJoin.WaitsIff` | gpu/timeline.go:1321-1351 | a group waits because it names no process, because its function has no name, or because every execution of that process and name was served already |
| `SampleJoin.DecideLabels` | gpu/timeline.go:1348-1359 | a group that joins is labelled multi-device iff its process was on several, else ambiguous iff at least two executions are of its process and kernel, else plain |
| `SampleJoin.PlacedWorst` | gpu/timeline.go:1361-1389 | an execution's label is the worst of the groups that joined it |
| `SampleJoin.ExactFirst` | gpu/timeline.go:1507-1517 | the first execution of a correlation takes everything waiting under it, any other nothing |
| `SampleJoin.ExactLeaves` | gpu/timeline.go:1507-1517 | what no execution named stays as it was |
| `SampleJoin.SampleIndexes.JoinModules` | gpu/timeline.go:1290-1389 | the join of the groups in the order given: shares, labels and each group counter |
| `SampleJoin.SampleIndexes.JoinPending` | gpu/timeline.go:1290-1389 | every group of the store once, in sorted order; the four counters sum to the groups |
| `SampleJoin.SortedKeys` | gpu/timeline.go:1315-1405 | the store's keys, each once, by process, binary, function and backend |
| `SampleJoin.PlacedLeaves` | gpu/timeline.go:1321-1380 | what stays waiting is exactly what did not join |
| `SampleConservation.SamplesConserved` | gpu/timeline.go:1023-1531 | at every lock release: emitted = attributed + both stores + dropped, as multisets, with the dropped samples counted exactly by the two counters as the code increments them; every group bounded, of its own key, anchored at its newest sample |
| `SampleConservation.DroppedCounted` | gpu/timeline.go:1054-1131 | what an emit drops, sample by sample, is what its counter counts and what the store no longer holds |
| `SampleConservation.DroppedWhy` | gpu/timeline.go:1054-1131 | a sample is dropped only if its own group is full, it lies beyond the horizon, or there are as many groups as fit |
| `SampleConservation.GroupedAlike` | gpu/timeline.go:727-751 | samples without a correlation wait with their own process, binary and function, under their module's backend or else their correlation's |
| `SampleConservation.ClockHonest` | gpu/timeline.go:1080-1095 | the clock both stores age by never runs back, moves to a sample's time alone and by at most a minute, and only a sample further ahead stays ahead of it |
| `SampleConservation.SamplesCounted` | gpu/timeline.go:1524-1531 | the same law in sample counts |
| `SampleConservation.AttributionSound` | gpu/timeline.go:1290-1531 | in every snapshot of every run each sample on an execution shares its correlation, or its process and kernel name |
| `ExecutionRing.Ring.Push` | gpu/timeline.go:2054-2064 | append, or overwrite the oldest and say so |
| `ExecutionRing.Ring.Items` | gpu/timeline.go:2098-2105 | the contents, oldest first |
| `ExecutionRing.Ring.Reset` | gpu/timeline.go:2082-2091 | empty, and every slot zeroed |
| `ExecutionRing.Rings.EmitExec` | gpu/timeline.go:937-945 | one step of the delivery pipeline, evictions counted |
| `ExecutionRing.Rings.Swap` | gpu/timeline.go:2069-2079 | the ring swapped in is empty, zeroed and shares nothing with the one taken |
| `ExecutionRing.Rings.Retire` | gpu/timeline.go:1488-1499 | the contents are handed out, the ring becomes a clean spare, meanwhile-emitted executions untouched |
| `ExecutionRing.DeliveredExactlyOnce` | gpu/timeline.go:1478-1499 | over every interleaving: delivered, in flight and held are the emitted sequence in order, each once, minus exactly the evicted number |
| `ExecutionRing.NothingLost` | gpu/timeline.go:1478-1499 | with no eviction they are the emitted sequence |
| `HeuristicJoin.GroupByTime` | gpu/timeline.go:1962-1976 | every group is the entries of its key, sorted by time |
| `HeuristicJoin.FindLaunch` | gpu/timeline.go:2003-2032 | two bisections give what a scan gives: a match iff one lies in the saturating window, a latest one, ambiguous iff there is another, out of window iff only the window excluded all |
| `HeuristicJoin.ScansPermuted` | gpu/timeline.go:1962-1976 | the answer does not depend on the order of the entries |
| `HeuristicJoin.JoinExecutions` | gpu/timeline.go:1592-1787 | every execution is viewed by the rule, on the cache as its own lookup finds it, indexes built lazily; exact + heuristic + unmatched = executions; the launches matched |
| `HeuristicJoin.MatchedExact` | gpu/timeline.go:1696-1793 | the matched launches are exactly those some execution was given |
| `HeuristicJoin.JoinExact` | gpu/timeline.go:1726-1787 | in numbers: a guess exists iff its own process submitted that kernel on that queue in the window, the latest such, ambiguous iff there are two, out of window iff there are some before it and none in it; a blocked match is always another process's |
| `HeuristicJoin.BlindScan` | gpu/timeline.go:1606-1620 | the process-blind index matches iff some same-queue, same-kernel launch lies in the window |
| `GraphRefusal.GraphTracker.EmitGraphExecutions` | gpu/timeline.go:856-880 | the evidence after one report; the total and unscoped counters wrap, the cap counter rises exactly at the cap |
| `GraphRefusal.GraphTracker.IsRefused` | gpu/timeline.go:897-902 | the tiered answer |
| `GraphRefusal.RefusedIff` | gpu/timeline.go:856-902 | exactly when a process is refused, in terms of the reports alone |
| `GraphRefusal.RefusalLatches` | gpu/timeline.go:856-902 | a refused process stays refused while its reports sum below 2^64, and exactly when in general |
| `GraphRefusal.RefusalCanLapse` | gpu/timeline.go:878-880 | two deltas of 2^63 undo a refusal |
| `GraphRefusal.RefusalHonest` | gpu/timeline.go:1564-1686 | after any reports and in any snapshot: an execution is marked refused iff its process is, on the reports alone; served by correlation it says graph-refused then and exact otherwise, and no other does; inferred labels are untouched; samples imply a label |
| `Weights.Distribute` | gpu/projection.go:855-890 | the two loops compute the split, panic included |
| `Weights.SplitExact` | gpu/projection.go:829-890 | parts sum to the whole; every share but the last is the exact floor; the last carries a residue smaller than the number of samples |
| `Weights.SplitExactIff` | gpu/projection.go:876-886 | exact for every 64-bit duration if and only if the clamped counts sum below 2^64 |
| `Weights.PanicIff` | gpu/projection.go:872-882 | some duration panics iff some clamped count exceeds the 64-bit total |
| `Weights.NoPanic` | gpu/projection.go:872-882 | no duration panics while the counts sum below 2^64 |
| `Weights.TwoHalvesPanic` | gpu/projection.go:872-882 | two counts of 2^63 panic |
| `Weights.ThreeHalvesDoNot` | gpu/projection.go:872-882 | three do not, though they sum past 2^64 |
| `Weights.WeightConserved` | gpu/projection.go:109-196 | a snapshot's projected values sum to its executions' durations |
| `Projection.LabelsExact` | gpu/projection.go:717-824 | name by name: derived wins, cleared is absent, else the tag |
| `Projection.FramesExact` | gpu/projection.go:497-510 | kernel, launch boundary and the whole sampled call path, leaf first |
| `Projection.NumbersRead` | gpu/projection.go:717-824 | every number in a label reads back, without leading zeros |
| `Projection.TagSurvivesIff` | gpu/projection.go:717-824 | exactly when a tag passes for a derived label |
| `Projection.KeyDetermines` | gpu/projection.go:655-671 | executions of one memo key and no tags have the same labels |
| `ProjectionMemo.Memo.Frames` | gpu/projection.go:679-689 | memoised frames are the execution's own |
| `ProjectionMemo.Memo.CommonLabels` | gpu/projection.go:693-715 | memoised labels are the execution's own, and no stored set changes |
| `ProjectionMemo.LabelBudget.Admit` | gpu/projection.go:330-340 | admitted iff seen before or there is room; once admitted stays admitted, never more than the ceiling, refusals counted |
| `ProjectionMemo.BudgetExact` | gpu/projection.go:330-340 | all instructions are labelled while they fit, past that exactly as many as fit |
| `ProjectionMemo.SampleLabelsExact` | gpu/projection.go:159-196 | a sample's labels name by name, where it is in the source only under a resolved status |
| `ProjectionMemo.ProjectExecutions` | gpu/projection.go:109-196 | with or without the memo the samples read, at the end, as the projection that shares nothing: stacks, labels, the labels the budget admits, values, panics |
| `ProjectionMemo.ProjectionConserves` | gpu/projection.go:109-196 | a snapshot whose counts sum below 2^64 is projected without a panic and its sample values sum to its durations |
| `SnapshotWeights.ShareBounded` | gpu/timeline.go:1506-1524 | in every snapshot of every run an execution collects at most its correlation's group and every module group |
| `SnapshotWeights.ShareNarrow` | gpuprobe/consumer.go:2371-2395 | every sample shared out was emitted, so its count is 32 bits wide |
| `SnapshotWeights.ProbeNeverPanics` | gpu/projection.go:855-890 | so in every snapshot of every run fed by the probe the projection never panics and conserves the durations |
| `SnapshotWeights.ShippedFits` | gpu/timeline.go:713-766 | the shipped sizes are within the bound |
| `ModuleStore.Store.PutBegin` | gpu/modulestore.go:415-423 | the first critical section of a Put |
| `ModuleStore.Store.PutFinish` | gpu/modulestore.go:425-466 | the second, when another Put may have come between: the shelf, both bounds met, every partition exact |
| `ModuleStore.Store.Resolve` | gpu/modulestore.go:514-545 | the answer, the use, and the four counters summing to the calls |
| `ModuleStore.AnswerIff` | gpu/modulestore.go:490-545 | which binaries answer no module, no line information, or a place, and which place |
| `ModuleStore.Store.Has` | gpu/modulestore.go:574-585 | presence, and use |
| `ModuleStore.Store.FunctionName` | gpu/modulestore.go:680-695 | the name by index, and use |
| `ModuleStore.Store.Evict` | gpu/modulestore.go:611-645 | the longest most-recent prefix within both bounds stays |
| `ModuleStore.RunByRecency` | gpu/modulestore.go:415-645 | over every interleaving of lookups and two-phase Puts the shelf is in order of last use |
| `Admission.CountingSink.Refill` | gpu/sink.go:213-230 | both buckets topped up by one clock reading, each to its burst |
| `Admission.CountingSink.AdmitCapacity` | gpu/sink.go:237-249 | a token taken or the reservation refused |
| `Admission.CountingSink.Release` | gpu/sink.go:254-263 | a token returned, never above the burst |
| `Admission.CountingSink.Begin` | gpu/sink.go:268-283 | refused for its clock domain or for want of a token, or delegated; every emit stays accounted for, and reservations outstanding = emits in flight |
| `Admission.CountingSink.End` | gpu/sink.go:285-295 | settled as accepted or dropped downstream; every emit stays accounted for |
| `Admission.SameAnchorsSameFate` | gpu/sink.go:213-274 | two runs with the same anchor events and outcomes admit the same anchors, whatever the data traffic and the refill rate |
| `Admission.RateKept` | gpu/sink.go:213-263 | what a bounded class has delivered or in flight never exceeds its burst and what the time gone by was worth, and it is refused only when less than one place is free |
| `Admission.GrantedAgain` | gpu/sink.go:213-249 | after a time worth a token a reservation is granted, whatever the run before |
| `Admission.AskedExact` | gpu/sink.go:265-395 | which kinds draw on the anchors' bucket, and which pass in any clock domain |

## Left out

- Sequence counters of `orderedFIFO`, and every statistic, are unbounded here; in the source they are 64-bit and would wrap after 2^64 steps. The graph-execution and split totals, where wrap-around matters, wrap.
- Admission: tokens and times are reals, so floating-point rounding is not modelled; the clock is assumed monotone, as the source's doc comments do.
- WindowTransport.DisclosureSoundEndToEnd: the sink takes every window, no batch is cut at its cap and none overtakes another; DisclosureLosses.TransportIff is the exact statement with all of these.
- Exposure.MissedIff: in terms of the arrivals alone only while nothing is evicted; with evictions Exposure.AnyOrderIff is stated on what the store holds.
- SampleJoin.SampleIndexes.JoinPending: module names and multi-device processes are inputs.
- ExecutionRing.Rings: one snapshot at a time, as the source's snapshot lock ensures; the event and module rings are the same code and are not repeated.
- Projection: label names are constructors instead of strings, and source-file basenames are taken as given.
- Unwind.WalkCtx.UnwindFrame: memory, mappings and tables are arbitrary read-only functions; loading and saving the walk around a tail call is a single value carried over.
- Handoff.RunInv: an interpreter module is any step that appends whole pairs, declares itself done, hands back or never does; it leaves pc, fp and sp alone.
- Capture.FlagsRoundTrip: bit masks are arithmetic on powers of two.
- StackHandles.ConsumerReadsOwnCapture: each BPF program is atomic between its map operations, and per-CPU scratch lookups succeed.
- BPF loading, probe attachment, the ring reader, sockets, memory files and /proc parsing: foreign calls and I/O.
- Symbolization, the cubin parser and the per-kind record decoders: opaque inputs.
- Deferred launches waiting for a sampled stack and samples waiting for a stall name: the same hold-and-release scheme as kernel names.
- Device tracking, join-health text, tier flags, JSON: single-branch decisions and formatting.
- The CPU, off-CPU and Python drivers: thin wrappers around the walker modelled here.
