# KernelScope, verified

KernelScope profiles latency on Linux. Tracepoint handlers in the kernel time system
calls and off-CPU slices and send events through a ring buffer. User space folds the
events into statistics, records and replays them, looks up symbols and exports metrics.
This project is a Dafny model of that pipeline with proofs about every run of it.
`dafny verify dfyconfig.toml` checks it.

## What is proved

- **The handlers.** A handler invocation is a step over two task maps and the event
  stream. `Trace` says what a run should report from the trace alone: a close is paired
  with an open when nothing on that task's channel happened in between. `EventsFollowTrace`
  says the handlers report exactly that, in every run, whichever reservations fail and
  insertions are refused, and `EventsExplained` spells every event out from the steps, field
  by field and with the filters, the sampling rule and the kind numbers written out.
  `ProbeLaws` builds on it: disjoint intervals, the accumulated
  off-CPU time, independence from lost reservations, filtering by thresholds.
- **The statistics.** The aggregator updates four indexes in place. `Summarizes` says
  what they must hold, recomputed from scratch over the history, and the class keeps it as
  its invariant. `SummaryMeaning` reads each field off the events. From it follow conservation between the indexes, independence of
  arrival order, and percentiles within a factor of the true order statistics.
- **Recordings.** The byte format with its padding, round trips in both directions,
  truncation at every byte, and prefix stability on arbitrary bytes.
- **Symbols, labels, the polling loop.** A bounded cache that never changes an answer, a
  binary search that agrees with a linear scan, a label escape with a left inverse, and
  the exact condition under which a duration ends a live command.
- **End to end.** `Pipeline.EndToEnd` joins the handlers and the aggregator: what a thread
  or a process is shown to have spent is what the trace says it spent.

Four things the program's own text or purpose suggests do not hold, and the exact conditions are proved.

- The exit handler is described as cleanup (`bpf/kscope.bpf.c:9`). It deletes the off-CPU
  entry of a thread that leads its process and of no other, and it runs on the exiting
  thread, which is then switched out once more. That switch-out writes the entry again, armed,
  for leaders and workers alike (`EntryAfterExit`, `DeadThreadStaysArmed`, with the run in
  `ExitRunLeavesEntry`). When the thread id is used again, the gap is reported as off-CPU time
  (`ReusedThreadIdReportsGap`). When 65536 threads have entries, every other thread is refused
  and not reported until one of those is cleared (`FullMapBlindsOthers`).
- `--duration` is described as the collection duration (`README.md:111`), but the end of a
  window restarts the clock. `DurationCanEndLoop` gives the exact condition for every bound on
  the delay between an iteration's two clock readings: the window is off, or longer than the
  duration less that delay. With the default window of 5 seconds, the documented
  `top-syscalls --duration 5` (`README.md:54`) ends only if the deadline falls between the two
  readings of one iteration (`ShortWindowLeavesOnlyByDelay`).
- A lookup inside a symbol need not find it, and may find another. The search looks only at
  the last symbol at or below the address. `LookupCanMiss` and `LookupMustMiss` say for which
  tables some query inside a symbol goes unanswered, in some order or in every order of equal
  addresses, and `LookupCanMislead` for which tables some query inside a symbol is not answered
  with one that contains it. All three conditions are about the table alone: a symbol outlasts
  one that starts in it or with it, and no symbol starts in between. `NestedSymbol` and
  `HiddenSymbol` are the inputs.
- `--pid` and `--comm` are described as filters by process and by name (`README.md:109-110`).
  `FiltersReach` says by kind of event what they reach. The name filter holds back slow calls
  only, and the process filter is applied to the thread id of an off-CPU slice, so the slices of
  a target's other threads are never reported (`TargetShowsLeaderSlices`). Without a target such
  a thread is listed as a process of its own (`OffcpuBookedOnLeader`, `WorkerListedAsProcess`).

Where code and documentation disagree the model follows the code: stacks are captured at
the start of every admitted call, not only on the slow path as `docs/architecture.md` says,
and recordings hold classified events, not events straight from the decoder.

## How the model is set up

- Clock readings, stack ids, the random sample, the success of a reservation, file contents,
  symbol tables and memory mappings are parameters. The clock is positive and non-decreasing
  (`Timed`), handlers are atomic, and the scheduler handler's two halves are separate steps, so
  the laws of runs also cover their interleaving across CPUs.
- Words have their width. `Wrap(n, w)` is `n` modulo `w`; sums and counters are stated
  modulo 2^64, and `slow_event_count` modulo 2^32.
- A statistics record in an index is a value, as in the source's maps. Its histogram is
  the value that the mutable `LatencyHistogram` is proved to hold.
- `kallsyms` and mappings are given as already read. `std::sort` may leave symbols of equal
  address in any order: `SortBy` fixes one, and the laws of lookups hold for all (`TableOf`).
- A classification is an arbitrary function of the event.

## Model

| member | source | states |
|---|---|---|
| `Filters.FilterComm` | bpf/filters.h:25-37 | The byte loop accepts exactly when the target is empty or the two C strings are equal, for every pair of 16-byte buffers. |
| `Filters.NameFilterMeaning` | src/bpf/loader.cpp:63-67 | For a configured name without NUL bytes, acceptance is an empty name or equality of the task's command with the name cut to 15 bytes. |
| `Probe.StartedSyscall` | bpf/kscope.bpf.c:43-61 | The stack flags of a started call say exactly which of its two stack ids are valid, whatever was sampled or failed; `EventOrigins.OpenCalls` says which ids those are. |
| `Probe.Handlers.SysEnterHandler` | bpf/kscope.bpf.c:30-65 | The new state is that of the start step; an insertion is refused exactly for a new key when the map has 65536 entries, and the capacities are kept. |
| `Probe.Handlers.SysExitHandler` | bpf/kscope.bpf.c:68-99 | New state of the system-call exit handler: event only at or above the threshold and with a reservation, entry deleted always. |
| `Probe.Handlers.SchedSwitchHandler` | bpf/kscope.bpf.c:102-159 | The scheduler handler is its switch-out step followed by its switch-in step, also when both tasks are the same. |
| `Probe.Handlers.ProcessExecHandler` | bpf/kscope.bpf.c:162-179 | The new state is the one of the exec step, about which `Trace.EventsFollowTrace` says what it submits. |
| `Probe.Handlers.ProcessExitHandler` | bpf/kscope.bpf.c:182-202 | New state of the exit handler: both deletions happen before the pid filter. |
| `Probe.CapacityKept` | bpf/events.h:94-95 | In every run whose refused insertions follow the hash-map rule, neither map outgrows 65536 entries. |
| `Trace.PairingByScan` | bpf/kscope.bpf.c:73-79 | A close belongs to an open, with nothing on the channel in between, exactly when the backward scan finds that open: pairs are unique. |
| `Trace.ActiveTracksTrace` | bpf/kscope.bpf.c:63-97 | In every reachable state active_syscalls has a task exactly when the trace has an open call for it, with that call's own data. |
| `Trace.SchedTracksTrace` | bpf/kscope.bpf.c:107-154 | In every reachable state an entry of sched_states is armed exactly while the trace has an unconsumed switch-out, with its time. |
| `Trace.EventsFollowTrace` | bpf/kscope.bpf.c:68-202 | In every run, whatever is dropped or refused, the event stream equals the one read off the pairs of the trace, event by event and field by field. |
| `EventOrigins.EventsExplained` | bpf/kscope.bpf.c:30-202 | In every run an event is in the stream if and only if the steps explain it: a slow call past both filters, a slice whose thread id the process filter accepts, or an exec or exit of an accepted process, above the threshold and with room; with no target and no name every task passes. Every field is given by the two steps. |
| `EventOrigins.UnfilteredReportsAll` | bpf/filters.h:18-37 | Without a target process and a target name, in every run every start and exit, switch-out and switch-in, exec and exit of any task gives its event, if long enough and with room. |
| `EventOrigins.OpenCalls` | bpf/kscope.bpf.c:43-63 | In every reachable state a call is open, with a given entry, if and only if such a start is the last step of its task; each stack id is the captured one if asked for and sampled, else -1, and the flags are its two bits. |
| `ProbeLaws.SyscallEventOrigin` | bpf/kscope.bpf.c:35-97 | Every slow-call event comes from a paired start of the same task that passed both filters, with the start's call number, stack ids and flags and an interval that begins at it. |
| `ProbeLaws.KeptPairReported` | bpf/kscope.bpf.c:81-154 | Conversely every pair at or above its threshold whose reservation succeeded is in the stream with its exact interval. |
| `ProbeLaws.IntervalsDisjoint` | bpf/kscope.bpf.c:78-154 | Any two events of one kind and one task cover disjoint intervals in stream order. |
| `ProbeLaws.ChannelWithinSpan` | bpf/kscope.bpf.c:78-154 | The closed intervals of one kind and one task, reported or not, fit before the interval that is open now, hence in the span of the run. |
| `ProbeLaws.AccumulatedIsSumOfSlices` | bpf/kscope.bpf.c:109-154 | In every reachable state accumulated_offcpu_ns is the sum of all slices closed since the entry was created, below threshold or not, without wrap-around. |
| `ProbeLaws.SchedEntryTracksTrace` | bpf/kscope.bpf.c:109-154 | An entry exists exactly when the task was switched out since its key was last cleared; it holds the state it left in and the time it last came back. |
| `ProbeLaws.SchedKeysAreThreads` | bpf/kscope.bpf.c:107-121 | Every key of sched_states is (tid, tid) of a thread the pid filter accepts. |
| `ProbeLaws.EntryAfterExit` | bpf/kscope.bpf.c:107-188 | In every run, after the exit of a thread and with no later clear, its off-CPU entry is there if and only if a later switch-out wrote it, or it was there before and the thread does not lead its process. |
| `ProbeLaws.DeadThreadStaysArmed` | bpf/kscope.bpf.c:107-188 | After an exit followed by the thread's last switch-out, for leaders too, an armed entry no older than the exit stays for as long as the thread id is not used again. |
| `ProbeLaws.ReusedThreadIdReportsGap` | bpf/kscope.bpf.c:107-188 | The first switch-in under a reused thread id reports a slice that began after the old thread exited, if it reaches the threshold and finds room. |
| `ProbeLaws.ExitRunLeavesEntry` | bpf/kscope.bpf.c:107-188 | For every worker and every leader that the filter accepts, a run of switch-out, switch-in, exit and last switch-out: the exit removes a leader's entry only and a worker's is left unarmed; at the end both are there, armed. |
| `ProbeLaws.FullMapBlindsOthers` | bpf/events.h:95-95 | In every run that follows the hash-map rule: once as many threads as the map holds have entries, and until one of those is cleared, the keys stay the same and no off-CPU event of any other thread is submitted. |
| `ProbeLaws.EventFlagsAgree` | bpf/kscope.bpf.c:90-149 | Every event of every run has each stack flag set exactly when that stack id is non-negative. |
| `ProbeLaws.ActiveFlagsAgree` | bpf/kscope.bpf.c:46-61 | The same for every open call in every reachable state. |
| `ProbeLaws.MapsIgnoreReservations` | bpf/kscope.bpf.c:81-97 | Two runs that differ only in which reservations fail have equal maps after every step. |
| `ProbeLaws.LossyIsSubsequence` | bpf/kscope.bpf.c:82-152 | The stream of a lossy run is the lossless stream without exactly the events whose own reservation failed, so a subsequence of it. |
| `ProbeLaws.RaisingThresholdsFilters` | bpf/kscope.bpf.c:81-155 | Raising the two thresholds gives exactly the old stream filtered by the new thresholds, and the same maps. |
| `FilterReach.FiltersReach` | bpf/filters.h:17-37 | A run of tasks with one command can submit an event of a kind for (pid, tid) if and only if there is no target or the pid is the target, the threshold can be reached, and the kind is a slow call with no target name or that name, an off-CPU slice with pid equal to tid, or a lifecycle event. |
| `FilterReach.TargetShowsLeaderSlices` | bpf/kscope.bpf.c:107-121 | In every run with a target process every event has the target as its pid, and every off-CPU slice has it as its tid. |
| `Histograms.BucketBounds` | src/core/histograms.cpp:20-24 | Bucket b holds exactly the values from 2^b to 2^(b+1), bucket 0 also zero, for every 64-bit value. |
| `Histograms.RecordedIsNaive` | src/core/histograms.cpp:20-29 | Recording a value in place gives the histogram computed from scratch over the longer list. |
| `Histograms.HistogramMeaning` | src/core/histograms.cpp:20-37 | Every field in terms of the recorded values: bucket b counts those from 2^b to 2^(b+1), bucket 0 also zero, with the sum and count modulo 2^64 and the true extremes, or 2^64-1 and 0 without values. |
| `Histograms.LatencyHistogram.Record` | src/core/histograms.cpp:20-29 | After every record the object equals the histogram computed from scratch over all values since the last reset. |
| `Histograms.LatencyHistogram.Reset` | src/core/histograms.cpp:31-37 | A reset histogram is that of no values. |
| `Histograms.LatencyHistogram.Percentile` | src/core/histograms.cpp:48-64 | The cumulative loop finds the first bucket that reaches the rank, or falls back to the maximum. |
| `Histograms.PercentileNearOrderStatistic` | src/core/histograms.cpp:48-64 | With k the whole part of count times p over 100 and v the k-th smallest value in any sorted order, the result r is the middle of the bucket of v, exactly, so 2r <= 3v and v < 2r when v >= 1. |
| `Histograms.PercentileEdges` | src/core/histograms.cpp:48-64 | No values give 0; count times p below 100 gives 1; count times p of at least 100 times (count + 1) gives the maximum. |
| `Histograms.FallbackOnlyPastEnd` | src/core/histograms.cpp:55-63 | The fallback to the maximum is reached if and only if the rank exceeds the number of values. |
| `Histograms.RankWithinCount` | src/core/histograms.cpp:51-52 | Up to the hundredth percentile the rank never exceeds the number of values. |
| `Histograms.PercentileMonotone` | src/core/histograms.cpp:48-64 | Results do not decrease from one percentile to a higher one, up to the hundredth. |
| `Statistics.SummaryUpdated` | src/core/aggregator.cpp:17-97 | Updating the four indexes by one event agrees with recomputing all of them from scratch over the longer history, field by field. |
| `Statistics.SummaryUnique` | src/core/aggregator.cpp:17-97 | A history determines every field of every index. |
| `SummaryMeaning.ProcessesMean` | src/core/aggregator.cpp:17-53 | The process index has exactly the pids of events of kinds 1 to 4, with the sum of the durations of kinds 1, 3 and 4, that of kind 2, the count, histogram and maximum of those events and the command of the last one. |
| `SummaryMeaning.ThreadsMean` | src/core/aggregator.cpp:55-70 | The same for threads, under pid times 2^32 plus tid. |
| `SummaryMeaning.SyscallsMean` | src/core/aggregator.cpp:72-81 | The system-call index has exactly the numbers of events of kinds 1, 3 and 4, with their count, total, histogram, maximum and the set of their pids. |
| `SummaryMeaning.StacksMean` | src/core/aggregator.cpp:83-97 | The stack index has exactly the non-negative stack ids of events of kinds 1 to 4, with time and count once for each role, the kind of the first such event, the first pid other than zero, and whether the last such event had it as kernel stack. |
| `Statistics.PackRoundTrip` | src/core/aggregator.cpp:56-56 | The packed thread key has the pid as its high half and the tid as its low half, and every key is a packing. |
| `Statistics.LatencyUpdated` | src/core/aggregator.cpp:40-70 | The shared part of the process and thread updates agrees with recomputation over the scope's events. |
| `Statistics.StackUpdated` | src/core/aggregator.cpp:83-97 | The stack update agrees with recomputation, including an id that is both the user and the kernel stack and is counted twice. |
| `Aggregator.Aggregator.ProcessEvent` | src/core/aggregator.cpp:17-38 | After every event the four indexes equal those recomputed over the whole history since the last reset. |
| `Aggregator.Aggregator.UpdateProcess` | src/core/aggregator.cpp:40-53 | The new process index is `UpdatedProcesses`, which `Statistics.SummaryUpdated` ties to recomputation over the history; nothing else changes. |
| `Aggregator.Aggregator.UpdateThread` | src/core/aggregator.cpp:55-70 | The new thread index is `UpdatedThreads`, tied to recomputation in the same way. |
| `Aggregator.Aggregator.UpdateSyscall` | src/core/aggregator.cpp:72-81 | The new system-call index is `UpdatedSyscalls`, tied to recomputation in the same way. |
| `Aggregator.Aggregator.UpdateStack` | src/core/aggregator.cpp:83-97 | The new stack index is `UpdatedStacks`, user stack first, then kernel stack, which `Statistics.StackUpdated` ties to recomputation. |
| `Aggregator.Aggregator.Reset` | src/core/aggregator.cpp:99-106 | A reset aggregator is that of no events. |
| `Aggregator.Aggregator.ValidIsKeyed` | src/core/aggregator.cpp:40-97 | In every valid aggregator each entry carries its own key, which is all that the four queries below ask for. |
| `Aggregator.Aggregator.TopProcesses` | src/core/aggregator.cpp:113-136 | min(n, size) distinct entries of the index, descending in the 64-bit sum of system-call and off-CPU time, in off-CPU time, in the maximum or in the count, as asked, and no omitted entry is larger than a listed one. |
| `Aggregator.Aggregator.TopThreads` | src/core/aggregator.cpp:138-161 | The same for threads. |
| `Aggregator.Aggregator.TopSyscalls` | src/core/aggregator.cpp:163-174 | The same for system calls, descending in total time. |
| `Aggregator.Aggregator.TopStacks` | src/core/aggregator.cpp:176-187 | The same for stacks, descending in total time. |
| `Ranking.TopKeys` | src/core/aggregator.cpp:115-135 | Filling, sorting and cutting the vector yields a top-n list of the index. |
| `Ranking.TopIsMaximal` | src/core/aggregator.cpp:133-134 | The sort-key sum of a top-n list is the maximum over all subsets of the index of that size. |
| `Conservation.ProcessIsSumOfThreads` | src/core/aggregator.cpp:40-70 | Each counter of a process, the histogram's sum, count and every bucket included, is the wrapped sum of that counter over the process's threads. |
| `Conservation.ProcessPeakIsThreadPeak` | src/core/aggregator.cpp:45-63 | The maximum of a process bounds its threads' maxima and is attained by one of them. |
| `Conservation.ProcessFloorIsThreadFloor` | src/core/histograms.cpp:20-29 | The minimum of a process's histogram is below its threads' minima and is attained by one of them. |
| `Conservation.SyscallTimeConserved` | src/core/aggregator.cpp:49-76 | Total time over the system-call index equals total system-call time over processes and over threads, modulo 2^64. |
| `Conservation.StackTimeConserved` | src/core/aggregator.cpp:83-97 | For events with truthful flags, total time over the stack index is the sum of duration times number of stack flags, modulo 2^64. |
| `Permutation.OrderIrrelevant` | src/core/aggregator.cpp:40-97 | Summaries of the same events in any two orders have equal keys and numbers; only command names and a stack's pid, kind and kernel mark may differ. |
| `Classification.ClassificationIgnored` | src/cli/commands.cpp:166-170 | Aggregating classified events and aggregating the events themselves give the same statistics, for every classification. |
| `Words.ReadU32Meaning` | src/record/format.cpp:34-45 | A 32-bit field is read least significant byte first. |
| `Words.ReadU64Meaning` | src/record/format.cpp:34-45 | A 64-bit field is its low 32-bit half and then its high one. |
| `Words.SignedImage` | src/core/event.hpp:53-54 | A signed stack id and its bytes differ by a multiple of 2^64. |
| `KsrFormat.EventLayout` | src/core/event.hpp:43-55 | Where each field of an event and each padding byte is in its 88 bytes. |
| `KsrFormat.EventRoundTrip` | src/record/format.cpp:34-45 | Reading what was written gives the event back, whatever its padding bytes and whatever follows. |
| `KsrFormat.BytesRoundTrip` | src/record/format.cpp:34-45 | Writing what was read from any 88 bytes gives those bytes back, given their padding. |
| `KsrFormat.HeaderIsValid` | src/record/format.cpp:18-32 | A header that the recorder makes is accepted. |
| `KsrFormat.HeaderLayout` | src/record/format.cpp:18-27 | The 64 bytes of a header: magic, version 1, no flags, the two clock readings and zeros. |
| `KsrFormat.ValidHeaderMeaning` | src/record/format.cpp:29-32 | A header is accepted if and only if it has the magic and a version of at most 1. |
| `Recording.Recorder.Open` | src/record/recorder.cpp:21-34 | Opening leaves a file that holds just the header of the two clock readings; the counter runs on. |
| `Recording.Recorder.WriteEvent` | src/record/recorder.cpp:36-49 | The file grows by the bytes 88, 0, 0, 0 and the event and stays header plus the records written; a recorder that is not open refuses and changes nothing. |
| `Recording.ReplaySource.Open` | src/record/replay.cpp:24-41 | Succeeds exactly on files that start with a valid header. |
| `Recording.ReplaySource.Replay` | src/record/replay.cpp:43-70 | The loop terminates on any bytes and delivers what the format says is left in the file; the counter grows by the number delivered. |
| `Recording.ReplaySource.ReadRecord` | src/record/replay.cpp:48-66 | One turn of the loop: what is left to deliver is what this record gives and then what the rest of the file gives, or the loop stops with the status the format calls for. |
| `Recording.ReplayedMeaning` | src/record/replay.cpp:48-66 | The record format on any bytes: a length cut short or past the end of the file ends the replay, one over 65536 fails it, a record under 88 bytes is skipped, any other gives the event of its first 88 bytes. |
| `Recording.ReplayRecorded` | src/record/replay.cpp:48-66 | Replaying the records of any event sequence delivers exactly that sequence, without error. |
| `Recording.ReplayTruncated` | src/record/replay.cpp:48-66 | A recording body cut at any byte m delivers exactly its first m/92 events, without error. |
| `Recording.ReplayCut` | src/record/replay.cpp:30-66 | A recording cut at any length opens if and only if 64 bytes remain, and then replays exactly the first (length-64)/92 events. |
| `Recording.ReplayPrefix` | src/record/replay.cpp:48-66 | For any bytes, the delivered events are a prefix of those delivered for any extension, with undersized, oversized and over-limit records. |
| `AddressSearch.SortBy` | src/symbolization/elf_cache.cpp:88-91 | A sorted permutation of the symbols. |
| `ElfCache.CollectedMeaning` | src/symbolization/elf_cache.cpp:65-82 | A symbol is collected if and only if it is a function with an address and a name, with that name and address and its size, or one if that is zero. |
| `ElfCache.CollectedCount` | src/symbolization/elf_cache.cpp:65-82 | Each symbol is collected as often as the file's symbol tables list it. |
| `ElfCache.AcceptsMeaning` | src/symbolization/elf_cache.cpp:119-122 | A symbol is acceptable if and only if its range, unless it wraps, holds the query or the query is less than 65536 past its start. |
| `AddressSearch.UpperBound` | src/symbolization/elf_cache.cpp:114-115 | The binary search splits the table at the query, and the symbol before the split is the one a linear scan finds. |
| `AddressSearch.TableFindsNearest` | src/symbolization/elf_cache.cpp:114-118 | In every order of the table by address that symbol is one of greatest address not above the query, and there is none if and only if all start above it. |
| `AddressSearch.NearestCanBeLast` | src/symbolization/elf_cache.cpp:88-91 | Every symbol of that greatest address is the one found in some order of the table. |
| `ElfCache.Find` | src/symbolization/elf_cache.cpp:110-125 | The binary search and the range tests give the answer of a linear scan. |
| `ElfCache.AnswerMeaning` | src/symbolization/elf_cache.cpp:114-125 | For any order of equal addresses, an answer is a symbol of greatest address not above the query that contains it or is under 64 KiB away; there is no answer if and only if no symbol starts at or below the query or the last one that does is neither. |
| `ElfCache.NoneMeansNoNearest` | src/symbolization/elf_cache.cpp:114-125 | About the symbols of greatest address not above the query only: when they have one size, there is no answer if and only if none of them contains the query or is near it. |
| `ElfCache.AnswerOverOrders` | src/symbolization/elf_cache.cpp:88-125 | Over all orders of equal addresses, some order answers if and only if some nearest symbol is acceptable, and some order does not if and only if there is no nearest symbol or one that is not acceptable. |
| `ElfCache.LookupCanMiss` | src/symbolization/elf_cache.cpp:88-125 | For every table: some query inside a symbol goes unanswered in some order if and only if a symbol reaches past where another is still accepted, which starts in it or with it, and no symbol starts in between. |
| `ElfCache.LookupMustMiss` | src/symbolization/elf_cache.cpp:88-125 | The same for every order, if and only if that other symbol is the one of its address that is accepted farthest. |
| `ElfCache.LookupCanMislead` | src/symbolization/elf_cache.cpp:88-125 | For every table: some query inside a symbol is, in some order, not answered with a symbol that contains it, if and only if a symbol reaches past the end of another, which starts in it or with it, and no symbol starts in between. |
| `ElfCache.NestedSymbol` | src/symbolization/elf_cache.cpp:114-125 | A symbol inside another, at different addresses: a query in the rest of the outer one has no answer in any order. |
| `ElfCache.HiddenSymbol` | src/symbolization/elf_cache.cpp:88-125 | Two symbols at one address, of which one contains the query: one order of the table answers with it, the other has no answer. |
| `ElfCache.ParsedFindsContaining` | src/symbolization/elf_cache.cpp:114-125 | When ranges do not wrap and are pairwise disjoint or identical, a query inside a symbol is answered with a symbol that contains it. |
| `ElfCache.CacheTransparent` | src/symbolization/elf_cache.cpp:95-136 | Over every sequence of operations the cache stays within its bound and each reply is the uncached one, or empty because the path is new and the cache full. |
| `ElfCache.Cache.EnsureLoaded` | src/symbolization/elf_cache.cpp:95-103 | Loads at most the one path, keeps every cached table faithful to its file and returns the table of the path. |
| `ElfCache.Cache.ResolveAddress` | src/symbolization/elf_cache.cpp:105-126 | The new cache and the reply are `NextCache` and `ReplyOf` of a lookup, which `ElfCache.CacheTransparent` ties to the uncached reply over every sequence of operations. |
| `ElfCache.Cache.GetElfInfo` | src/symbolization/elf_cache.cpp:128-132 | The same for an information request. |
| `Symbolizer.FindMapping` | src/symbolization/proc_maps.cpp:57-63 | The first mapping that holds the address; none if and only if no mapping does. |
| `Symbolizer.BaseNameMeaning` | src/symbolization/symbolizer.cpp:81-87 | The binary of a frame is the part of the path after its last slash. |
| `Symbolizer.ElfAddressMeaning` | src/symbolization/symbolizer.cpp:72-77 | The address looked up is the distance from the mapping's start plus the mapping's file offset plus the load base, modulo 2^64. |
| `Symbolizer.UserFrameMeaning` | src/symbolization/symbolizer.cpp:62-89 | Every user frame: zero and unmapped addresses, and otherwise the file name, that address inside the file, and the name and distance of a nearest symbol in reach, or the bare address if some nearest symbol is out of reach or there is none. |
| `Symbolizer.UnloadedFrameMeaning` | src/symbolization/symbolizer.cpp:72-89 | The frame of an address whose file is left out shows the bare address with load base zero. |
| `Symbolizer.ResolvedFrameIsSymbol` | src/symbolization/symbolizer.cpp:62-89 | A resolved user frame names a symbol of the mapped file, and symbol address plus offset is the address minus the start plus file offset plus load base, modulo 2^64. |
| `Symbolizer.FindKernelFrame` | src/symbolization/symbolizer.cpp:91-111 | The binary search gives the frame of a linear scan. |
| `Symbolizer.KernelFrameIsNearest` | src/symbolization/symbolizer.cpp:91-111 | For any order of the kernel table, an address other than zero is resolved if and only if a symbol starts at or below it, with the name of a nearest one and the distance to it; every other frame is given too. |
| `Symbolizer.KernelOffsetIgnoresOrder` | src/symbolization/symbolizer.cpp:55-111 | Two orders of one kernel table give the same offset and can differ only in the name, between symbols of one address. |
| `Symbolizer.Resolver.ResolveUser` | src/symbolization/symbolizer.cpp:62-89 | With any cache contents the frame is the uncached one, or unresolved because the file is new to a full cache. |
| `Symbolizer.Resolver.ResolveKernel` | src/symbolization/symbolizer.cpp:91-111 | The frame does not depend on whether the kernel table was loaded before. |
| `Symbolizer.Resolver.LoadKallsyms` | src/symbolization/symbolizer.cpp:39-60 | The table is loaded and sorted once; a second call changes nothing. |
| `Symbolizer.Resolver.ProcMaps` | src/symbolization/symbolizer.cpp:29-37 | The mappings of the process, whether or not they were cached, and every cached list stays its process's own. |
| `Symbolizer.Resolver.ResolveStack` | src/symbolization/symbolizer.cpp:113-120 | One frame per address, in order, each as if resolved on its own. |
| `Symbolizer.Resolver.ClearCache` | src/symbolization/symbolizer.cpp:122-127 | Every cache is empty and the kernel table unloaded, and later lookups keep their guarantees. |
| `Prometheus.EscapeLabel` | src/export/prometheus_export.cpp:17-27 | The loop computes the escaped label. |
| `Prometheus.EscapeAppend` | src/export/prometheus_export.cpp:17-27 | Character by character, with the two-character escapes of backslash, quote and newline written out. |
| `Prometheus.EscapeOneLine` | src/export/prometheus_export.cpp:17-27 | An escaped label holds no raw newline. |
| `Prometheus.ReadEscaped` | src/export/prometheus_export.cpp:17-36 | Reading an escaped, quoted label followed by any text gives back the label and that text: a left inverse that stops at the right quote. |
| `Prometheus.ClosingQuoteIsTheClosing` | src/export/prometheus_export.cpp:17-36 | The first unescaped quote is the closing one. |
| `Prometheus.EscapeInjective` | src/export/prometheus_export.cpp:17-27 | Different labels have different escapes. |
| `Prometheus.FamilyReadsBack` | src/export/prometheus_export.cpp:34-37 | Whatever the command names hold, a metric family has one line per process, in order, with the text of each line written out, and its command label reads back as that process's command. |
| `Prometheus.ExportFamily` | src/export/prometheus_export.cpp:34-37 | The export loop builds that family. |
| `PollLoop.Run` | src/cli/commands.cpp:177-199 | Every draw, one per iteration that is due, shows exactly the events delivered since the last reset, and the loop leaves at the first duration check that succeeds. |
| `PollLoop.Loop` | src/cli/commands.cpp:181-199 | The loop variables, the aggregator's history and the draws after every iteration are those the clock readings call for, up to the first check that succeeds. |
| `PollLoop.FirstFollowsLastReset` | src/cli/commands.cpp:194-197 | The events counted at any point are those since the last iteration that ended a window, and no window ended in between. |
| `PollLoop.DrawsOnceASecond` | src/cli/commands.cpp:185-192 | For any non-decreasing clock the loop draws if and only if 10^9 nanoseconds have passed since its last draw, or since it started. |
| `PollLoop.DrawStepsMeaning` | src/cli/commands.cpp:185-192 | The draws of a run are those of the iterations that draw, in order. |
| `PollLoop.LeavesExactly` | src/cli/commands.cpp:194-198 | For any non-decreasing clock, with a second as 10^9 nanoseconds: a duration check succeeds if and only if the second reading is a duration past the window's start, or past the first reading when that one ended a window. |
| `PollLoop.NoWindowLeavesOnTime` | src/cli/commands.cpp:194-198 | Without a window the loop leaves at the first check at or past the duration. |
| `PollLoop.LongWindowLeavesOnTime` | src/cli/commands.cpp:194-198 | With a window longer than the duration, the first check at or past the duration succeeds if and only if its own window is not over or the two readings are a whole duration apart; a poll of at most the difference is enough. |
| `PollLoop.ShortWindowLeavesOnlyByDelay` | src/cli/commands.cpp:194-198 | With a window no longer than the duration a check succeeds only if the two readings of that iteration are further apart than the difference. |
| `PollLoop.DurationCanEndLoop` | src/cli/commands.cpp:79-82 | For every bound on the delay between the two readings, the duration ends some run if and only if it is set, the clock can reach it, and the window is off or longer than the duration less the delay. |
| `Pipeline.EndToEnd` | bpf/kscope.bpf.c:30-159 | After any run, with any losses and any classification, each thread and process is listed exactly when the trace has a kept interval for it, with the totals, count, maximum and histogram of those intervals. |
| `Pipeline.TimeWithinRun` | src/core/aggregator.cpp:40-70 | A thread's system-call total and a pid's off-CPU total equal the trace's own sums, never exceed the time span of the run and never wrap. |
| `Pipeline.OffcpuBookedOnLeader` | bpf/kscope.bpf.c:120-137 | After any run the off-CPU total of a process is that of the thread with the same number, zero if that is not listed, and every other thread has none. |
| `Pipeline.WorkerListedAsProcess` | bpf/kscope.bpf.c:120-137 | After any run a thread with a reported off-CPU slice is listed as a process and as the thread of that process with the same number. |
| `Pipeline.StackTimeOfRun` | src/core/aggregator.cpp:83-97 | Over any run, total time in the stack index is each event's duration times its number of stack flags, modulo 2^64. |
| `Pipeline.RingBufferLossless` | src/core/event_decoder.cpp:18-39 | Decoding the ring-buffer records of any events gives exactly those events in order, whatever their padding. |
| `Pipeline.ReplayedStatistics` | src/cli/commands.cpp:432-445 | Statistics of a replayed recording are exactly those of the recorded events, classified or not. |
| `Pipeline.ReplayFollowsTrace` | src/cli/commands.cpp:432-445 | The events of any run, decoded from ring-buffer bytes, classified, recorded and replayed, list each thread and process exactly when the trace has a kept interval for it, with the totals, count, maximum and histogram of the trace. |
| `Pipeline.RecordAll` | src/record/recorder.cpp:21-57 | Recording any events leaves a valid header followed by exactly their classified records, and the counter is their number modulo 2^64. |
| `Pipeline.RecordAndReplay` | src/record/recorder.cpp:21-57 | Recording any events and replaying the file delivers each event, in order, with its class set and nothing else changed, and both counters agree. |

## Left out

- Histograms.PercentileOf: takes the percentile as a whole number and the rank as an exact floor; the source computes it in doubles, which agree while count times percentile is below 2^53.
- Recording.Recorder.WriteEvent: models writes that succeed; failed or partial writes and files that cannot be opened are not modelled.
- Aggregator.Aggregator.Snapshot: stands for the queries made under the lock; the mutex itself is not modelled, each public method is one atomic step.
- Symbolizer.Resolver.ResolveUser: formatted hexadecimal names are kept as numbers, and paths are cut at the last slash only.
- Prometheus.ExportFamily: takes pid and value as text; number formatting and the help lines are not modelled, and the other families differ only in the value.
- Concurrent updates of the shared idle key by several CPUs inside one handler half, and disagreement between namespace pids and scheduler pids.
- libbpf loading, attaching and polling; libelf section walking; reading /proc files.
- Terminal UI, command-line parsing, logging, compatibility checks, JSON and OpenTelemetry export.
- Name tables and the classification rules: finite lookups that no statistic reads.
- WindowManager: small, and not used by any command.
- Ring-buffer space itself: a reservation may fail at any step.
