/** The aggregator: four indexes updated in place, event by event. */
module Aggregator {
  import opened Words
  import opened Events
  import opened Histograms
  import opened Statistics
  import opened Ranking

  datatype SortBy = TotalLatency | OffcpuTime | MaxLatency | EventCount

  /** The value that the comparison of a sort key looks at; the total wraps. */
  function LatencyRank(lat: LatencyStats, sortBy: SortBy): nat {
    match sortBy
    case TotalLatency => Add64(lat.totalSyscallNs, lat.totalOffcpuNs)
    case OffcpuTime => lat.totalOffcpuNs
    case MaxLatency => lat.maxLatencyNs
    case EventCount => lat.slowEventCount
  }

  function ProcessRanks(procs: map<u32, ProcessStats>, sortBy: SortBy): map<u32, nat> {
    map p | p in procs :: LatencyRank(procs[p].lat, sortBy)
  }

  function ThreadRanks(threads: map<u64, ThreadStats>, sortBy: SortBy): map<u64, nat> {
    map k | k in threads :: LatencyRank(threads[k].lat, sortBy)
  }

  function SyscallRanks(syscalls: map<u64, SyscallStats>): map<u64, nat> {
    map id | id in syscalls :: syscalls[id].totalNs
  }

  function StackRanks(stacks: map<i64, StackStats>): map<i64, nat> {
    map id | id in stacks :: stacks[id].totalNs
  }

  function ProcessKey(p: ProcessStats): u32 {
    p.pid
  }

  function ThreadKey(t: ThreadStats): u64 {
    Pack(t.pid, t.tid)
  }

  function SyscallKey(s: SyscallStats): u64 {
    s.syscallId
  }

  function StackKey(s: StackStats): i64 {
    s.stackId
  }

  /** The top list of processes in the fields themselves. The total latency is a 64-bit sum. */
  ghost predicate TopProcessesBy(procs: map<u32, ProcessStats>, sortBy: SortBy, n: nat, v: seq<ProcessStats>) {
    && Selected(procs, n, v)
    && match sortBy
       case TotalLatency => BestFirst(procs, (e: ProcessStats) => Wrap(e.lat.totalSyscallNs + e.lat.totalOffcpuNs, W64), v)
       case OffcpuTime => BestFirst(procs, (e: ProcessStats) => e.lat.totalOffcpuNs, v)
       case MaxLatency => BestFirst(procs, (e: ProcessStats) => e.lat.maxLatencyNs, v)
       case EventCount => BestFirst(procs, (e: ProcessStats) => e.lat.slowEventCount, v)
  }

  lemma TopProcessesMeaning(procs: map<u32, ProcessStats>, sortBy: SortBy, n: nat, v: seq<ProcessStats>)
    requires IsTopOf(procs, ProcessRanks(procs, sortBy), ProcessKey, n, v) && forall k :: k in procs ==> procs[k].pid == k
    ensures TopProcessesBy(procs, sortBy, n, v)
  {
    var ranks := ProcessRanks(procs, sortBy);
    match sortBy
    case TotalLatency =>
      forall k | k in procs
        ensures ranks[k] == Wrap(procs[k].lat.totalSyscallNs + procs[k].lat.totalOffcpuNs, W64)
      {
        WrapOnce(procs[k].lat.totalSyscallNs + procs[k].lat.totalOffcpuNs, W64);
      }
      TopMeaning(procs, ranks, ProcessKey, n, v, (e: ProcessStats) => Wrap(e.lat.totalSyscallNs + e.lat.totalOffcpuNs, W64));
    case OffcpuTime =>
      TopMeaning(procs, ranks, ProcessKey, n, v, (e: ProcessStats) => e.lat.totalOffcpuNs);
    case MaxLatency =>
      TopMeaning(procs, ranks, ProcessKey, n, v, (e: ProcessStats) => e.lat.maxLatencyNs);
    case EventCount =>
      TopMeaning(procs, ranks, ProcessKey, n, v, (e: ProcessStats) => e.lat.slowEventCount);
  }

  /** The top list of threads in the fields themselves. The total latency is a 64-bit sum. */
  ghost predicate TopThreadsBy(threads: map<u64, ThreadStats>, sortBy: SortBy, n: nat, v: seq<ThreadStats>) {
    && Selected(threads, n, v)
    && match sortBy
       case TotalLatency => BestFirst(threads, (e: ThreadStats) => Wrap(e.lat.totalSyscallNs + e.lat.totalOffcpuNs, W64), v)
       case OffcpuTime => BestFirst(threads, (e: ThreadStats) => e.lat.totalOffcpuNs, v)
       case MaxLatency => BestFirst(threads, (e: ThreadStats) => e.lat.maxLatencyNs, v)
       case EventCount => BestFirst(threads, (e: ThreadStats) => e.lat.slowEventCount, v)
  }

  lemma TopThreadsMeaning(threads: map<u64, ThreadStats>, sortBy: SortBy, n: nat, v: seq<ThreadStats>)
    requires IsTopOf(threads, ThreadRanks(threads, sortBy), ThreadKey, n, v)
    requires forall k :: k in threads ==> Pack(threads[k].pid, threads[k].tid) == k
    ensures TopThreadsBy(threads, sortBy, n, v)
  {
    var ranks := ThreadRanks(threads, sortBy);
    match sortBy
    case TotalLatency =>
      forall k | k in threads
        ensures ranks[k] == Wrap(threads[k].lat.totalSyscallNs + threads[k].lat.totalOffcpuNs, W64)
      {
        WrapOnce(threads[k].lat.totalSyscallNs + threads[k].lat.totalOffcpuNs, W64);
      }
      TopMeaning(threads, ranks, ThreadKey, n, v, (e: ThreadStats) => Wrap(e.lat.totalSyscallNs + e.lat.totalOffcpuNs, W64));
    case OffcpuTime =>
      TopMeaning(threads, ranks, ThreadKey, n, v, (e: ThreadStats) => e.lat.totalOffcpuNs);
    case MaxLatency =>
      TopMeaning(threads, ranks, ThreadKey, n, v, (e: ThreadStats) => e.lat.maxLatencyNs);
    case EventCount =>
      TopMeaning(threads, ranks, ThreadKey, n, v, (e: ThreadStats) => e.lat.slowEventCount);
  }

  class Aggregator {
    var procs: map<u32, ProcessStats>
    var threads: map<u64, ThreadStats>
    var syscalls: map<u64, SyscallStats>
    var stacks: map<i64, StackStats>
    var total: u64
    ghost var history: seq<Event>  // every event since the last reset

    ghost function Value(): Summary
      reads this
    {
      Summary(procs, threads, syscalls, stacks, total)
    }

    ghost predicate Valid()
      reads this
    {
      Summarizes(Value(), history)
    }

    /** Every entry carries its own key, as it does in every valid aggregator. */
    ghost predicate Keyed()
      reads this
    {
      && (forall p :: p in procs ==> procs[p].pid == p)
      && (forall k :: k in threads ==> Pack(threads[k].pid, threads[k].tid) == k)
      && (forall id :: id in syscalls ==> syscalls[id].syscallId == id)
      && (forall id :: id in stacks ==> stacks[id].stackId == id)
    }

    lemma ValidIsKeyed()
      requires Valid()
      ensures Keyed()
    {
      EntriesKnowTheirKey(Value(), history);
    }

    constructor ()
      ensures Valid() && history == []
    {
      procs, threads, syscalls, stacks := map[], map[], map[], map[];
      total := 0;
      history := [];
    }

    method ProcessEvent(ev: Event)
      requires Valid()
      modifies this
      ensures Valid() && history == old(history) + [ev]
    {
      SummaryReady(Value(), history, ev);
      SummaryUpdated(Value(), history, ev);
      UpdateIndexes(ev);
      history := history + [ev];
    }

    /** The body of the event switch. */
    method UpdateIndexes(ev: Event)
      requires Ready(Value(), ev)
      modifies this`procs, this`threads, this`syscalls, this`stacks, this`total
      ensures Value() == Updated(old(Value()), ev)
    {
      total := Add64(total, 1);
      if ev.kind == EV_SYSCALL_SLOW || ev.kind == EV_IO_WAIT || ev.kind == EV_LOCK_WAIT {
        UpdateProcess(ev);
        UpdateThread(ev);
        UpdateSyscall(ev);
        UpdateStack(ev);
      } else if ev.kind == EV_OFFCPU_SLICE {
        UpdateProcess(ev);
        UpdateThread(ev);
        UpdateStack(ev);
      }
    }

    method UpdateProcess(ev: Event)
      requires ev.pid in procs ==> |procs[ev.pid].lat.hist.buckets| == BUCKET_COUNT
      modifies this`procs
      ensures procs == UpdatedProcesses(old(procs), ev)
    {
      var p := if ev.pid in procs then procs[ev.pid].lat else FreshLatency();
      p := p.(comm := CString(ev.comm));
      p := p.(slowEventCount := Add32(p.slowEventCount, 1));
      if ev.durationNs > p.maxLatencyNs {
        p := p.(maxLatencyNs := ev.durationNs);
      }
      p := p.(hist := Recorded(p.hist, ev.durationNs));
      if ev.kind == EV_OFFCPU_SLICE {
        p := p.(totalOffcpuNs := Add64(p.totalOffcpuNs, ev.durationNs));
      } else {
        p := p.(totalSyscallNs := Add64(p.totalSyscallNs, ev.durationNs));
      }
      procs := procs[ev.pid := ProcessStats(ev.pid, p)];
    }

    method UpdateThread(ev: Event)
      requires Pack(ev.pid, ev.tid) in threads ==> |threads[Pack(ev.pid, ev.tid)].lat.hist.buckets| == BUCKET_COUNT
      modifies this`threads
      ensures threads == UpdatedThreads(old(threads), ev)
    {
      var key := Pack(ev.pid, ev.tid);
      var t := if key in threads then threads[key].lat else FreshLatency();
      t := t.(comm := CString(ev.comm));
      t := t.(slowEventCount := Add32(t.slowEventCount, 1));
      if ev.durationNs > t.maxLatencyNs {
        t := t.(maxLatencyNs := ev.durationNs);
      }
      t := t.(hist := Recorded(t.hist, ev.durationNs));
      if ev.kind == EV_OFFCPU_SLICE {
        t := t.(totalOffcpuNs := Add64(t.totalOffcpuNs, ev.durationNs));
      } else {
        t := t.(totalSyscallNs := Add64(t.totalSyscallNs, ev.durationNs));
      }
      threads := threads[key := ThreadStats(ev.pid, ev.tid, t)];
    }

    method UpdateSyscall(ev: Event)
      requires ev.syscallId in syscalls ==> |syscalls[ev.syscallId].hist.buckets| == BUCKET_COUNT
      modifies this`syscalls
      ensures syscalls == UpdatedSyscalls(old(syscalls), ev)
    {
      var s := if ev.syscallId in syscalls then syscalls[ev.syscallId] else FreshSyscall();
      s := s.(syscallId := ev.syscallId, count := Add64(s.count, 1));
      s := s.(totalNs := Add64(s.totalNs, ev.durationNs));
      if ev.durationNs > s.maxNs {
        s := s.(maxNs := ev.durationNs);
      }
      s := s.(hist := Recorded(s.hist, ev.durationNs), affectedPids := s.affectedPids + {ev.pid});
      syscalls := syscalls[ev.syscallId := s];
    }

    method UpdateStack(ev: Event)
      modifies this`stacks
      ensures stacks == UpdatedStacks(old(stacks), ev)
    {
      AddStack(ev.userStackId, false, ev);
      AddStack(ev.kernStackId, true, ev);
    }

    method AddStack(id: i64, kernel: bool, ev: Event)
      modifies this`stacks
      ensures stacks == WithStack(old(stacks), id, kernel, ev)
    {
      if id < 0 {
        return;
      }
      var s := if id in stacks then stacks[id] else FRESH_STACK;
      s := s.(stackId := id, totalNs := Add64(s.totalNs, ev.durationNs));
      s := s.(count := Add64(s.count, 1), isKernel := kernel);
      if s.pid == 0 {
        s := s.(pid := ev.pid);
      }
      if s.representativeKind == EV_NONE {
        s := s.(representativeKind := ev.kind);
      }
      stacks := stacks[id := s];
    }

    method Reset()
      modifies this
      ensures Valid() && history == []
    {
      procs, threads, syscalls, stacks := map[], map[], map[], map[];
      total := 0;
      history := [];
    }

    /** The numbers a display reads, under the lock. */
    method Snapshot() returns (s: Summary)
      requires Valid()
      ensures s == Value() && Summarizes(s, history)
    {
      s := Summary(procs, threads, syscalls, stacks, total);
    }

    method TopProcesses(n: nat, sortBy: SortBy) returns (v: seq<ProcessStats>)
      requires Keyed()
      ensures TopProcessesBy(procs, sortBy, n, v)
      ensures IsTopOf(procs, ProcessRanks(procs, sortBy), ProcessKey, n, v)
    {
      v := TopEntries(procs, ProcessRanks(procs, sortBy), ProcessKey, n);
      TopProcessesMeaning(procs, sortBy, n, v);
    }

    method TopThreads(n: nat, sortBy: SortBy) returns (v: seq<ThreadStats>)
      requires Keyed()
      ensures TopThreadsBy(threads, sortBy, n, v)
      ensures IsTopOf(threads, ThreadRanks(threads, sortBy), ThreadKey, n, v)
    {
      v := TopEntries(threads, ThreadRanks(threads, sortBy), ThreadKey, n);
      TopThreadsMeaning(threads, sortBy, n, v);
    }

    method TopSyscalls(n: nat) returns (v: seq<SyscallStats>)
      requires Keyed()
      ensures Selected(syscalls, n, v) && BestFirst(syscalls, (e: SyscallStats) => e.totalNs, v)
      ensures IsTopOf(syscalls, SyscallRanks(syscalls), SyscallKey, n, v)
    {
      v := TopEntries(syscalls, SyscallRanks(syscalls), SyscallKey, n);
      TopMeaning(syscalls, SyscallRanks(syscalls), SyscallKey, n, v, (e: SyscallStats) => e.totalNs);
    }

    method TopStacks(n: nat) returns (v: seq<StackStats>)
      requires Keyed()
      ensures Selected(stacks, n, v) && BestFirst(stacks, (e: StackStats) => e.totalNs, v)
      ensures IsTopOf(stacks, StackRanks(stacks), StackKey, n, v)
    {
      v := TopEntries(stacks, StackRanks(stacks), StackKey, n);
      TopMeaning(stacks, StackRanks(stacks), StackKey, n, v, (e: StackStats) => e.totalNs);
    }
  }
}
