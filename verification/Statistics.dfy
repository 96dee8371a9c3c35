/**
 The statistics that a history of events calls for, computed from scratch: per
 process, per thread, per system call and per stack. Counters have the width of the
 program's fields and wrap.
 */
module Statistics {
  import opened Words
  import opened Events
  import opened Sums
  import opened Histograms

  datatype LatencyStats = LatencyStats(
    comm: seq<u8>,
    totalSyscallNs: u64,
    totalOffcpuNs: u64,
    maxLatencyNs: u64,
    slowEventCount: u32,
    hist: Histogram)

  datatype ProcessStats = ProcessStats(pid: u32, lat: LatencyStats)

  datatype ThreadStats = ThreadStats(pid: u32, tid: u32, lat: LatencyStats)

  datatype SyscallStats = SyscallStats(
    syscallId: u64, count: u64, totalNs: u64, maxNs: u64, hist: Histogram, affectedPids: set<u32>)

  datatype StackStats = StackStats(
    stackId: i64, totalNs: u64, count: u64, pid: u32, representativeKind: u32, isKernel: bool)

  datatype Summary = Summary(
    procs: map<u32, ProcessStats>,
    threads: map<u64, ThreadStats>,
    syscalls: map<u64, SyscallStats>,
    stacks: map<i64, StackStats>,
    total: u64)

  function FreshLatency(): LatencyStats {
    LatencyStats([], 0, 0, 0, 0, Empty())
  }

  function FreshSyscall(): SyscallStats {
    SyscallStats(0, 0, 0, 0, Empty(), {})
  }

  const FRESH_STACK := StackStats(0, 0, 0, 0, EV_NONE, false)

  /** The thread index key: pid in the high half, tid in the low half. */
  function Pack(pid: u32, tid: u32): u64 {
    pid * 0x1_0000_0000 + tid
  }

  /** Every key is the packing of its two halves. */
  lemma EveryKeyPacked(key: u64)
    ensures exists pid: u32, tid: u32 :: Pack(pid, tid) == key
  {
    assert Pack(key / 0x1_0000_0000, key % 0x1_0000_0000) == key;
  }

  ghost function Unpack(key: u64): (r: (u32, u32))
    ensures Pack(r.0, r.1) == key
  {
    EveryKeyPacked(key);
    var pid: u32, tid: u32 :| Pack(pid, tid) == key;
    (pid, tid)
  }

  ghost function PidOf(key: u64): u32 {
    Unpack(key).0
  }

  ghost function TidOf(key: u64): u32 {
    Unpack(key).1
  }

  /** Packing loses nothing, and every key is the packing of its halves. */
  lemma PackRoundTrip(pid: u32, tid: u32, key: u64)
    ensures Pack(pid, tid) / 0x1_0000_0000 == pid && Pack(pid, tid) % 0x1_0000_0000 == tid
    ensures PidOf(Pack(pid, tid)) == pid && TidOf(Pack(pid, tid)) == tid
    ensures Pack(PidOf(key), TidOf(key)) == key
  {
  }

  // ---------------------------------------------------------------- what an event counts towards

  datatype Scope =
    | Every
    | AnySyscall
    | AnyUserStack
    | AnyKernStack
    | Process(pid: u32)
    | Thread(pid: u32, tid: u32)
    | SyscallNo(id: u64)
    | UserStack(stackId: i64)
    | KernStack(stackId: i64)

  predicate In(scope: Scope, e: Event) {
    && IsLatencyKind(e.kind)
    && match scope
       case Every => true
       case AnySyscall => IsSyscallKind(e.kind)
       case AnyUserStack => e.userStackId >= 0
       case AnyKernStack => e.kernStackId >= 0
       case Process(pid) => e.pid == pid
       case Thread(pid, tid) => e.pid == pid && e.tid == tid
       case SyscallNo(id) => IsSyscallKind(e.kind) && e.syscallId == id
       case UserStack(id) => id >= 0 && e.userStackId == id
       case KernStack(id) => id >= 0 && e.kernStackId == id
  }

  datatype Metric = SyscallNs | OffcpuNs | TotalNs | Count | Samples | Bucket(b: nat)

  function Amount(metric: Metric, e: Event): nat {
    match metric
    case SyscallNs => if e.kind == EV_OFFCPU_SLICE then 0 else e.durationNs
    case OffcpuNs => if e.kind == EV_OFFCPU_SLICE then e.durationNs else 0
    case TotalNs => e.durationNs
    case Count => 1
    case Samples => 1
    case Bucket(b) => if BucketOf(e.durationNs) == b then 1 else 0
  }

  function Weight(scope: Scope, metric: Metric): Event -> nat {
    (e: Event) => if In(scope, e) then Amount(metric, e) else 0
  }

  function Total(scope: Scope, metric: Metric, es: seq<Event>): nat {
    SumBy(es, Weight(scope, metric))
  }

  /** The durations of the events of `scope`, in order. */
  function Durations(scope: Scope, es: seq<Event>): seq<u64> {
    if es == [] then []
    else
      var last := |es| - 1;
      var before := Durations(scope, es[..last]);
      if In(scope, es[last]) then before + [es[last].durationNs] else before
  }

  function LastComm(scope: Scope, es: seq<Event>): seq<u8> {
    if es == [] then []
    else if In(scope, es[|es| - 1]) then CString(es[|es| - 1].comm)
    else LastComm(scope, es[..|es| - 1])
  }

  function StatsOf(scope: Scope, es: seq<Event>): LatencyStats {
    LatencyStats(LastComm(scope, es),
                 Wrap(Total(scope, SyscallNs, es), W64),
                 Wrap(Total(scope, OffcpuNs, es), W64),
                 GreatestOf(Durations(scope, es)),
                 Wrap(Total(scope, Count, es), W32),
                 HistogramOf(Durations(scope, es)))
  }

  /** The processes that the events of `scope` name. */
  function PidsOf(scope: Scope, es: seq<Event>): set<u32> {
    if es == [] then {}
    else
      var last := |es| - 1;
      PidsOf(scope, es[..last]) + if In(scope, es[last]) then {es[last].pid} else {}
  }

  function SyscallStatsOf(id: u64, es: seq<Event>): SyscallStats {
    var scope := SyscallNo(id);
    SyscallStats(id, Wrap(Total(scope, Count, es), W64), Wrap(Total(scope, TotalNs, es), W64),
                 GreatestOf(Durations(scope, es)), HistogramOf(Durations(scope, es)), PidsOf(scope, es))
  }

  predicate OnStack(id: i64, e: Event) {
    In(UserStack(id), e) || In(KernStack(id), e)
  }

  /** The first non-zero pid seen with the stack. */
  function FirstPid(id: i64, es: seq<Event>): u32 {
    if es == [] then 0
    else
      var before := FirstPid(id, es[..|es| - 1]);
      if before == 0 && OnStack(id, es[|es| - 1]) then es[|es| - 1].pid else before
  }

  /** The kind of the first event seen with the stack. */
  function FirstKind(id: i64, es: seq<Event>): u32 {
    if es == [] then EV_NONE
    else
      var before := FirstKind(id, es[..|es| - 1]);
      if before == EV_NONE && OnStack(id, es[|es| - 1]) then es[|es| - 1].kind else before
  }

  /** Whether the stack was last seen as a kernel stack. */
  predicate LastIsKernel(id: i64, es: seq<Event>) {
    if es == [] then false
    else if OnStack(id, es[|es| - 1]) then In(KernStack(id), es[|es| - 1])
    else LastIsKernel(id, es[..|es| - 1])
  }

  function StackTotal(id: i64, metric: Metric, es: seq<Event>): nat {
    Total(UserStack(id), metric, es) + Total(KernStack(id), metric, es)
  }

  function StackStatsOf(id: i64, es: seq<Event>): StackStats {
    StackStats(id, Wrap(StackTotal(id, TotalNs, es), W64), Wrap(StackTotal(id, Count, es), W64),
               FirstPid(id, es), FirstKind(id, es), LastIsKernel(id, es))
  }

  function ProcessKeys(es: seq<Event>): set<u32> {
    set e | e in es && IsLatencyKind(e.kind) :: e.pid
  }

  function ThreadKeys(es: seq<Event>): set<u64> {
    set e | e in es && IsLatencyKind(e.kind) :: Pack(e.pid, e.tid)
  }

  function SyscallKeys(es: seq<Event>): set<u64> {
    set e | e in es && IsSyscallKind(e.kind) :: e.syscallId
  }

  function StackKeys(es: seq<Event>): set<i64> {
    (set e | e in es && IsLatencyKind(e.kind) && e.userStackId >= 0 :: e.userStackId) +
    (set e | e in es && IsLatencyKind(e.kind) && e.kernStackId >= 0 :: e.kernStackId)
  }

  /** `index` has exactly the keys `keys`, each with its value. */
  ghost predicate Indexes<K, V>(index: map<K, V>, keys: set<K>, value: K -> V) {
    && index.Keys == keys
    && forall k :: k in index ==> index[k] == value(k)
  }

  function ProcessEntry(es: seq<Event>): u32 -> ProcessStats {
    (p: u32) => ProcessStats(p, StatsOf(Process(p), es))
  }

  ghost function ThreadEntry(es: seq<Event>): u64 -> ThreadStats {
    (k: u64) => ThreadStats(PidOf(k), TidOf(k), StatsOf(Thread(PidOf(k), TidOf(k)), es))
  }

  function SyscallEntry(es: seq<Event>): u64 -> SyscallStats {
    (id: u64) => SyscallStatsOf(id, es)
  }

  function StackEntry(es: seq<Event>): i64 -> StackStats {
    (id: i64) => StackStatsOf(id, es)
  }

  /** All four indexes hold what `es` calls for. */
  ghost predicate Summarizes(s: Summary, es: seq<Event>) {
    && Indexes(s.procs, ProcessKeys(es), ProcessEntry(es))
    && Indexes(s.threads, ThreadKeys(es), ThreadEntry(es))
    && Indexes(s.syscalls, SyscallKeys(es), SyscallEntry(es))
    && Indexes(s.stacks, StackKeys(es), StackEntry(es))
    && s.total == Wrap(|es|, W64)
  }

  lemma IndexUnique<K, V>(index: map<K, V>, other: map<K, V>, keys: set<K>, value: K -> V)
    requires Indexes(index, keys, value) && Indexes(other, keys, value)
    ensures index == other
  {
  }

  /** A history determines every field of every index. */
  lemma SummaryUnique(s: Summary, t: Summary, es: seq<Event>)
    requires Summarizes(s, es) && Summarizes(t, es)
    ensures s == t
  {
    IndexUnique(s.procs, t.procs, ProcessKeys(es), ProcessEntry(es));
    IndexUnique(s.threads, t.threads, ThreadKeys(es), ThreadEntry(es));
    IndexUnique(s.syscalls, t.syscalls, SyscallKeys(es), SyscallEntry(es));
    IndexUnique(s.stacks, t.stacks, StackKeys(es), StackEntry(es));
  }

  lemma IndexKept<K, V>(index: map<K, V>, keys: set<K>, value: K -> V, value': K -> V)
    requires Indexes(index, keys, value)
    requires forall k :: k in keys ==> value'(k) == value(k)
    ensures Indexes(index, keys, value')
  {
  }

  lemma IndexWritten<K, V>(index: map<K, V>, keys: set<K>, value: K -> V, value': K -> V, k: K)
    requires Indexes(index, keys, value)
    requires forall j :: j in keys && j != k ==> value'(j) == value(j)
    ensures Indexes(index[k := value'(k)], keys + {k}, value')
  {
  }

  // ---------------------------------------------------------------- one more event

  lemma TotalAppend(scope: Scope, metric: Metric, es: seq<Event>, ev: Event)
    ensures Total(scope, metric, es + [ev]) ==
            Total(scope, metric, es) + if In(scope, ev) then Amount(metric, ev) else 0
  {
    SumByAppend(es, ev, Weight(scope, metric));
  }

  lemma WrappedTotalAppend(scope: Scope, metric: Metric, es: seq<Event>, ev: Event)
    requires In(scope, ev) && Amount(metric, ev) < W64
    ensures Wrap(Total(scope, metric, es + [ev]), W64) == Add64(Wrap(Total(scope, metric, es), W64), Amount(metric, ev))
    ensures Amount(metric, ev) == 1 ==> Wrap(Total(scope, metric, es + [ev]), W32) == Add32(Wrap(Total(scope, metric, es), W32), 1)
  {
    TotalAppend(scope, metric, es, ev);
    WrappedCounters(Total(scope, metric, es), Amount(metric, ev));
  }

  lemma SequenceAppend(scope: Scope, es: seq<Event>, ev: Event)
    ensures Durations(scope, es + [ev]) ==
            if In(scope, ev) then Durations(scope, es) + [ev.durationNs] else Durations(scope, es)
    ensures LastComm(scope, es + [ev]) == if In(scope, ev) then CString(ev.comm) else LastComm(scope, es)
  {
    assert (es + [ev])[..|es|] == es;
  }

  lemma GreatestAppend(values: seq<u64>, v: u64)
    ensures GreatestOf(values + [v]) == if v > GreatestOf(values) then v else GreatestOf(values)
  {
    assert (values + [v])[..|values|] == values;
  }

  function UpdatedLatency(st: LatencyStats, ev: Event): LatencyStats
    requires |st.hist.buckets| == BUCKET_COUNT
  {
    var offcpu := ev.kind == EV_OFFCPU_SLICE;
    LatencyStats(CString(ev.comm),
                 if offcpu then st.totalSyscallNs else Add64(st.totalSyscallNs, ev.durationNs),
                 if offcpu then Add64(st.totalOffcpuNs, ev.durationNs) else st.totalOffcpuNs,
                 if ev.durationNs > st.maxLatencyNs then ev.durationNs else st.maxLatencyNs,
                 Add32(st.slowEventCount, 1),
                 Recorded(st.hist, ev.durationNs))
  }

  lemma DurationsUpdated(scope: Scope, es: seq<Event>, ev: Event)
    requires In(scope, ev)
    ensures var before, after, v := Durations(scope, es), Durations(scope, es + [ev]), ev.durationNs;
            && GreatestOf(after) == (if v > GreatestOf(before) then v else GreatestOf(before))
            && HistogramOf(after) == Recorded(HistogramOf(before), v)
  {
    SequenceAppend(scope, es, ev);
    GreatestAppend(Durations(scope, es), ev.durationNs);
    RecordedIsNaive(Durations(scope, es), ev.durationNs);
  }

  lemma TotalsUpdated(scope: Scope, es: seq<Event>, ev: Event)
    requires In(scope, ev)
    ensures var offcpu, syscallNs, offcpuNs := ev.kind == EV_OFFCPU_SLICE, Total(scope, SyscallNs, es), Total(scope, OffcpuNs, es);
            && Wrap(Total(scope, SyscallNs, es + [ev]), W64) ==
               (if offcpu then Wrap(syscallNs, W64) else Add64(Wrap(syscallNs, W64), ev.durationNs))
            && Wrap(Total(scope, OffcpuNs, es + [ev]), W64) ==
               (if offcpu then Add64(Wrap(offcpuNs, W64), ev.durationNs) else Wrap(offcpuNs, W64))
            && Wrap(Total(scope, Count, es + [ev]), W32) == Add32(Wrap(Total(scope, Count, es), W32), 1)
  {
    WrappedTotalAppend(scope, SyscallNs, es, ev);
    WrappedTotalAppend(scope, OffcpuNs, es, ev);
    WrappedTotalAppend(scope, Count, es, ev);
  }

  lemma LatencyUpdated(scope: Scope, es: seq<Event>, ev: Event)
    requires In(scope, ev)
    ensures StatsOf(scope, es + [ev]) == UpdatedLatency(StatsOf(scope, es), ev)
  {
    SequenceAppend(scope, es, ev);
    DurationsUpdated(scope, es, ev);
    TotalsUpdated(scope, es, ev);
  }

  lemma LatencyKept(scope: Scope, es: seq<Event>, ev: Event)
    requires !In(scope, ev)
    ensures StatsOf(scope, es + [ev]) == StatsOf(scope, es)
  {
    SequenceAppend(scope, es, ev);
    TotalAppend(scope, SyscallNs, es, ev);
    TotalAppend(scope, OffcpuNs, es, ev);
    TotalAppend(scope, Count, es, ev);
  }

  lemma {:induction false} UntouchedSequences(scope: Scope, es: seq<Event>)
    requires forall e :: e in es ==> !In(scope, e)
    ensures Durations(scope, es) == [] && LastComm(scope, es) == [] && PidsOf(scope, es) == {}
  {
    if es != [] {
      UntouchedSequences(scope, es[..|es| - 1]);
    }
  }

  lemma UntouchedTotal(scope: Scope, metric: Metric, es: seq<Event>)
    requires forall e :: e in es ==> !In(scope, e)
    ensures Total(scope, metric, es) == 0
  {
    SumByZero(es, Weight(scope, metric));
  }

  lemma LatencyFresh(scope: Scope, es: seq<Event>)
    requires forall e :: e in es ==> !In(scope, e)
    ensures StatsOf(scope, es) == FreshLatency()
  {
    UntouchedSequences(scope, es);
    UntouchedTotal(scope, SyscallNs, es);
    UntouchedTotal(scope, OffcpuNs, es);
    UntouchedTotal(scope, Count, es);
    EmptyIsNaive();
  }

  // ---------------------------------------------------------------- the four incremental updates

  lemma ProcessKeysAppend(es: seq<Event>, ev: Event)
    ensures ProcessKeys(es + [ev]) == ProcessKeys(es) + if IsLatencyKind(ev.kind) then {ev.pid} else {}
  {
  }

  lemma ThreadKeysAppend(es: seq<Event>, ev: Event)
    ensures ThreadKeys(es + [ev]) == ThreadKeys(es) + if IsLatencyKind(ev.kind) then {Pack(ev.pid, ev.tid)} else {}
  {
  }

  lemma SyscallKeysAppend(es: seq<Event>, ev: Event)
    ensures SyscallKeys(es + [ev]) == SyscallKeys(es) + if IsSyscallKind(ev.kind) then {ev.syscallId} else {}
  {
  }

  function UpdatedProcesses(procs: map<u32, ProcessStats>, ev: Event): map<u32, ProcessStats>
    requires ev.pid in procs ==> |procs[ev.pid].lat.hist.buckets| == BUCKET_COUNT
  {
    var before := if ev.pid in procs then procs[ev.pid].lat else FreshLatency();
    procs[ev.pid := ProcessStats(ev.pid, UpdatedLatency(before, ev))]
  }

  /** What the update starts from, for a known process or a new one. */
  lemma ProcessBefore(procs: map<u32, ProcessStats>, es: seq<Event>, pid: u32)
    requires Indexes(procs, ProcessKeys(es), ProcessEntry(es))
    ensures (if pid in procs then procs[pid].lat else FreshLatency()) == StatsOf(Process(pid), es)
  {
    if pid !in procs {
      LatencyFresh(Process(pid), es);
    } else {
      assert procs[pid] == ProcessEntry(es)(pid);
    }
  }

  lemma ProcessWritten(procs: map<u32, ProcessStats>, es: seq<Event>, ev: Event)
    requires Indexes(procs, ProcessKeys(es), ProcessEntry(es)) && IsLatencyKind(ev.kind)
    ensures UpdatedProcesses(procs, ev) == procs[ev.pid := ProcessEntry(es + [ev])(ev.pid)]
  {
    ProcessBefore(procs, es, ev.pid);
    ProcessValue(es, ev, StatsOf(Process(ev.pid), es));
  }

  lemma ProcessValue(es: seq<Event>, ev: Event, before: LatencyStats)
    requires before == StatsOf(Process(ev.pid), es) && IsLatencyKind(ev.kind)
    ensures ProcessEntry(es + [ev])(ev.pid) == ProcessStats(ev.pid, UpdatedLatency(before, ev))
  {
    LatencyUpdated(Process(ev.pid), es, ev);
  }

  lemma ProcessEntriesKept(es: seq<Event>, ev: Event)
    ensures forall p :: p in ProcessKeys(es) && (IsLatencyKind(ev.kind) ==> p != ev.pid) ==>
              ProcessEntry(es + [ev])(p) == ProcessEntry(es)(p)
  {
    forall p | p in ProcessKeys(es) && (IsLatencyKind(ev.kind) ==> p != ev.pid)
      ensures ProcessEntry(es + [ev])(p) == ProcessEntry(es)(p)
    {
      LatencyKept(Process(p), es, ev);
    }
  }

  lemma ProcessesUpdated(procs: map<u32, ProcessStats>, es: seq<Event>, ev: Event)
    requires Indexes(procs, ProcessKeys(es), ProcessEntry(es)) && IsLatencyKind(ev.kind)
    ensures Indexes(UpdatedProcesses(procs, ev), ProcessKeys(es + [ev]), ProcessEntry(es + [ev]))
  {
    ProcessKeysAppend(es, ev);
    ProcessEntriesKept(es, ev);
    IndexWritten(procs, ProcessKeys(es), ProcessEntry(es), ProcessEntry(es + [ev]), ev.pid);
    ProcessWritten(procs, es, ev);
  }

  function UpdatedThreads(threads: map<u64, ThreadStats>, ev: Event): map<u64, ThreadStats>
    requires Pack(ev.pid, ev.tid) in threads ==> |threads[Pack(ev.pid, ev.tid)].lat.hist.buckets| == BUCKET_COUNT
  {
    var key := Pack(ev.pid, ev.tid);
    var before := if key in threads then threads[key].lat else FreshLatency();
    threads[key := ThreadStats(ev.pid, ev.tid, UpdatedLatency(before, ev))]
  }

  lemma ThreadBefore(threads: map<u64, ThreadStats>, es: seq<Event>, pid: u32, tid: u32)
    requires Indexes(threads, ThreadKeys(es), ThreadEntry(es))
    ensures var key := Pack(pid, tid);
            (if key in threads then threads[key].lat else FreshLatency()) == StatsOf(Thread(pid, tid), es)
  {
    var key := Pack(pid, tid);
    PackRoundTrip(pid, tid, key);
    if key !in threads {
      LatencyFresh(Thread(pid, tid), es);
    } else {
      assert threads[key] == ThreadEntry(es)(key);
    }
  }

  lemma ThreadWritten(threads: map<u64, ThreadStats>, es: seq<Event>, ev: Event)
    requires Indexes(threads, ThreadKeys(es), ThreadEntry(es)) && IsLatencyKind(ev.kind)
    ensures var key := Pack(ev.pid, ev.tid);
            UpdatedThreads(threads, ev) == threads[key := ThreadEntry(es + [ev])(key)]
  {
    ThreadBefore(threads, es, ev.pid, ev.tid);
    ThreadValue(es, ev, StatsOf(Thread(ev.pid, ev.tid), es));
  }

  lemma ThreadValue(es: seq<Event>, ev: Event, before: LatencyStats)
    requires before == StatsOf(Thread(ev.pid, ev.tid), es) && IsLatencyKind(ev.kind)
    ensures ThreadEntry(es + [ev])(Pack(ev.pid, ev.tid)) == ThreadStats(ev.pid, ev.tid, UpdatedLatency(before, ev))
  {
    PackRoundTrip(ev.pid, ev.tid, Pack(ev.pid, ev.tid));
    LatencyUpdated(Thread(ev.pid, ev.tid), es, ev);
  }

  lemma ThreadEntriesKept(es: seq<Event>, ev: Event)
    ensures forall k :: k in ThreadKeys(es) && (IsLatencyKind(ev.kind) ==> k != Pack(ev.pid, ev.tid)) ==>
              ThreadEntry(es + [ev])(k) == ThreadEntry(es)(k)
  {
    forall k | k in ThreadKeys(es) && (IsLatencyKind(ev.kind) ==> k != Pack(ev.pid, ev.tid))
      ensures ThreadEntry(es + [ev])(k) == ThreadEntry(es)(k)
    {
      PackRoundTrip(ev.pid, ev.tid, k);
      LatencyKept(Thread(PidOf(k), TidOf(k)), es, ev);
    }
  }

  lemma ThreadsUpdated(threads: map<u64, ThreadStats>, es: seq<Event>, ev: Event)
    requires Indexes(threads, ThreadKeys(es), ThreadEntry(es)) && IsLatencyKind(ev.kind)
    ensures Indexes(UpdatedThreads(threads, ev), ThreadKeys(es + [ev]), ThreadEntry(es + [ev]))
  {
    ThreadKeysAppend(es, ev);
    ThreadEntriesKept(es, ev);
    IndexWritten(threads, ThreadKeys(es), ThreadEntry(es), ThreadEntry(es + [ev]), Pack(ev.pid, ev.tid));
    ThreadWritten(threads, es, ev);
  }

  function UpdatedSyscall(s: SyscallStats, ev: Event): SyscallStats
    requires |s.hist.buckets| == BUCKET_COUNT
  {
    SyscallStats(ev.syscallId, Add64(s.count, 1), Add64(s.totalNs, ev.durationNs),
                 if ev.durationNs > s.maxNs then ev.durationNs else s.maxNs,
                 Recorded(s.hist, ev.durationNs), s.affectedPids + {ev.pid})
  }

  function UpdatedSyscalls(syscalls: map<u64, SyscallStats>, ev: Event): map<u64, SyscallStats>
    requires ev.syscallId in syscalls ==> |syscalls[ev.syscallId].hist.buckets| == BUCKET_COUNT
  {
    var before := if ev.syscallId in syscalls then syscalls[ev.syscallId] else FreshSyscall();
    syscalls[ev.syscallId := UpdatedSyscall(before, ev)]
  }

  lemma PidsAppend(scope: Scope, es: seq<Event>, ev: Event)
    ensures PidsOf(scope, es + [ev]) == PidsOf(scope, es) + if In(scope, ev) then {ev.pid} else {}
  {
    assert (es + [ev])[..|es|] == es;
  }

  lemma SyscallUpdated(es: seq<Event>, ev: Event)
    requires IsSyscallKind(ev.kind)
    ensures SyscallStatsOf(ev.syscallId, es + [ev]) == UpdatedSyscall(SyscallStatsOf(ev.syscallId, es), ev)
  {
    var scope := SyscallNo(ev.syscallId);
    DurationsUpdated(scope, es, ev);
    WrappedTotalAppend(scope, TotalNs, es, ev);
    WrappedTotalAppend(scope, Count, es, ev);
    PidsAppend(scope, es, ev);
  }

  lemma SyscallKept(id: u64, es: seq<Event>, ev: Event)
    requires !In(SyscallNo(id), ev)
    ensures SyscallStatsOf(id, es + [ev]) == SyscallStatsOf(id, es)
  {
    var scope := SyscallNo(id);
    SequenceAppend(scope, es, ev);
    TotalAppend(scope, TotalNs, es, ev);
    TotalAppend(scope, Count, es, ev);
    PidsAppend(scope, es, ev);
  }

  lemma SyscallFresh(id: u64, es: seq<Event>)
    requires id !in SyscallKeys(es)
    ensures SyscallStatsOf(id, es) == FreshSyscall().(syscallId := id)
  {
    var scope := SyscallNo(id);
    UntouchedSequences(scope, es);
    UntouchedTotal(scope, TotalNs, es);
    UntouchedTotal(scope, Count, es);
    EmptyIsNaive();
  }

  lemma SyscallBefore(syscalls: map<u64, SyscallStats>, es: seq<Event>, id: u64)
    requires Indexes(syscalls, SyscallKeys(es), SyscallEntry(es))
    ensures (if id in syscalls then syscalls[id] else FreshSyscall().(syscallId := id)) == SyscallStatsOf(id, es)
  {
    if id !in syscalls {
      SyscallFresh(id, es);
    } else {
      assert syscalls[id] == SyscallEntry(es)(id);
    }
  }

  lemma SyscallWritten(syscalls: map<u64, SyscallStats>, es: seq<Event>, ev: Event)
    requires Indexes(syscalls, SyscallKeys(es), SyscallEntry(es)) && IsSyscallKind(ev.kind)
    ensures UpdatedSyscalls(syscalls, ev) == syscalls[ev.syscallId := SyscallEntry(es + [ev])(ev.syscallId)]
  {
    SyscallBefore(syscalls, es, ev.syscallId);
    SyscallUpdated(es, ev);
  }

  lemma SyscallEntriesKept(es: seq<Event>, ev: Event)
    ensures forall id :: id in SyscallKeys(es) && (IsSyscallKind(ev.kind) ==> id != ev.syscallId) ==>
              SyscallEntry(es + [ev])(id) == SyscallEntry(es)(id)
  {
    forall id | id in SyscallKeys(es) && (IsSyscallKind(ev.kind) ==> id != ev.syscallId)
      ensures SyscallEntry(es + [ev])(id) == SyscallEntry(es)(id)
    {
      SyscallKept(id, es, ev);
    }
  }

  lemma SyscallsUpdated(syscalls: map<u64, SyscallStats>, es: seq<Event>, ev: Event)
    requires Indexes(syscalls, SyscallKeys(es), SyscallEntry(es)) && IsSyscallKind(ev.kind)
    ensures Indexes(UpdatedSyscalls(syscalls, ev), SyscallKeys(es + [ev]), SyscallEntry(es + [ev]))
  {
    SyscallKeysAppend(es, ev);
    SyscallEntriesKept(es, ev);
    IndexWritten(syscalls, SyscallKeys(es), SyscallEntry(es), SyscallEntry(es + [ev]), ev.syscallId);
    SyscallWritten(syscalls, es, ev);
  }

  function UpdatedStack(s: StackStats, id: i64, kernel: bool, ev: Event): StackStats {
    StackStats(id, Add64(s.totalNs, ev.durationNs), Add64(s.count, 1),
               if s.pid == 0 then ev.pid else s.pid,
               if s.representativeKind == EV_NONE then ev.kind else s.representativeKind,
               kernel)
  }

  /** The nested `add` step: a negative id is ignored. */
  function WithStack(stacks: map<i64, StackStats>, id: i64, kernel: bool, ev: Event): map<i64, StackStats> {
    if id < 0 then stacks
    else stacks[id := UpdatedStack(if id in stacks then stacks[id] else FRESH_STACK, id, kernel, ev)]
  }

  function UpdatedStacks(stacks: map<i64, StackStats>, ev: Event): map<i64, StackStats> {
    WithStack(WithStack(stacks, ev.userStackId, false, ev), ev.kernStackId, true, ev)
  }

  lemma {:induction false} UntouchedStack(id: i64, es: seq<Event>)
    requires id !in StackKeys(es)
    ensures StackStatsOf(id, es) == FRESH_STACK.(stackId := id)
  {
    forall e | e in es
      ensures !OnStack(id, e)
    {
    }
    UntouchedFirsts(id, es);
    UntouchedTotal(UserStack(id), TotalNs, es);
    UntouchedTotal(KernStack(id), TotalNs, es);
    UntouchedTotal(UserStack(id), Count, es);
    UntouchedTotal(KernStack(id), Count, es);
  }

  lemma {:induction false} UntouchedFirsts(id: i64, es: seq<Event>)
    requires forall e :: e in es ==> !OnStack(id, e)
    ensures FirstPid(id, es) == 0 && FirstKind(id, es) == EV_NONE && !LastIsKernel(id, es)
  {
    if es != [] {
      UntouchedFirsts(id, es[..|es| - 1]);
    }
  }

  lemma StackTotalAppend(id: i64, metric: Metric, es: seq<Event>, ev: Event)
    requires metric == TotalNs || metric == Count
    ensures var total, amount := Wrap(StackTotal(id, metric, es), W64), Amount(metric, ev);
            Wrap(StackTotal(id, metric, es + [ev]), W64) ==
            if In(UserStack(id), ev) && In(KernStack(id), ev) then Add64(Add64(total, amount), amount)
            else if OnStack(id, ev) then Add64(total, amount) else total
  {
    var total, amount := StackTotal(id, metric, es), Amount(metric, ev);
    TotalAppend(UserStack(id), metric, es, ev);
    TotalAppend(KernStack(id), metric, es, ev);
    WrappedCounters(total, amount);
    WrappedCounters(total + amount, amount);
  }

  /** What one event does to the entry of stack `id`; an id in both roles is counted twice. */
  function StackAfter(before: StackStats, id: i64, ev: Event): StackStats {
    var user := if ev.userStackId == id then UpdatedStack(before, id, false, ev) else before;
    if ev.kernStackId == id then UpdatedStack(user, id, true, ev) else user
  }

  lemma StackUpdated(id: i64, es: seq<Event>, ev: Event)
    requires id >= 0 && IsLatencyKind(ev.kind)
    ensures StackStatsOf(id, es + [ev]) == StackAfter(StackStatsOf(id, es), id, ev)
  {
    assert (es + [ev])[..|es|] == es;
    StackTotalAppend(id, TotalNs, es, ev);
    StackTotalAppend(id, Count, es, ev);
  }

  lemma StackKept(id: i64, es: seq<Event>, ev: Event)
    requires !OnStack(id, ev)
    ensures StackStatsOf(id, es + [ev]) == StackStatsOf(id, es)
  {
    assert (es + [ev])[..|es|] == es;
    StackTotalAppend(id, TotalNs, es, ev);
    StackTotalAppend(id, Count, es, ev);
  }

  lemma StackKeysAppend(es: seq<Event>, ev: Event)
    ensures StackKeys(es + [ev]) ==
            if !IsLatencyKind(ev.kind) then StackKeys(es)
            else StackKeys(es) + (if ev.userStackId >= 0 then {ev.userStackId} else {})
                 + (if ev.kernStackId >= 0 then {ev.kernStackId} else {})
  {
  }

  lemma UpdatedStacksAt(stacks: map<i64, StackStats>, ev: Event, id: i64)
    requires id >= 0 && (id in stacks || ev.userStackId == id || ev.kernStackId == id)
    ensures id in UpdatedStacks(stacks, ev)
    ensures UpdatedStacks(stacks, ev)[id] == StackAfter(if id in stacks then stacks[id] else FRESH_STACK, id, ev)
  {
  }

  lemma StackWritten(stacks: map<i64, StackStats>, es: seq<Event>, ev: Event, id: i64)
    requires stacks.Keys == StackKeys(es) && (id in stacks ==> stacks[id] == StackStatsOf(id, es))
    requires IsLatencyKind(ev.kind) && id in StackKeys(es + [ev])
    ensures id in UpdatedStacks(stacks, ev) && UpdatedStacks(stacks, ev)[id] == StackStatsOf(id, es + [ev])
  {
    StackKeysAppend(es, ev);
    UpdatedStacksAt(stacks, ev, id);
    StackUpdated(id, es, ev);
    if id !in stacks {
      UntouchedStack(id, es);
      assert StackAfter(FRESH_STACK, id, ev) == StackAfter(FRESH_STACK.(stackId := id), id, ev);
    }
  }

  lemma StackKeysWritten(stacks: map<i64, StackStats>, es: seq<Event>, ev: Event)
    requires stacks.Keys == StackKeys(es) && IsLatencyKind(ev.kind)
    ensures UpdatedStacks(stacks, ev).Keys == StackKeys(es + [ev])
  {
    StackKeysAppend(es, ev);
  }

  lemma StacksUpdated(stacks: map<i64, StackStats>, es: seq<Event>, ev: Event)
    requires Indexes(stacks, StackKeys(es), StackEntry(es)) && IsLatencyKind(ev.kind)
    ensures Indexes(UpdatedStacks(stacks, ev), StackKeys(es + [ev]), StackEntry(es + [ev]))
  {
    var stacks' := UpdatedStacks(stacks, ev);
    StackKeysWritten(stacks, es, ev);
    forall id | id in stacks'
      ensures stacks'[id] == StackEntry(es + [ev])(id)
    {
      StackWritten(stacks, es, ev, id);
    }
  }

  lemma ProcessesIgnore(procs: map<u32, ProcessStats>, es: seq<Event>, ev: Event)
    requires Indexes(procs, ProcessKeys(es), ProcessEntry(es)) && !IsLatencyKind(ev.kind)
    ensures Indexes(procs, ProcessKeys(es + [ev]), ProcessEntry(es + [ev]))
  {
    ProcessKeysAppend(es, ev);
    ProcessEntriesKept(es, ev);
    IndexKept(procs, ProcessKeys(es), ProcessEntry(es), ProcessEntry(es + [ev]));
  }

  lemma ThreadsIgnore(threads: map<u64, ThreadStats>, es: seq<Event>, ev: Event)
    requires Indexes(threads, ThreadKeys(es), ThreadEntry(es)) && !IsLatencyKind(ev.kind)
    ensures Indexes(threads, ThreadKeys(es + [ev]), ThreadEntry(es + [ev]))
  {
    ThreadKeysAppend(es, ev);
    ThreadEntriesKept(es, ev);
    IndexKept(threads, ThreadKeys(es), ThreadEntry(es), ThreadEntry(es + [ev]));
  }

  lemma StacksIgnore(stacks: map<i64, StackStats>, es: seq<Event>, ev: Event)
    requires Indexes(stacks, StackKeys(es), StackEntry(es)) && !IsLatencyKind(ev.kind)
    ensures Indexes(stacks, StackKeys(es + [ev]), StackEntry(es + [ev]))
  {
    StackKeysAppend(es, ev);
    forall id | id in StackKeys(es)
      ensures StackEntry(es + [ev])(id) == StackEntry(es)(id)
    {
      StackKept(id, es, ev);
    }
    IndexKept(stacks, StackKeys(es), StackEntry(es), StackEntry(es + [ev]));
  }

  lemma SyscallsIgnore(syscalls: map<u64, SyscallStats>, es: seq<Event>, ev: Event)
    requires Indexes(syscalls, SyscallKeys(es), SyscallEntry(es)) && !IsSyscallKind(ev.kind)
    ensures Indexes(syscalls, SyscallKeys(es + [ev]), SyscallEntry(es + [ev]))
  {
    SyscallKeysAppend(es, ev);
    SyscallEntriesKept(es, ev);
    IndexKept(syscalls, SyscallKeys(es), SyscallEntry(es), SyscallEntry(es + [ev]));
  }

  // ---------------------------------------------------------------- the whole update

  /** The histograms that `ev` will reach have all their buckets. */
  predicate Ready(s: Summary, ev: Event) {
    && (ev.pid in s.procs ==> |s.procs[ev.pid].lat.hist.buckets| == BUCKET_COUNT)
    && (Pack(ev.pid, ev.tid) in s.threads ==> |s.threads[Pack(ev.pid, ev.tid)].lat.hist.buckets| == BUCKET_COUNT)
    && (ev.syscallId in s.syscalls ==> |s.syscalls[ev.syscallId].hist.buckets| == BUCKET_COUNT)
  }

  function Updated(s: Summary, ev: Event): Summary
    requires Ready(s, ev)
  {
    Summary(if IsLatencyKind(ev.kind) then UpdatedProcesses(s.procs, ev) else s.procs,
            if IsLatencyKind(ev.kind) then UpdatedThreads(s.threads, ev) else s.threads,
            if IsSyscallKind(ev.kind) then UpdatedSyscalls(s.syscalls, ev) else s.syscalls,
            if IsLatencyKind(ev.kind) then UpdatedStacks(s.stacks, ev) else s.stacks,
            Add64(s.total, 1))
  }

  lemma SummaryReady(s: Summary, es: seq<Event>, ev: Event)
    requires Summarizes(s, es)
    ensures Ready(s, ev)
  {
  }

  lemma TaskIndexesUpdated(s: Summary, es: seq<Event>, ev: Event)
    requires Summarizes(s, es) && Ready(s, ev)
    ensures Indexes(Updated(s, ev).procs, ProcessKeys(es + [ev]), ProcessEntry(es + [ev]))
    ensures Indexes(Updated(s, ev).threads, ThreadKeys(es + [ev]), ThreadEntry(es + [ev]))
  {
    if IsLatencyKind(ev.kind) {
      ProcessesUpdated(s.procs, es, ev);
      ThreadsUpdated(s.threads, es, ev);
    } else {
      ProcessesIgnore(s.procs, es, ev);
      ThreadsIgnore(s.threads, es, ev);
    }
  }

  lemma StackIndexUpdated(s: Summary, es: seq<Event>, ev: Event)
    requires Summarizes(s, es) && Ready(s, ev)
    ensures Indexes(Updated(s, ev).stacks, StackKeys(es + [ev]), StackEntry(es + [ev]))
  {
    if IsLatencyKind(ev.kind) {
      StacksUpdated(s.stacks, es, ev);
    } else {
      StacksIgnore(s.stacks, es, ev);
    }
  }

  lemma SyscallIndexUpdated(s: Summary, es: seq<Event>, ev: Event)
    requires Summarizes(s, es) && Ready(s, ev)
    ensures Indexes(Updated(s, ev).syscalls, SyscallKeys(es + [ev]), SyscallEntry(es + [ev]))
  {
    if IsSyscallKind(ev.kind) {
      SyscallsUpdated(s.syscalls, es, ev);
    } else {
      SyscallsIgnore(s.syscalls, es, ev);
    }
  }

  /** Updating the four indexes by one event agrees with recomputing them over the longer history. */
  lemma SummaryUpdated(s: Summary, es: seq<Event>, ev: Event)
    requires Summarizes(s, es) && Ready(s, ev)
    ensures Summarizes(Updated(s, ev), es + [ev])
  {
    WrappedCounters(|es|, 1);
    TaskIndexesUpdated(s, es, ev);
    StackIndexUpdated(s, es, ev);
    SyscallIndexUpdated(s, es, ev);
  }

  /** Every entry carries its own key. */
  lemma EntriesKnowTheirKey(s: Summary, es: seq<Event>)
    requires Summarizes(s, es)
    ensures forall p :: p in s.procs ==> s.procs[p].pid == p
    ensures forall k :: k in s.threads ==> Pack(s.threads[k].pid, s.threads[k].tid) == k
    ensures forall id :: id in s.syscalls ==> s.syscalls[id].syscallId == id
    ensures forall id :: id in s.stacks ==> s.stacks[id].stackId == id
  {
    forall k | k in s.threads
      ensures Pack(s.threads[k].pid, s.threads[k].tid) == k
    {
      PackRoundTrip(0, 0, k);
    }
  }
}
