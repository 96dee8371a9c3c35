/** The four indexes agree with each other: time counted in one is counted in the others. */
module Conservation {
  import opened Words
  import opened Events
  import opened Sums
  import opened Histograms
  import opened Statistics

  // ---------------------------------------------------------------- counters as totals

  lemma {:induction false} DurationCount(scope: Scope, es: seq<Event>)
    ensures |Durations(scope, es)| == Total(scope, Count, es) == Total(scope, Samples, es)
    ensures SumBy(Durations(scope, es), Itself()) == Total(scope, TotalNs, es)
  {
    if es != [] {
      var last := |es| - 1;
      DurationCount(scope, es[..last]);
      SumByAppend(Durations(scope, es[..last]), es[last].durationNs, Itself());
    }
  }

  lemma {:induction false} DurationBuckets(scope: Scope, es: seq<Event>, b: nat)
    ensures SumBy(Durations(scope, es), InBucket(b)) == Total(scope, Bucket(b), es)
  {
    if es != [] {
      var last := |es| - 1;
      DurationBuckets(scope, es[..last], b);
      SumByAppend(Durations(scope, es[..last]), es[last].durationNs, InBucket(b));
    }
  }

  /** The counter of a statistics record that `metric` is about. */
  function Counter(lat: LatencyStats, metric: Metric): nat {
    match metric
    case SyscallNs => lat.totalSyscallNs
    case OffcpuNs => lat.totalOffcpuNs
    case TotalNs => lat.hist.sum
    case Count => lat.slowEventCount
    case Samples => lat.hist.count
    case Bucket(b) => if b < |lat.hist.buckets| then lat.hist.buckets[b] else 0
  }

  function Width(metric: Metric): nat {
    if metric.Count? then W32 else W64
  }

  lemma CounterMeaning(scope: Scope, es: seq<Event>, metric: Metric)
    requires metric.Bucket? ==> metric.b < BUCKET_COUNT
    ensures Counter(StatsOf(scope, es), metric) == Wrap(Total(scope, metric, es), Width(metric))
  {
    DurationCount(scope, es);
    if metric.Bucket? {
      DurationBuckets(scope, es, metric.b);
    }
  }

  // ---------------------------------------------------------------- splitting a total by key

  ghost function Parts<K>(keys: set<K>, member: K -> Scope, metric: Metric, es: seq<Event>): map<K, nat> {
    map k | k in keys :: Total(member(k), metric, es)
  }

  /** The scopes `member(k)` split `whole` without overlap. */
  ghost predicate Splits<K>(whole: Scope, keys: set<K>, member: K -> Scope, keyOf: Event -> K, e: Event) {
    && (In(whole, e) ==> keyOf(e) in keys)
    && forall k :: k in keys ==> (In(member(k), e) <==> In(whole, e) && keyOf(e) == k)
  }

  lemma {:induction false} PartsSum<K>(whole: Scope, keys: set<K>, member: K -> Scope, keyOf: Event -> K,
                                       metric: Metric, es: seq<Event>)
    requires forall e :: e in es ==> Splits(whole, keys, member, keyOf, e)
    ensures SumMap(Parts(keys, member, metric, es)) == Total(whole, metric, es)
  {
    if es == [] {
      SumMapZero(Parts(keys, member, metric, es));
    } else {
      var last := |es| - 1;
      var before, ev := es[..last], es[last];
      assert es == before + [ev];
      assert Splits(whole, keys, member, keyOf, ev);
      forall e | e in before
        ensures Splits(whole, keys, member, keyOf, e)
      {
        assert e in es;
      }
      PartsSum(whole, keys, member, keyOf, metric, before);
      PartsStep(whole, keys, member, keyOf, metric, before, ev);
      TotalAppend(whole, metric, before, ev);
    }
  }

  lemma PartsStep<K>(whole: Scope, keys: set<K>, member: K -> Scope, keyOf: Event -> K,
                     metric: Metric, es: seq<Event>, ev: Event)
    requires Splits(whole, keys, member, keyOf, ev)
    ensures SumMap(Parts(keys, member, metric, es + [ev])) ==
            SumMap(Parts(keys, member, metric, es)) + if In(whole, ev) then Amount(metric, ev) else 0
  {
    var m, m' := Parts(keys, member, metric, es), Parts(keys, member, metric, es + [ev]);
    forall k | k in keys
      ensures m'[k] == m[k] + if In(whole, ev) && keyOf(ev) == k then Amount(metric, ev) else 0
    {
      TotalAppend(member(k), metric, es, ev);
    }
    if In(whole, ev) {
      SumMapRaise(m, m', keyOf(ev), Amount(metric, ev));
    } else {
      assert m' == m;
    }
  }

  // ---------------------------------------------------------------- a process and its threads

  ghost function ThreadScope(key: u64): Scope {
    Thread(PidOf(key), TidOf(key))
  }

  function EventThread(e: Event): u64 {
    Pack(e.pid, e.tid)
  }

  ghost function ThreadsIn(threads: map<u64, ThreadStats>, pid: u32): set<u64> {
    set k | k in threads && PidOf(k) == pid
  }

  ghost function ThreadCounters(threads: map<u64, ThreadStats>, keys: set<u64>, metric: Metric): map<u64, nat>
    requires keys <= threads.Keys
  {
    map k | k in keys :: Counter(threads[k].lat, metric)
  }

  lemma ThreadCountersWrapped(s: Summary, es: seq<Event>, keys: set<u64>, metric: Metric)
    requires Summarizes(s, es) && keys <= s.threads.Keys && (metric.Bucket? ==> metric.b < BUCKET_COUNT)
    ensures Wrap(SumMap(ThreadCounters(s.threads, keys, metric)), Width(metric)) ==
            Wrap(SumMap(Parts(keys, ThreadScope, metric, es)), Width(metric))
  {
    var parts, counters := Parts(keys, ThreadScope, metric, es), ThreadCounters(s.threads, keys, metric);
    forall k | k in parts
      ensures counters[k] == Wrap(parts[k], Width(metric))
    {
      CounterMeaning(ThreadScope(k), es, metric);
    }
    SumMapWrapped(parts, counters, Width(metric));
  }

  /**
   Every counter of a process, bucket by bucket, is the wrapped sum of that counter
   over the process's threads.
   */
  lemma ProcessIsSumOfThreads(s: Summary, es: seq<Event>, pid: u32, metric: Metric)
    requires Summarizes(s, es) && pid in s.procs && (metric.Bucket? ==> metric.b < BUCKET_COUNT)
    ensures Counter(s.procs[pid].lat, metric) ==
            Wrap(SumMap(ThreadCounters(s.threads, ThreadsIn(s.threads, pid), metric)), Width(metric))
  {
    var keys := ThreadsIn(s.threads, pid);
    ThreadCountersWrapped(s, es, keys, metric);
    forall e | e in es
      ensures Splits(Process(pid), keys, ThreadScope, EventThread, e)
    {
      ThreadsSplitProcess(s.threads, es, pid, e);
    }
    PartsSum(Process(pid), keys, ThreadScope, EventThread, metric, es);
    CounterMeaning(Process(pid), es, metric);
  }

  /** A thread's scope holds exactly the events packed under its key. */
  lemma ThreadScopeMatches(k: u64, e: Event)
    ensures In(ThreadScope(k), e) <==> IsLatencyKind(e.kind) && EventThread(e) == k
    ensures EventThread(e) == k ==> PidOf(k) == e.pid
  {
    PackRoundTrip(e.pid, e.tid, k);
  }

  lemma ThreadsSplitProcess(threads: map<u64, ThreadStats>, es: seq<Event>, pid: u32, e: Event)
    requires threads.Keys == ThreadKeys(es) && e in es
    ensures Splits(Process(pid), ThreadsIn(threads, pid), ThreadScope, EventThread, e)
  {
    var keys := ThreadsIn(threads, pid);
    ThreadScopeMatches(EventThread(e), e);
    assert In(Process(pid), e) ==> EventThread(e) in keys;
    forall k | k in keys
      ensures In(ThreadScope(k), e) <==> In(Process(pid), e) && EventThread(e) == k
    {
      ThreadScopeMatches(k, e);
    }
  }

  lemma {:induction false} DurationsMeaning(scope: Scope, es: seq<Event>, v: u64)
    ensures v in Durations(scope, es) <==> exists e :: e in es && In(scope, e) && e.durationNs == v
  {
    if es != [] {
      var last := |es| - 1;
      assert es == es[..last] + [es[last]];
      DurationsMeaning(scope, es[..last], v);
    }
  }

  lemma ThreadDurationsWithin(es: seq<Event>, pid: u32, k: u64, v: u64)
    requires PidOf(k) == pid && v in Durations(ThreadScope(k), es)
    ensures v in Durations(Process(pid), es)
  {
    DurationsMeaning(ThreadScope(k), es, v);
    DurationsMeaning(Process(pid), es, v);
  }

  lemma DurationOfSomeThread(es: seq<Event>, pid: u32, v: u64) returns (k: u64)
    requires v in Durations(Process(pid), es)
    ensures k in ThreadKeys(es) && PidOf(k) == pid && v in Durations(ThreadScope(k), es)
  {
    DurationsMeaning(Process(pid), es, v);
    var e :| e in es && In(Process(pid), e) && e.durationNs == v;
    k := EventThread(e);
    ThreadScopeMatches(k, e);
    DurationsMeaning(ThreadScope(k), es, v);
  }

  /** Both extremes of a process that has events are durations of its own. */
  lemma ExtremesAttained(es: seq<Event>, pid: u32)
    requires pid in ProcessKeys(es)
    ensures GreatestOf(Durations(Process(pid), es)) in Durations(Process(pid), es)
    ensures LeastOf(Durations(Process(pid), es)) in Durations(Process(pid), es)
  {
    var e :| e in es && IsLatencyKind(e.kind) && e.pid == pid;
    DurationsMeaning(Process(pid), es, e.durationNs);
  }

  /** The extremes of one thread's durations lie within those of its process. */
  lemma ThreadExtremesWithin(es: seq<Event>, pid: u32, k: u64)
    requires PidOf(k) == pid
    ensures GreatestOf(Durations(ThreadScope(k), es)) <= GreatestOf(Durations(Process(pid), es))
    ensures LeastOf(Durations(Process(pid), es)) <= LeastOf(Durations(ThreadScope(k), es))
  {
    var greatest, least := GreatestOf(Durations(ThreadScope(k), es)), LeastOf(Durations(ThreadScope(k), es));
    if greatest in Durations(ThreadScope(k), es) {
      ThreadDurationsWithin(es, pid, k, greatest);
    }
    if least in Durations(ThreadScope(k), es) {
      ThreadDurationsWithin(es, pid, k, least);
    }
  }

  lemma ExtremesOfEntries(s: Summary, es: seq<Event>, pid: u32)
    requires Summarizes(s, es) && pid in s.procs
    ensures s.procs[pid].lat.maxLatencyNs == GreatestOf(Durations(Process(pid), es))
    ensures s.procs[pid].lat.hist.min == LeastOf(Durations(Process(pid), es))
    ensures forall k :: k in s.threads ==> s.threads[k].lat.maxLatencyNs == GreatestOf(Durations(ThreadScope(k), es))
    ensures forall k :: k in s.threads ==> s.threads[k].lat.hist.min == LeastOf(Durations(ThreadScope(k), es))
  {
  }

  /** The maximum of a process is the largest of its threads' maxima. */
  lemma ProcessPeakIsThreadPeak(s: Summary, es: seq<Event>, pid: u32)
    requires Summarizes(s, es) && pid in s.procs
    ensures forall k :: k in ThreadsIn(s.threads, pid) ==> s.threads[k].lat.maxLatencyNs <= s.procs[pid].lat.maxLatencyNs
    ensures exists k :: k in ThreadsIn(s.threads, pid) && s.threads[k].lat.maxLatencyNs == s.procs[pid].lat.maxLatencyNs
  {
    ExtremesOfEntries(s, es, pid);
    forall k | k in ThreadsIn(s.threads, pid)
      ensures s.threads[k].lat.maxLatencyNs <= s.procs[pid].lat.maxLatencyNs
    {
      ThreadExtremesWithin(es, pid, k);
    }
    ExtremesAttained(es, pid);
    var k := DurationOfSomeThread(es, pid, s.procs[pid].lat.maxLatencyNs);
    assert k in ThreadsIn(s.threads, pid);
  }

  /** The smallest recorded value of a process is the least of its threads'. */
  lemma ProcessFloorIsThreadFloor(s: Summary, es: seq<Event>, pid: u32)
    requires Summarizes(s, es) && pid in s.procs
    ensures forall k :: k in ThreadsIn(s.threads, pid) ==> s.procs[pid].lat.hist.min <= s.threads[k].lat.hist.min
    ensures exists k :: k in ThreadsIn(s.threads, pid) && s.threads[k].lat.hist.min == s.procs[pid].lat.hist.min
  {
    ExtremesOfEntries(s, es, pid);
    forall k | k in ThreadsIn(s.threads, pid)
      ensures s.procs[pid].lat.hist.min <= s.threads[k].lat.hist.min
    {
      ThreadExtremesWithin(es, pid, k);
    }
    ExtremesAttained(es, pid);
    var k := DurationOfSomeThread(es, pid, s.procs[pid].lat.hist.min);
    assert k in ThreadsIn(s.threads, pid);
  }

  // ---------------------------------------------------------------- grand totals

  function ProcessScope(pid: u32): Scope {
    Process(pid)
  }

  function EventPid(e: Event): u32 {
    e.pid
  }

  function SyscallScope(id: u64): Scope {
    SyscallNo(id)
  }

  function EventSyscall(e: Event): u64 {
    e.syscallId
  }

  lemma {:induction false} SyscallTimeIsNonOffcpu(es: seq<Event>)
    ensures Total(AnySyscall, TotalNs, es) == Total(Every, SyscallNs, es)
  {
    SumByEqual(es, Weight(AnySyscall, TotalNs), Weight(Every, SyscallNs));
  }

  ghost function SyscallTimeByProcess(s: Summary): map<u32, nat> {
    map p | p in s.procs :: s.procs[p].lat.totalSyscallNs
  }

  ghost function SyscallTimeByThread(s: Summary): map<u64, nat> {
    map k | k in s.threads :: s.threads[k].lat.totalSyscallNs
  }

  ghost function SyscallTimeByNumber(s: Summary): map<u64, nat> {
    map id | id in s.syscalls :: s.syscalls[id].totalNs
  }

  lemma ProcessesCoverTime(s: Summary, es: seq<Event>)
    requires Summarizes(s, es)
    ensures Wrap(SumMap(SyscallTimeByProcess(s)), W64) == Wrap(Total(Every, SyscallNs, es), W64)
  {
    var keys := s.procs.Keys;
    forall e | e in es
      ensures Splits(Every, keys, ProcessScope, EventPid, e)
    {
    }
    PartsSum(Every, keys, ProcessScope, EventPid, SyscallNs, es);
    var parts, counters := Parts(keys, ProcessScope, SyscallNs, es), SyscallTimeByProcess(s);
    forall p | p in parts
      ensures counters[p] == Wrap(parts[p], W64)
    {
      assert s.procs[p] == ProcessEntry(es)(p);
    }
    SumMapWrapped(parts, counters, W64);
  }

  lemma ThreadsCoverTime(s: Summary, es: seq<Event>)
    requires Summarizes(s, es)
    ensures Wrap(SumMap(SyscallTimeByThread(s)), W64) == Wrap(Total(Every, SyscallNs, es), W64)
  {
    ThreadPartsSum(es);
    ThreadTimesWrapped(s.threads, es);
    SumMapWrapped(Parts(ThreadKeys(es), ThreadScope, SyscallNs, es), SyscallTimeByThread(s), W64);
  }

  lemma ThreadTimesWrapped(threads: map<u64, ThreadStats>, es: seq<Event>)
    requires Indexes(threads, ThreadKeys(es), ThreadEntry(es))
    ensures forall k :: k in ThreadKeys(es) ==>
              threads[k].lat.totalSyscallNs == Wrap(Total(ThreadScope(k), SyscallNs, es), W64)
  {
  }

  lemma ThreadPartsSum(es: seq<Event>)
    ensures SumMap(Parts(ThreadKeys(es), ThreadScope, SyscallNs, es)) == Total(Every, SyscallNs, es)
  {
    forall e | e in es
      ensures Splits(Every, ThreadKeys(es), ThreadScope, EventThread, e)
    {
      forall k | k in ThreadKeys(es)
        ensures In(ThreadScope(k), e) <==> In(Every, e) && EventThread(e) == k
      {
        ThreadScopeMatches(k, e);
      }
    }
    PartsSum(Every, ThreadKeys(es), ThreadScope, EventThread, SyscallNs, es);
  }

  lemma SyscallPartsSum(es: seq<Event>)
    ensures SumMap(Parts(SyscallKeys(es), SyscallScope, TotalNs, es)) == Total(Every, SyscallNs, es)
  {
    forall e | e in es
      ensures Splits(AnySyscall, SyscallKeys(es), SyscallScope, EventSyscall, e)
    {
    }
    PartsSum(AnySyscall, SyscallKeys(es), SyscallScope, EventSyscall, TotalNs, es);
    SyscallTimeIsNonOffcpu(es);
  }

  lemma SyscallsCoverTime(s: Summary, es: seq<Event>)
    requires Summarizes(s, es)
    ensures Wrap(SumMap(SyscallTimeByNumber(s)), W64) == Wrap(Total(Every, SyscallNs, es), W64)
  {
    SyscallPartsSum(es);
    var parts, counters := Parts(SyscallKeys(es), SyscallScope, TotalNs, es), SyscallTimeByNumber(s);
    SyscallTimesWrapped(s.syscalls, es);
    SumMapWrapped(parts, counters, W64);
  }

  lemma SyscallTimesWrapped(syscalls: map<u64, SyscallStats>, es: seq<Event>)
    requires Indexes(syscalls, SyscallKeys(es), SyscallEntry(es))
    ensures forall id :: id in SyscallKeys(es) ==> syscalls[id].totalNs == Wrap(Total(SyscallScope(id), TotalNs, es), W64)
  {
  }

  /** System-call time summed over the syscall index equals that over processes and over threads. */
  lemma SyscallTimeConserved(s: Summary, es: seq<Event>)
    requires Summarizes(s, es)
    ensures Wrap(SumMap(SyscallTimeByNumber(s)), W64) == Wrap(SumMap(SyscallTimeByProcess(s)), W64)
    ensures Wrap(SumMap(SyscallTimeByProcess(s)), W64) == Wrap(SumMap(SyscallTimeByThread(s)), W64)
  {
    ProcessesCoverTime(s, es);
    ThreadsCoverTime(s, es);
    SyscallsCoverTime(s, es);
  }

  // ---------------------------------------------------------------- stacks

  function UserScope(id: i64): Scope {
    UserStack(id)
  }

  function KernScope(id: i64): Scope {
    KernStack(id)
  }

  function EventUser(e: Event): i64 {
    e.userStackId
  }

  function EventKern(e: Event): i64 {
    e.kernStackId
  }

  ghost function TimeByStack(s: Summary): map<i64, nat> {
    map id | id in s.stacks :: s.stacks[id].totalNs
  }

  /** The time an event adds to the stack index when its flags are truthful. */
  function FlaggedTime(): Event -> nat {
    (e: Event) =>
      if !IsLatencyKind(e.kind) then 0
      else (if HasUserStack(e.flags) then e.durationNs else 0) + (if HasKernStack(e.flags) then e.durationNs else 0)
  }

  lemma {:induction false} StackTimeByFlags(es: seq<Event>)
    requires forall e :: e in es ==> FlagsAgree(e.flags, e.userStackId, e.kernStackId)
    ensures Total(AnyUserStack, TotalNs, es) + Total(AnyKernStack, TotalNs, es) == SumBy(es, FlaggedTime())
  {
    if es != [] {
      StackTimeByFlags(es[..|es| - 1]);
    }
  }

  ghost function StackParts(es: seq<Event>): map<i64, nat> {
    map id | id in StackKeys(es) :: StackTotal(id, TotalNs, es)
  }

  lemma StackPartsSum(es: seq<Event>)
    ensures SumMap(StackParts(es)) == Total(AnyUserStack, TotalNs, es) + Total(AnyKernStack, TotalNs, es)
  {
    var keys := StackKeys(es);
    StackIdsNonNegative(es);
    forall e | e in es
      ensures Splits(AnyUserStack, keys, UserScope, EventUser, e)
      ensures Splits(AnyKernStack, keys, KernScope, EventKern, e)
    {
    }
    PartsSum(AnyUserStack, keys, UserScope, EventUser, TotalNs, es);
    PartsSum(AnyKernStack, keys, KernScope, EventKern, TotalNs, es);
    SumMapAdd(Parts(keys, UserScope, TotalNs, es), Parts(keys, KernScope, TotalNs, es), StackParts(es));
  }

  lemma StackTimesWrapped(stacks: map<i64, StackStats>, es: seq<Event>)
    requires Indexes(stacks, StackKeys(es), StackEntry(es))
    ensures forall id :: id in StackKeys(es) ==> stacks[id].totalNs == Wrap(StackTotal(id, TotalNs, es), W64)
  {
  }

  lemma StacksCoverTime(s: Summary, es: seq<Event>)
    requires Summarizes(s, es)
    ensures Wrap(SumMap(TimeByStack(s)), W64) ==
            Wrap(Total(AnyUserStack, TotalNs, es) + Total(AnyKernStack, TotalNs, es), W64)
  {
    StackPartsSum(es);
    StackTimesWrapped(s.stacks, es);
    SumMapWrapped(StackParts(es), TimeByStack(s), W64);
  }

  lemma StackIdsNonNegative(es: seq<Event>)
    ensures forall id :: id in StackKeys(es) ==> id >= 0
  {
  }

  /**
   For events with truthful stack flags, total time over the stack index is the sum
   of each event's duration times the number of its stack flags.
   */
  lemma StackTimeConserved(s: Summary, es: seq<Event>)
    requires Summarizes(s, es)
    requires forall e :: e in es ==> FlagsAgree(e.flags, e.userStackId, e.kernStackId)
    ensures Wrap(SumMap(TimeByStack(s)), W64) == Wrap(SumBy(es, FlaggedTime()), W64)
  {
    StacksCoverTime(s, es);
    StackTimeByFlags(es);
  }
}
