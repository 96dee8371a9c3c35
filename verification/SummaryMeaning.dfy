/**
 Every field of the four indexes spelled out from the events alone: which events count
 towards an entry, by their kind numbers, and what each number, name and mark is.
 */
module SummaryMeaning {
  import opened Words
  import opened Events
  import opened Sums
  import opened Histograms
  import opened Statistics
  import opened Permutation

  // ---------------------------------------------------------------- which events count

  /** Slow calls, lock waits and waits for input or output. */
  predicate IsCall(e: Event) {
    e.kind == 1 || e.kind == 3 || e.kind == 4
  }

  predicate IsCounted(e: Event) {
    IsCall(e) || e.kind == 2
  }

  function OfProcess(pid: u32): Event -> bool {
    (e: Event) => IsCounted(e) && e.pid == pid
  }

  function OfThread(pid: u32, tid: u32): Event -> bool {
    (e: Event) => IsCounted(e) && e.pid == pid && e.tid == tid
  }

  function OfCall(id: u64): Event -> bool {
    (e: Event) => IsCall(e) && e.syscallId == id
  }

  function OnStackId(id: i64): Event -> bool {
    (e: Event) => IsCounted(e) && (e.userStackId == id || e.kernStackId == id)
  }

  /** The durations of those events, in order. */
  function Lengths(es: seq<Event>, mine: Event -> bool): seq<u64> {
    if es == [] then []
    else
      var last := |es| - 1;
      Lengths(es[..last], mine) + if mine(es[last]) then [es[last].durationNs] else []
  }

  function Once(mine: Event -> bool): Event -> nat {
    (e: Event) => if mine(e) then 1 else 0
  }

  function Time(mine: Event -> bool): Event -> nat {
    (e: Event) => if mine(e) then e.durationNs else 0
  }

  function CallTime(mine: Event -> bool): Event -> nat {
    (e: Event) => if mine(e) && IsCall(e) then e.durationNs else 0
  }

  function SliceTime(mine: Event -> bool): Event -> nat {
    (e: Event) => if mine(e) && e.kind == 2 then e.durationNs else 0
  }

  /** `es[i]` is the last of those events. */
  ghost predicate LastOf(es: seq<Event>, mine: Event -> bool, i: nat) {
    i < |es| && mine(es[i]) && forall j :: i < j < |es| ==> !mine(es[j])
  }

  /** `es[i]` is the first of those events. */
  ghost predicate FirstOf(es: seq<Event>, mine: Event -> bool, i: nat) {
    i < |es| && mine(es[i]) && forall j :: 0 <= j < i ==> !mine(es[j])
  }

  // ---------------------------------------------------------------- processes and threads

  /** The statistics of the events that are `mine`. */
  ghost predicate StatisticsOf(lat: LatencyStats, es: seq<Event>, mine: Event -> bool) {
    && lat.totalSyscallNs == Wrap(SumBy(es, CallTime(mine)), 0x1_0000_0000_0000_0000)
    && lat.totalOffcpuNs == Wrap(SumBy(es, SliceTime(mine)), 0x1_0000_0000_0000_0000)
    && lat.slowEventCount == Wrap(SumBy(es, Once(mine)), 0x1_0000_0000)
    && lat.hist == HistogramOf(Lengths(es, mine)) && lat.maxLatencyNs == lat.hist.max
    && forall i: nat :: LastOf(es, mine, i) ==> lat.comm == CString(es[i].comm)
  }

  /** The scope holds exactly the events that are `mine`. */
  ghost predicate Matches(scope: Scope, es: seq<Event>, mine: Event -> bool) {
    forall e :: e in es ==> (In(scope, e) <==> mine(e))
  }

  lemma {:induction false} LengthsAreDurations(scope: Scope, es: seq<Event>, mine: Event -> bool)
    requires Matches(scope, es, mine)
    ensures Durations(scope, es) == Lengths(es, mine)
  {
    if es != [] {
      var last := |es| - 1;
      assert es[last] in es;
      LengthsAreDurations(scope, es[..last], mine);
    }
  }

  lemma TotalsMean(scope: Scope, es: seq<Event>, mine: Event -> bool)
    requires Matches(scope, es, mine)
    ensures Total(scope, SyscallNs, es) == SumBy(es, CallTime(mine))
    ensures Total(scope, OffcpuNs, es) == SumBy(es, SliceTime(mine))
    ensures Total(scope, Count, es) == SumBy(es, Once(mine))
    ensures Total(scope, TotalNs, es) == SumBy(es, Time(mine))
  {
    SumByEqual(es, Weight(scope, SyscallNs), CallTime(mine));
    SumByEqual(es, Weight(scope, OffcpuNs), SliceTime(mine));
    SumByEqual(es, Weight(scope, Count), Once(mine));
    SumByEqual(es, Weight(scope, TotalNs), Time(mine));
  }

  lemma {:induction false} LastName(scope: Scope, es: seq<Event>, mine: Event -> bool, i: nat)
    requires Matches(scope, es, mine) && LastOf(es, mine, i)
    ensures LastComm(scope, es) == CString(es[i].comm)
    decreases |es|
  {
    var last := |es| - 1;
    assert es[last] in es;
    if i < last {
      assert !mine(es[last]);
      LastName(scope, es[..last], mine, i);
    }
  }

  lemma StatisticsMean(scope: Scope, es: seq<Event>, mine: Event -> bool)
    requires Matches(scope, es, mine)
    ensures StatisticsOf(StatsOf(scope, es), es, mine)
  {
    LengthsAreDurations(scope, es, mine);
    TotalsMean(scope, es, mine);
    forall i: nat | LastOf(es, mine, i)
      ensures LastComm(scope, es) == CString(es[i].comm)
    {
      LastName(scope, es, mine, i);
    }
  }

  /** The process index: one entry for each pid of a counted event, with the statistics of those events. */
  lemma ProcessesMean(s: Summary, es: seq<Event>, pid: u32)
    requires Summarizes(s, es)
    ensures pid in s.procs <==> exists e :: e in es && OfProcess(pid)(e)
    ensures pid in s.procs ==> s.procs[pid].pid == pid && StatisticsOf(s.procs[pid].lat, es, OfProcess(pid))
    ensures s.total == Wrap(|es|, 0x1_0000_0000_0000_0000)
  {
    ProcessIndexMeans(s.procs, es, pid);
  }

  lemma ProcessIndexMeans(procs: map<u32, ProcessStats>, es: seq<Event>, pid: u32)
    requires Indexes(procs, ProcessKeys(es), ProcessEntry(es))
    ensures pid in procs <==> exists e :: e in es && OfProcess(pid)(e)
    ensures pid in procs ==> procs[pid].pid == pid && StatisticsOf(procs[pid].lat, es, OfProcess(pid))
  {
    ProcessKeysMean(es, pid);
    StatisticsMean(Process(pid), es, OfProcess(pid));
    if pid in procs {
      assert procs[pid] == ProcessEntry(es)(pid);
    }
  }

  lemma ProcessKeysMean(es: seq<Event>, pid: u32)
    ensures pid in ProcessKeys(es) <==> exists e :: e in es && OfProcess(pid)(e)
  {
  }

  /** The thread index, under pid times 2^32 plus tid. */
  lemma ThreadsMean(s: Summary, es: seq<Event>, pid: u32, tid: u32, key: u64)
    requires Summarizes(s, es) && key == pid * 0x1_0000_0000 + tid
    ensures key in s.threads <==> exists e :: e in es && OfThread(pid, tid)(e)
    ensures key in s.threads ==> s.threads[key].pid == pid && s.threads[key].tid == tid
    ensures key in s.threads ==> StatisticsOf(s.threads[key].lat, es, OfThread(pid, tid))
  {
    ThreadIndexMeans(s.threads, es, pid, tid, key);
  }

  lemma ThreadIndexMeans(threads: map<u64, ThreadStats>, es: seq<Event>, pid: u32, tid: u32, key: u64)
    requires Indexes(threads, ThreadKeys(es), ThreadEntry(es)) && key == Pack(pid, tid)
    ensures key in threads <==> exists e :: e in es && OfThread(pid, tid)(e)
    ensures key in threads ==> threads[key].pid == pid && threads[key].tid == tid
    ensures key in threads ==> StatisticsOf(threads[key].lat, es, OfThread(pid, tid))
  {
    ThreadKeysMean(es, pid, tid);
    StatisticsMean(Thread(pid, tid), es, OfThread(pid, tid));
    if key in threads {
      ThreadEntryMeans(es, pid, tid);
      assert threads[key] == ThreadEntry(es)(key);
    }
  }

  lemma ThreadEntryMeans(es: seq<Event>, pid: u32, tid: u32)
    ensures ThreadEntry(es)(Pack(pid, tid)) == ThreadStats(pid, tid, StatsOf(Thread(pid, tid), es))
  {
    PackRoundTrip(pid, tid, Pack(pid, tid));
  }

  lemma ThreadKeysMean(es: seq<Event>, pid: u32, tid: u32)
    ensures Pack(pid, tid) in ThreadKeys(es) <==> exists e :: e in es && OfThread(pid, tid)(e)
  {
  }

  // ---------------------------------------------------------------- system calls

  /** The system-call index: one entry for each number of a counted call. */
  lemma SyscallsMean(s: Summary, es: seq<Event>, id: u64)
    requires Summarizes(s, es)
    ensures id in s.syscalls <==> exists e :: e in es && OfCall(id)(e)
    ensures id in s.syscalls ==> CallStatisticsOf(s.syscalls[id], es, id)
  {
    SyscallIndexMeans(s.syscalls, es, id);
  }

  ghost predicate CallStatisticsOf(st: SyscallStats, es: seq<Event>, id: u64) {
    && st.syscallId == id
    && st.count == Wrap(SumBy(es, Once(OfCall(id))), 0x1_0000_0000_0000_0000)
    && st.totalNs == Wrap(SumBy(es, Time(OfCall(id))), 0x1_0000_0000_0000_0000)
    && st.hist == HistogramOf(Lengths(es, OfCall(id))) && st.maxNs == st.hist.max
    && forall p: u32 :: p in st.affectedPids <==> exists e :: e in es && OfCall(id)(e) && e.pid == p
  }

  lemma SyscallIndexMeans(syscalls: map<u64, SyscallStats>, es: seq<Event>, id: u64)
    requires Indexes(syscalls, SyscallKeys(es), SyscallEntry(es))
    ensures id in syscalls <==> exists e :: e in es && OfCall(id)(e)
    ensures id in syscalls ==> CallStatisticsOf(syscalls[id], es, id)
  {
    SyscallKeysMean(es, id);
    SyscallEntryMeans(es, id);
    if id in syscalls {
      assert syscalls[id] == SyscallEntry(es)(id);
    }
  }

  lemma SyscallEntryMeans(es: seq<Event>, id: u64)
    ensures CallStatisticsOf(SyscallStatsOf(id, es), es, id)
  {
    LengthsAreDurations(SyscallNo(id), es, OfCall(id));
    TotalsMean(SyscallNo(id), es, OfCall(id));
    AffectedPidsMean(es, id);
  }

  lemma SyscallKeysMean(es: seq<Event>, id: u64)
    ensures id in SyscallKeys(es) <==> exists e :: e in es && OfCall(id)(e)
  {
  }

  lemma AffectedPidsMean(es: seq<Event>, id: u64)
    ensures forall p: u32 :: p in PidsOf(SyscallNo(id), es) <==> exists e :: e in es && OfCall(id)(e) && e.pid == p
  {
    forall p: u32
      ensures p in PidsOf(SyscallNo(id), es) <==> exists e :: e in es && OfCall(id)(e) && e.pid == p
    {
      PidsMeaning(SyscallNo(id), es, p);
    }
  }

  // ---------------------------------------------------------------- stacks

  /** An event counts once for each of the two roles in which it has the stack. */
  function Roles(id: i64): Event -> nat {
    (e: Event) =>
      if !IsCounted(e) then 0 else (if e.userStackId == id then 1 else 0) + (if e.kernStackId == id then 1 else 0)
  }

  function RoleTime(id: i64): Event -> nat {
    (e: Event) =>
      if !IsCounted(e) then 0
      else (if e.userStackId == id then e.durationNs else 0) + (if e.kernStackId == id then e.durationNs else 0)
  }

  lemma StackTotalsMean(es: seq<Event>, id: i64)
    requires id >= 0
    ensures StackTotal(id, TotalNs, es) == SumBy(es, RoleTime(id))
    ensures StackTotal(id, Count, es) == SumBy(es, Roles(id))
  {
    SumByAdd(es, Weight(UserStack(id), TotalNs), Weight(KernStack(id), TotalNs), RoleTime(id));
    SumByAdd(es, Weight(UserStack(id), Count), Weight(KernStack(id), Count), Roles(id));
  }

  lemma OnStackMeans(id: i64, e: Event)
    requires id >= 0
    ensures OnStack(id, e) <==> OnStackId(id)(e)
  {
  }

  lemma {:induction false} FirstKindMeans(es: seq<Event>, id: i64, i: nat)
    requires id >= 0 && FirstOf(es, OnStackId(id), i)
    ensures FirstKind(id, es) == es[i].kind
    decreases |es|
  {
    var last := |es| - 1;
    OnStackMeans(id, es[last]);
    if i < last {
      FirstKindMeans(es[..last], id, i);
      assert OnStackId(id)(es[i]);
    } else {
      assert forall e :: e in es[..last] ==> !OnStackId(id)(e);
      NoKindYet(es[..last], id);
    }
  }

  lemma {:induction false} NoKindYet(es: seq<Event>, id: i64)
    requires id >= 0 && forall e :: e in es ==> !OnStackId(id)(e)
    ensures FirstKind(id, es) == 0
  {
    if es != [] {
      assert es[|es| - 1] in es;
      NoKindYet(es[..|es| - 1], id);
    }
  }

  lemma {:induction false} LastKernelMeans(es: seq<Event>, id: i64, i: nat)
    requires id >= 0 && LastOf(es, OnStackId(id), i)
    ensures LastIsKernel(id, es) <==> es[i].kernStackId == id
    decreases |es|
  {
    var last := |es| - 1;
    if i < last {
      assert !OnStackId(id)(es[last]);
      LastKernelMeans(es[..last], id, i);
    }
  }

  /** The stack's events that name a process. */
  function NamesProcess(id: i64): Event -> bool {
    (e: Event) => OnStackId(id)(e) && e.pid != 0
  }

  lemma {:induction false} FirstPidMeans(es: seq<Event>, id: i64, i: nat)
    requires id >= 0 && FirstOf(es, NamesProcess(id), i)
    ensures FirstPid(id, es) == es[i].pid
    decreases |es|
  {
    var last := |es| - 1;
    OnStackMeans(id, es[last]);
    if i < last {
      FirstPidMeans(es[..last], id, i);
    } else {
      assert forall e :: e in es[..last] ==> !NamesProcess(id)(e);
      NoPidYet(es[..last], id);
    }
  }

  lemma {:induction false} NoPidYet(es: seq<Event>, id: i64)
    requires id >= 0 && forall e :: e in es ==> !NamesProcess(id)(e)
    ensures FirstPid(id, es) == 0
  {
    if es != [] {
      assert es[|es| - 1] in es;
      OnStackMeans(id, es[|es| - 1]);
      NoPidYet(es[..|es| - 1], id);
    }
  }

  lemma StackKeysMean(es: seq<Event>, id: i64)
    ensures id in StackKeys(es) <==> id >= 0 && exists e :: e in es && OnStackId(id)(e)
  {
  }

  /**
   The stack index: one entry for each non-negative stack id of a counted event. The kind is
   that of the first such event, the process the first one named, and the kernel mark says
   whether the last such event had it as its kernel stack.
   */
  lemma StacksMean(s: Summary, es: seq<Event>, id: i64, first: nat, last: nat, named: nat)
    requires Summarizes(s, es)
    ensures id in s.stacks <==> id >= 0 && exists e :: e in es && OnStackId(id)(e)
    ensures id in s.stacks ==>
              var st := s.stacks[id];
              && st.stackId == id
              && st.totalNs == Wrap(SumBy(es, RoleTime(id)), 0x1_0000_0000_0000_0000)
              && st.count == Wrap(SumBy(es, Roles(id)), 0x1_0000_0000_0000_0000)
              && (FirstOf(es, OnStackId(id), first) ==> st.representativeKind == es[first].kind)
              && (LastOf(es, OnStackId(id), last) ==> (st.isKernel <==> es[last].kernStackId == id))
              && (FirstOf(es, NamesProcess(id), named) ==> st.pid == es[named].pid)
              && ((forall e :: e in es ==> !NamesProcess(id)(e)) ==> st.pid == 0)
  {
    StackKeysMean(es, id);
    if id in s.stacks {
      assert s.stacks[id] == StackEntry(es)(id);
      StackEntryMeans(es, id, first, last, named);
    }
  }

  lemma StackEntryMeans(es: seq<Event>, id: i64, first: nat, last: nat, named: nat)
    requires id >= 0
    ensures StackTotal(id, TotalNs, es) == SumBy(es, RoleTime(id)) && StackTotal(id, Count, es) == SumBy(es, Roles(id))
    ensures FirstOf(es, OnStackId(id), first) ==> FirstKind(id, es) == es[first].kind
    ensures LastOf(es, OnStackId(id), last) ==> (LastIsKernel(id, es) <==> es[last].kernStackId == id)
    ensures FirstOf(es, NamesProcess(id), named) ==> FirstPid(id, es) == es[named].pid
    ensures (forall e :: e in es ==> !NamesProcess(id)(e)) ==> FirstPid(id, es) == 0
  {
    StackTotalsMean(es, id);
    if FirstOf(es, OnStackId(id), first) {
      FirstKindMeans(es, id, first);
    }
    if LastOf(es, OnStackId(id), last) {
      LastKernelMeans(es, id, last);
    }
    if FirstOf(es, NamesProcess(id), named) {
      FirstPidMeans(es, id, named);
    } else if forall e :: e in es ==> !NamesProcess(id)(e) {
      NoPidYet(es, id);
    }
  }
}
