/**
 Every event of a run spelled out from the steps alone: which filters its task passed,
 which two steps bound its interval, and what each field holds.
 */
module EventOrigins {
  import opened Words
  import opened Events
  import opened Filters
  import opened Probe
  import opened Trace
  import opened ProbeLaws

  // ---------------------------------------------------------------- slow system calls

  /** A recorded start of a system call by `key`, past the process filter and the name filter. */
  predicate Starts(cfg: Config, st: Step, key: TaskKey) {
    && st.SysEnter? && st.key == key && st.stored
    && (cfg.targetPid == 0 || key.pid == cfg.targetPid)
    && (cfg.targetComm[0] == 0 || CString(st.comm) == CString(cfg.targetComm))
  }

  /** The step ends whatever call `key` has open. */
  predicate Ends(st: Step, key: TaskKey) {
    (st.SysExit? || st.ProcExit?) && st.key == key
  }

  /** The stack id that a start keeps: the captured one if asked for and sampled, else -1. */
  function KeptStack(cfg: Config, asked: bool, rand: u32, captured: i64): i64 {
    var pct := cfg.stackSamplingPct;
    if asked && (pct >= 100 || (pct > 0 && rand % 100 < pct)) then captured else -1
  }

  function StackBits(user: i64, kern: i64): u32 {
    if user >= 0 then if kern >= 0 then 3 else 1 else if kern >= 0 then 2 else 0
  }

  /** What the start at `st` recorded. */
  function RecordedStart(cfg: Config, st: Step): ActiveSyscall
    requires st.SysEnter?
  {
    var user := KeptStack(cfg, cfg.captureUserStacks, st.rand, st.userStack);
    var kern := KeptStack(cfg, cfg.captureKernStacks, st.rand, st.kernStack);
    ActiveSyscall(st.id, st.now, user, kern, StackBits(user, kern))
  }

  lemma RecordedStartIsEntry(cfg: Config, st: Step)
    requires st.SysEnter?
    ensures EntryOf(cfg, st) == RecordedStart(cfg, st)
  {
  }

  /** `key` started a call at step `j` and nothing of its own followed before step `n`. */
  ghost predicate CallOpen(cfg: Config, run: seq<Step>, key: TaskKey, j: nat, n: nat) {
    && j < n <= |run| && Starts(cfg, run[j], key)
    && forall m :: j < m < n ==> !Starts(cfg, run[m], key) && !Ends(run[m], key)
  }

  lemma CallOpenByScan(cfg: Config, run: seq<Step>, key: TaskKey, j: nat, n: nat)
    requires n <= |run|
    ensures CallOpen(cfg, run, key, j, n) <==> OpenAt(cfg, run, Syscall(key), n) == Some(j)
  {
    if CallOpen(cfg, run, key, j, n) {
      forall m | j < m < n
        ensures RoleOf(cfg, run[m], Syscall(key)) == Neutral
      {
        assert !Starts(cfg, run[m], key) && !Ends(run[m], key);
      }
      OpenAtFinds(cfg, run, Syscall(key), j, n);
    }
  }

  /** The open calls of any reachable state, field by field. */
  lemma OpenCalls(cfg: Config, run: seq<Step>, n: nat, key: TaskKey, entry: ActiveSyscall)
    requires n <= |run|
    ensures key in Exec(cfg, run, n).active && Exec(cfg, run, n).active[key] == entry <==>
            exists j: nat :: CallOpen(cfg, run, key, j, n) && entry == RecordedStart(cfg, run[j])
  {
    ActiveTracksTrace(cfg, run, key, n);
    var open := OpenAt(cfg, run, Syscall(key), n);
    if open.Some? {
      CallOpenByScan(cfg, run, key, open.value, n);
      RecordedStartIsEntry(cfg, run[open.value]);
    }
    forall j: nat | CallOpen(cfg, run, key, j, n)
      ensures open == Some(j)
    {
      CallOpenByScan(cfg, run, key, j, n);
    }
  }

  /** Event `e` is the slow call that step `j` started and step `i` ended. */
  ghost predicate SlowCall(cfg: Config, run: seq<Step>, j: nat, i: nat, e: Event) {
    && j < i < |run|
    && CallOpen(cfg, run, TaskKey(e.pid, e.tid), j, i)
    && run[i] == SysExit(TaskKey(e.pid, e.tid), e.comm, e.cpu, e.timestampNs, true)
    && e.durationNs == run[i].now - run[j].now && e.durationNs >= cfg.minLatencyNs
    && RecordedStart(cfg, run[j]) == ActiveSyscall(e.syscallId, run[j].now, e.userStackId, e.kernStackId, e.flags)
    && e.kind == 1 && e.classification == 0
  }

  // ---------------------------------------------------------------- off-CPU slices

  /** A recorded switch-out of thread `t`, past the process filter, which looks at the thread id. */
  predicate Leaves(cfg: Config, st: Step, t: u32) {
    st.SwitchOut? && st.tid == t && st.stored && (cfg.targetPid == 0 || t == cfg.targetPid)
  }

  /** Thread `t` comes back, or the entry that its switch-out wrote is deleted. */
  predicate Returns(st: Step, t: u32) {
    (st.SwitchIn? && st.tid == t) || (st.ProcExit? && st.key == TaskKey(t, t))
  }

  /** Thread `t` was switched out at step `j` and nothing of its own followed before step `n`. */
  ghost predicate SliceOpen(cfg: Config, run: seq<Step>, t: u32, j: nat, n: nat) {
    && j < n <= |run| && Leaves(cfg, run[j], t)
    && forall m :: j < m < n ==> !Leaves(cfg, run[m], t) && !Returns(run[m], t)
  }

  lemma SliceOpenByScan(cfg: Config, run: seq<Step>, t: u32, j: nat, n: nat)
    requires n <= |run|
    ensures SliceOpen(cfg, run, t, j, n) <==> OpenAt(cfg, run, Offcpu(t), n) == Some(j)
  {
    if SliceOpen(cfg, run, t, j, n) {
      forall m | j < m < n
        ensures RoleOf(cfg, run[m], Offcpu(t)) == Neutral
      {
        assert !Leaves(cfg, run[m], t) && !Returns(run[m], t);
      }
      OpenAtFinds(cfg, run, Offcpu(t), j, n);
    }
  }

  /** Event `e` is the off-CPU slice from step `j` to step `i`. */
  ghost predicate Slice(cfg: Config, run: seq<Step>, j: nat, i: nat, e: Event) {
    && j < i < |run| && e.pid == e.tid
    && SliceOpen(cfg, run, e.tid, j, i)
    && run[i] == SwitchIn(e.tid, e.comm, e.cpu, e.timestampNs, true)
    && e.durationNs == run[i].now - run[j].now && e.durationNs >= cfg.minOffcpuNs
    && e.kind == 2 && e.classification == 2
    && e.syscallId == 0 && e.userStackId == -1 && e.kernStackId == -1 && e.flags == 0
  }

  // ---------------------------------------------------------------- exec and exit

  /** Event `e` is the exec or the exit of its task at step `i`. */
  ghost predicate Lifecycle(cfg: Config, run: seq<Step>, i: nat, e: Event) {
    && i < |run|
    && (|| (e.kind == 5 && run[i] == ProcExec(TaskKey(e.pid, e.tid), e.comm, e.cpu, e.timestampNs, true))
        || (e.kind == 6 && run[i] == ProcExit(TaskKey(e.pid, e.tid), e.comm, e.cpu, e.timestampNs, true)))
    && (cfg.targetPid == 0 || e.pid == cfg.targetPid)
    && e.classification == 0 && e.durationNs == 0
    && e.syscallId == 0 && e.userStackId == -1 && e.kernStackId == -1 && e.flags == 0
  }

  // ---------------------------------------------------------------- all events

  lemma ReportedSlowCall(cfg: Config, run: seq<Step>, i: nat, e: Event)
    requires i < |run| && Timed(run) && run[i].SysExit?
    ensures Reported(cfg, run, i) == Some(e) <==> exists j: nat :: SlowCall(cfg, run, j, i, e)
  {
    var key := run[i].key;
    var open := OpenAt(cfg, run, Syscall(key), i);
    if open.Some? {
      CallOpenByScan(cfg, run, key, open.value, i);
      RecordedStartIsEntry(cfg, run[open.value]);
      assert Reported(cfg, run, i) == Some(e) ==> SlowCall(cfg, run, open.value, i, e);
    }
    forall j: nat | SlowCall(cfg, run, j, i, e)
      ensures open == Some(j)
    {
      CallOpenByScan(cfg, run, key, j, i);
    }
  }

  lemma ReportedSlice(cfg: Config, run: seq<Step>, i: nat, e: Event)
    requires i < |run| && Timed(run) && run[i].SwitchIn?
    ensures Reported(cfg, run, i) == Some(e) <==> exists j: nat :: Slice(cfg, run, j, i, e)
  {
    var t := run[i].tid;
    var open := OpenAt(cfg, run, Offcpu(t), i);
    if open.Some? {
      SliceOpenByScan(cfg, run, t, open.value, i);
      assert Reported(cfg, run, i) == Some(e) ==> Slice(cfg, run, open.value, i, e);
    }
    forall j: nat | Slice(cfg, run, j, i, e)
      ensures open == Some(j)
    {
      SliceOpenByScan(cfg, run, t, j, i);
    }
  }

  ghost predicate Explained(cfg: Config, run: seq<Step>, i: nat, e: Event) {
    || (exists j: nat :: SlowCall(cfg, run, j, i, e))
    || (exists j: nat :: Slice(cfg, run, j, i, e))
    || Lifecycle(cfg, run, i, e)
  }

  lemma ReportedExplained(cfg: Config, run: seq<Step>, i: nat, e: Event)
    requires i < |run| && Timed(run)
    ensures Reported(cfg, run, i) == Some(e) <==> Explained(cfg, run, i, e)
  {
    if run[i].SysExit? {
      ReportedSlowCall(cfg, run, i, e);
    } else if run[i].SwitchIn? {
      ReportedSlice(cfg, run, i, e);
    }
  }

  /**
   In every run an event is in the stream exactly when the steps explain it: a slow call that
   both filters admitted, an off-CPU slice whose thread id the process filter accepts, or an
   exec or exit of an accepted process, long enough and with room in the ring buffer.
   */
  lemma EventsExplained(cfg: Config, run: seq<Step>, n: nat, e: Event)
    requires n <= |run| && Timed(run)
    ensures e in Exec(cfg, run, n).events <==> exists i :: 0 <= i < n && Explained(cfg, run, i, e)
  {
    EventsFollowTrace(cfg, run, n);
    var es := ReportedEvents(cfg, run, n);
    if e in es {
      var a :| 0 <= a < |es| && es[a] == e;
      ReportedAt(cfg, run, n, a);
      ReportedExplained(cfg, run, ReportingSteps(cfg, run, n)[a], e);
    }
    forall i | 0 <= i < n && Explained(cfg, run, i, e)
      ensures e in es
    {
      ReportedExplained(cfg, run, i, e);
      var a := ReportingStepFound(cfg, run, n, i);
      ReportedAt(cfg, run, n, a);
      assert es[a] in es;
    }
  }

  /**
   Without a target process and a target name nothing is held back: in every run each recorded
   start and its exit, each recorded switch-out and its switch-in, and each exec and exit, of any
   task at all, gives its event, if it is long enough and finds room.
   */
  lemma UnfilteredReportsAll(cfg: Config, run: seq<Step>, n: nat, j: nat, i: nat, e: Event)
    requires j <= i < n <= |run| && Timed(run) && cfg.targetPid == 0 && cfg.targetComm[0] == 0
    requires run[i].now == e.timestampNs && !run[i].SysEnter? && !run[i].SwitchOut?
    requires run[i].reserved && run[i].comm == e.comm && run[i].cpu == e.cpu
    ensures
      && run[j].SysEnter? && run[j].stored && run[i].SysExit? && run[j].key == run[i].key == TaskKey(e.pid, e.tid)
      && (forall m :: j < m < i && (run[m].SysEnter? || run[m].SysExit? || run[m].ProcExit?) ==> run[m].key != run[i].key)
      && e.durationNs == run[i].now - run[j].now >= cfg.minLatencyNs
      && RecordedStart(cfg, run[j]) == ActiveSyscall(e.syscallId, run[j].now, e.userStackId, e.kernStackId, e.flags)
      && e.kind == 1 && e.classification == 0
      ==> e in Exec(cfg, run, n).events
    ensures
      && run[j].SwitchOut? && run[j].stored && run[i].SwitchIn? && run[j].tid == run[i].tid == e.tid == e.pid
      && (forall m :: j < m < i && (run[m].SwitchOut? || run[m].SwitchIn?) ==> run[m].tid != e.tid)
      && (forall m :: j < m < i && run[m].ProcExit? ==> run[m].key != TaskKey(e.tid, e.tid))
      && e == Event(run[i].now, e.tid, e.tid, e.comm, e.cpu, 2, 2, run[i].now - run[j].now, 0, -1, -1, 0)
      && e.durationNs >= cfg.minOffcpuNs
      ==> e in Exec(cfg, run, n).events
    ensures
      && (run[i].ProcExec? || run[i].ProcExit?) && run[i].key == TaskKey(e.pid, e.tid)
      && e == Event(run[i].now, e.pid, e.tid, e.comm, e.cpu, if run[i].ProcExec? then 5 else 6, 0, 0, 0, -1, -1, 0)
      ==> e in Exec(cfg, run, n).events
  {
    EventsExplained(cfg, run, n, e);
    if SlowCall(cfg, run, j, i, e) || Slice(cfg, run, j, i, e) || Lifecycle(cfg, run, i, e) {
      assert Explained(cfg, run, i, e);
    }
  }
}
