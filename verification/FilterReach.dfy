/** Which events the process filter and the name filter let through, by kind of event. */
module FilterReach {
  import opened Words
  import opened Events
  import opened Filters
  import opened Probe
  import opened Trace
  import opened ProbeLaws

  /** Every task of the run has the command `comm` throughout. A switch-out carries none. */
  predicate AllNamed(run: seq<Step>, comm: Comm) {
    forall i :: 0 <= i < |run| && !run[i].SwitchOut? ==> run[i].comm == comm
  }

  ghost predicate Submits(cfg: Config, run: seq<Step>, kind: u32, key: TaskKey) {
    exists e :: e in Exec(cfg, run, |run|).events && e.kind == kind && e.pid == key.pid && e.tid == key.tid
  }

  /** Some run of tasks named `comm` submits an event of this kind for the task. */
  ghost predicate CanSubmit(cfg: Config, kind: u32, key: TaskKey, comm: Comm) {
    exists run :: Timed(run) && AllNamed(run, comm) && Submits(cfg, run, kind, key)
  }

  /** What the filters and the thresholds leave, by kind of event. */
  predicate Reachable(cfg: Config, kind: u32, key: TaskKey, comm: Comm) {
    && (cfg.targetPid == 0 || key.pid == cfg.targetPid)
    && (|| (&& kind == 1 && cfg.minLatencyNs < 0xFFFF_FFFF_FFFF_FFFF
            && (cfg.targetComm[0] == 0 || CString(comm) == CString(cfg.targetComm)))
        || (kind == 2 && key.pid == key.tid && cfg.minOffcpuNs < 0xFFFF_FFFF_FFFF_FFFF)
        || kind == 5
        || kind == 6)
  }

  lemma ReportedReachable(cfg: Config, run: seq<Step>, i: nat, comm: Comm, e: Event)
    requires i < |run| && Timed(run) && AllNamed(run, comm) && Reported(cfg, run, i) == Some(e)
    ensures Reachable(cfg, e.kind, TaskKey(e.pid, e.tid), comm)
  {
    var j := ClosedFrom(cfg, run, i);
    if j.Some? {
      assert run[j.value].now > 0;
    }
  }

  lemma SubmittedReachable(cfg: Config, run: seq<Step>, kind: u32, key: TaskKey, comm: Comm)
    requires Timed(run) && AllNamed(run, comm) && Submits(cfg, run, kind, key)
    ensures Reachable(cfg, kind, key, comm)
  {
    EventsFollowTrace(cfg, run, |run|);
    var es := ReportedEvents(cfg, run, |run|);
    var a :| 0 <= a < |es| && es[a].kind == kind && es[a].pid == key.pid && es[a].tid == key.tid;
    ReportedAt(cfg, run, |run|, a);
    ReportedReachable(cfg, run, ReportingSteps(cfg, run, |run|)[a], comm, es[a]);
  }

  /** A pair that spans the whole range of the clock is reported. */
  lemma PairSubmits(cfg: Config, run: seq<Step>, c: Channel, kind: u32, key: TaskKey)
    requires Timed(run) && |run| == 2 && Paired(cfg, run, c, 0, 1) && HasRoom(run[1])
    requires run[1].now - run[0].now >= Threshold(cfg, c)
    requires if c.Syscall? then kind == EV_SYSCALL_SLOW && key == c.key
             else kind == EV_OFFCPU_SLICE && key == TaskKey(c.tid, c.tid)
    ensures Submits(cfg, run, kind, key)
  {
    KeptPairReported(cfg, run, 2, c, 0, 1);
  }

  lemma SyscallSubmits(cfg: Config, key: TaskKey, comm: Comm)
    requires Reachable(cfg, EV_SYSCALL_SLOW, key, comm)
    ensures CanSubmit(cfg, EV_SYSCALL_SLOW, key, comm)
  {
    var run := [SysEnter(key, comm, 0, 1, 0, -1, -1, true), SysExit(key, comm, 0, W64 - 1, true)];
    assert Paired(cfg, run, Syscall(key), 0, 1);
    PairSubmits(cfg, run, Syscall(key), EV_SYSCALL_SLOW, key);
    assert Timed(run) && AllNamed(run, comm);
  }

  lemma SliceSubmits(cfg: Config, key: TaskKey, comm: Comm)
    requires Reachable(cfg, EV_OFFCPU_SLICE, key, comm)
    ensures CanSubmit(cfg, EV_OFFCPU_SLICE, key, comm)
  {
    var run := [SwitchOut(key.tid, 0, 1, true), SwitchIn(key.tid, comm, 0, W64 - 1, true)];
    assert Paired(cfg, run, Offcpu(key.tid), 0, 1);
    PairSubmits(cfg, run, Offcpu(key.tid), EV_OFFCPU_SLICE, key);
    assert Timed(run) && AllNamed(run, comm);
  }

  lemma LifecycleSubmits(cfg: Config, kind: u32, key: TaskKey, comm: Comm)
    requires Reachable(cfg, kind, key, comm) && (kind == EV_PROC_EXEC || kind == EV_PROC_EXIT)
    ensures CanSubmit(cfg, kind, key, comm)
  {
    var step := if kind == EV_PROC_EXEC then ProcExec(key, comm, 0, 1, true) else ProcExit(key, comm, 0, 1, true);
    var run := [step];
    assert Exec(cfg, run, 1) == Apply(cfg, Exec(cfg, run, 0), step);
    assert LifecycleEvent(key, comm, 0, 1, kind) in Exec(cfg, run, 1).events;
    assert Timed(run) && AllNamed(run, comm) && Submits(cfg, run, kind, key);
  }

  /**
   A run of tasks with one command can submit an event for (pid, tid) exactly when the process
   filter accepts the pid and, by kind: a slow call needs an admitted command; an off-CPU slice
   needs none but is only ever submitted as (tid, tid); the lifecycle events need neither.
   */
  lemma FiltersReach(cfg: Config, kind: u32, key: TaskKey, comm: Comm)
    ensures CanSubmit(cfg, kind, key, comm) <==> Reachable(cfg, kind, key, comm)
  {
    if CanSubmit(cfg, kind, key, comm) {
      var run :| Timed(run) && AllNamed(run, comm) && Submits(cfg, run, kind, key);
      SubmittedReachable(cfg, run, kind, key, comm);
    } else if Reachable(cfg, kind, key, comm) {
      if kind == EV_SYSCALL_SLOW {
        SyscallSubmits(cfg, key, comm);
      } else if kind == EV_OFFCPU_SLICE {
        SliceSubmits(cfg, key, comm);
      } else {
        LifecycleSubmits(cfg, kind, key, comm);
      }
    }
  }

  /**
   In any run with a target process, every event carries the target as its pid, and an
   off-CPU slice carries it as its tid too: no slice of another thread of the target is
   ever reported.
   */
  lemma TargetShowsLeaderSlices(cfg: Config, run: seq<Step>, n: nat, e: Event)
    requires n <= |run| && Timed(run) && cfg.targetPid != 0 && e in Exec(cfg, run, n).events
    ensures e.pid == cfg.targetPid
    ensures e.kind == EV_OFFCPU_SLICE ==> e.tid == cfg.targetPid
  {
    EventsFollowTrace(cfg, run, n);
    var a :| 0 <= a < |ReportedEvents(cfg, run, n)| && ReportedEvents(cfg, run, n)[a] == e;
    ReportedAt(cfg, run, n, a);
    ReportedPasses(cfg, run, ReportingSteps(cfg, run, n)[a], e);
  }

  lemma ReportedPasses(cfg: Config, run: seq<Step>, i: nat, e: Event)
    requires i < |run| && Timed(run) && Reported(cfg, run, i) == Some(e)
    ensures FilterPid(cfg.targetPid, e.pid) && (e.kind == EV_OFFCPU_SLICE ==> e.pid == e.tid)
  {
    var j := ClosedFrom(cfg, run, i);
    if j.Some? && run[i].SysExit? {
      assert run[j.value].SysEnter?;
    }
  }
}
