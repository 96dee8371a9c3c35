/**
 The tracepoint handlers as a transition system over the two task maps and the
 stream of submitted events.

 A handler invocation is one `Step`. It carries what the kernel supplies: the
 current task, its command buffer, the clock reading, stack ids, the random
 sample, whether the ring-buffer reservation succeeded (`reserved`) and whether
 the map accepted the entry (`stored`). The scheduler handler touches two tasks
 and is split into its switch-out half and its switch-in half, so the laws about
 runs also cover every interleaving of the halves on different CPUs.
 */
module Probe {
  import opened Words
  import opened Events
  import opened Filters

  const MAX_ACTIVE_SYSCALLS: nat := 65536
  const MAX_SCHED_ENTRIES: nat := 65536

  datatype Config = Config(
    targetPid: u32,
    targetComm: Comm,
    minLatencyNs: u64,
    minOffcpuNs: u64,
    captureUserStacks: bool,
    captureKernStacks: bool,
    stackSamplingPct: u32)

  datatype TaskKey = TaskKey(pid: u32, tid: u32)

  datatype ActiveSyscall = ActiveSyscall(
    id: u64, startNs: u64, userStackId: i64, kernStackId: i64, flags: u32)

  datatype SchedState = SchedState(
    switchOutNs: u64, switchInNs: u64, accumulatedOffcpuNs: u64, lastState: u32)

  datatype State = State(
    active: map<TaskKey, ActiveSyscall>,
    sched: map<TaskKey, SchedState>,
    events: seq<Event>)

  datatype Step =
    | SysEnter(key: TaskKey, comm: Comm, id: u64, now: u64, rand: u32,
               userStack: i64, kernStack: i64, stored: bool)
    | SysExit(key: TaskKey, comm: Comm, cpu: u32, now: u64, reserved: bool)
    | SwitchOut(tid: u32, prevState: u32, now: u64, stored: bool)
    | SwitchIn(tid: u32, comm: Comm, cpu: u32, now: u64, reserved: bool)
    | ProcExec(key: TaskKey, comm: Comm, cpu: u32, now: u64, reserved: bool)
    | ProcExit(key: TaskKey, comm: Comm, cpu: u32, now: u64, reserved: bool)

  const INITIAL := State(map[], map[], [])

  const FRESH_SCHED := SchedState(0, 0, 0, 0)

  predicate ShouldCaptureStack(cfg: Config, rand: u32) {
    cfg.stackSamplingPct >= 100 || rand % 100 < cfg.stackSamplingPct
  }

  /** Both filters that guard the start of a system call. */
  predicate Admitted(cfg: Config, key: TaskKey, comm: Comm) {
    FilterPid(cfg.targetPid, key.pid) && CommAdmitted(cfg.targetComm, comm)
  }

  /** The entry written for a started system call. */
  function StartedSyscall(cfg: Config, id: u64, now: u64, rand: u32, userStack: i64, kernStack: i64): (r: ActiveSyscall)
    ensures FlagsAgree(r.flags, r.userStackId, r.kernStackId)
  {
    var sampled := ShouldCaptureStack(cfg, rand);
    var user: i64 := if sampled && cfg.captureUserStacks then userStack else -1;
    var kern: i64 := if sampled && cfg.captureKernStacks then kernStack else -1;
    var flags := (if user >= 0 then 1 else 0) + (if kern >= 0 then 2 else 0);
    ActiveSyscall(id, now, user, kern, flags)
  }

  function SyscallEvent(key: TaskKey, comm: Comm, cpu: u32, now: u64, entry: ActiveSyscall): Event {
    Event(now, key.pid, key.tid, comm, cpu, EV_SYSCALL_SLOW, LAT_UNKNOWN,
          Sub64(now, entry.startNs), entry.id, entry.userStackId, entry.kernStackId, entry.flags)
  }

  function OffcpuEvent(tid: u32, comm: Comm, cpu: u32, now: u64, durationNs: u64): Event {
    Event(now, tid, tid, comm, cpu, EV_OFFCPU_SLICE, LAT_OFF_CPU, durationNs, 0, -1, -1, 0)
  }

  function LifecycleEvent(key: TaskKey, comm: Comm, cpu: u32, now: u64, kind: u32): Event {
    Event(now, key.pid, key.tid, comm, cpu, kind, LAT_UNKNOWN, 0, 0, -1, -1, 0)
  }

  /** The effect of one step. */
  function Apply(cfg: Config, s: State, st: Step): State {
    match st
    case SysEnter(key, comm, id, now, rand, userStack, kernStack, stored) =>
      if Admitted(cfg, key, comm) && stored
      then s.(active := s.active[key := StartedSyscall(cfg, id, now, rand, userStack, kernStack)])
      else s
    case SysExit(key, comm, cpu, now, reserved) =>
      if key !in s.active then s
      else
        var e := SyscallEvent(key, comm, cpu, now, s.active[key]);
        s.(active := s.active - {key},
           events := if e.durationNs >= cfg.minLatencyNs && reserved then s.events + [e] else s.events)
    case SwitchOut(tid, prevState, now, stored) =>
      var key := TaskKey(tid, tid);
      if FilterPid(cfg.targetPid, tid) && stored
      then
        var before := if key in s.sched then s.sched[key] else FRESH_SCHED;
        s.(sched := s.sched[key := before.(switchOutNs := now, lastState := prevState)])
      else s
    case SwitchIn(tid, comm, cpu, now, reserved) =>
      var key := TaskKey(tid, tid);
      if FilterPid(cfg.targetPid, tid) && key in s.sched && s.sched[key].switchOutNs > 0
      then
        var before := s.sched[key];
        var offcpuNs := Sub64(now, before.switchOutNs);
        s.(sched := s.sched[key := before.(switchOutNs := 0, switchInNs := now,
                                           accumulatedOffcpuNs := Add64(before.accumulatedOffcpuNs, offcpuNs))],
           events := if offcpuNs >= cfg.minOffcpuNs && reserved
                     then s.events + [OffcpuEvent(tid, comm, cpu, now, offcpuNs)] else s.events)
      else s
    case ProcExec(key, comm, cpu, now, reserved) =>
      if FilterPid(cfg.targetPid, key.pid) && reserved
      then s.(events := s.events + [LifecycleEvent(key, comm, cpu, now, EV_PROC_EXEC)])
      else s
    case ProcExit(key, comm, cpu, now, reserved) =>
      var s' := s.(active := s.active - {key}, sched := s.sched - {key});
      if FilterPid(cfg.targetPid, key.pid) && reserved
      then s'.(events := s'.events + [LifecycleEvent(key, comm, cpu, now, EV_PROC_EXIT)])
      else s'
  }

  /** The state after the first `n` steps of a run. */
  function Exec(cfg: Config, run: seq<Step>, n: nat): State
    requires n <= |run|
  {
    if n == 0 then INITIAL else Apply(cfg, Exec(cfg, run, n - 1), run[n - 1])
  }

  /** The clock is positive and never goes back (CLOCK_MONOTONIC). */
  predicate Timed(run: seq<Step>) {
    && (forall i :: 0 <= i < |run| ==> run[i].now > 0)
    && (forall i, j :: 0 <= i <= j < |run| ==> run[i].now <= run[j].now)
  }

  /** A hash map refuses an update exactly when the key is new and the map is full. */
  predicate MapRuleKept(s: State, st: Step) {
    match st
    case SysEnter(key, _, _, _, _, _, _, stored) =>
      stored <==> key in s.active || |s.active| < MAX_ACTIVE_SYSCALLS
    case SwitchOut(tid, _, _, stored) =>
      stored <==> TaskKey(tid, tid) in s.sched || |s.sched| < MAX_SCHED_ENTRIES
    case _ => true
  }

  /** Every map update among the first `n` steps followed that rule. */
  predicate MapRuleFollowed(cfg: Config, run: seq<Step>, n: nat)
    requires n <= |run|
  {
    n > 0 ==> MapRuleFollowed(cfg, run, n - 1) && MapRuleKept(Exec(cfg, run, n - 1), run[n - 1])
  }

  predicate WithinCapacity(s: State) {
    |s.active| <= MAX_ACTIVE_SYSCALLS && |s.sched| <= MAX_SCHED_ENTRIES
  }

  /** In every run whose map updates follow that rule, neither map outgrows its capacity. */
  lemma {:induction false} CapacityKept(cfg: Config, run: seq<Step>, n: nat)
    requires n <= |run| && MapRuleFollowed(cfg, run, n)
    ensures WithinCapacity(Exec(cfg, run, n))
    ensures |Exec(cfg, run, n).active| <= 65536 && |Exec(cfg, run, n).sched| <= 65536
    decreases n
  {
    if n == 0 {
      assert Exec(cfg, run, 0) == INITIAL;
    } else {
      CapacityKept(cfg, run, n - 1);
      assert MapRuleKept(Exec(cfg, run, n - 1), run[n - 1]);
      CapacityStep(cfg, Exec(cfg, run, n - 1), run[n - 1], Exec(cfg, run, n));
    }
  }

  lemma CapacityStep(cfg: Config, s: State, st: Step, s': State)
    requires WithinCapacity(s) && MapRuleKept(s, st) && s' == Apply(cfg, s, st)
    ensures WithinCapacity(s')
  {
    ActiveCapacityStep(cfg, s, st);
    SchedCapacityStep(cfg, s, st);
  }

  lemma ActiveCapacityStep(cfg: Config, s: State, st: Step)
    requires WithinCapacity(s) && MapRuleKept(s, st)
    ensures |Apply(cfg, s, st).active| <= MAX_ACTIVE_SYSCALLS
  {
    match st
    case SysEnter(key, _, id, now, rand, userStack, kernStack, _) =>
      PutSize(s.active, key, StartedSyscall(cfg, id, now, rand, userStack, kernStack));
    case SysExit(key, _, _, _, _) =>
      DropSize(s.active, key);
    case ProcExit(key, _, _, _, _) =>
      DropSize(s.active, key);
    case _ =>
  }

  lemma SchedCapacityStep(cfg: Config, s: State, st: Step)
    requires WithinCapacity(s) && MapRuleKept(s, st)
    ensures |Apply(cfg, s, st).sched| <= MAX_SCHED_ENTRIES
  {
    match st
    case SwitchOut(tid, prevState, now, _) =>
      var key := TaskKey(tid, tid);
      var before := if key in s.sched then s.sched[key] else FRESH_SCHED;
      PutSize(s.sched, key, before.(switchOutNs := now, lastState := prevState));
    case SwitchIn(tid, _, _, _, _) =>
      var key := TaskKey(tid, tid);
      if key in s.sched {
        PutSize(s.sched, key, Apply(cfg, s, st).sched[key]);
      }
    case ProcExit(key, _, _, _, _) =>
      DropSize(s.sched, key);
    case _ =>
  }

  lemma PutSize<V>(m: map<TaskKey, V>, key: TaskKey, v: V)
    ensures |m[key := v]| == if key in m then |m| else |m| + 1
  {
    assert m[key := v].Keys == m.Keys + {key};
  }

  lemma DropSize<V>(m: map<TaskKey, V>, key: TaskKey)
    ensures |m - {key}| <= |m|
  {
    assert (m - {key}).Keys == m.Keys - {key};
  }

  /** The handlers themselves, updating the maps in place. */
  class Handlers {
    const cfg: Config
    var active: map<TaskKey, ActiveSyscall>
    var sched: map<TaskKey, SchedState>
    var events: seq<Event>

    ghost function Model(): State
      reads this
    {
      State(active, sched, events)
    }

    constructor (cfg: Config)
      ensures this.cfg == cfg && Model() == INITIAL
    {
      this.cfg := cfg;
      active, sched, events := map[], map[], [];
    }

    method SysEnterHandler(key: TaskKey, comm: Comm, id: u64, now: u64, rand: u32, userStack: i64, kernStack: i64)
      requires WithinCapacity(Model())
      modifies this
      ensures var stored := key in old(active) || |old(active)| < 65536;
              Model() == Apply(cfg, old(Model()), SysEnter(key, comm, id, now, rand, userStack, kernStack, stored))
      ensures WithinCapacity(Model())
    {
      if !FilterPid(cfg.targetPid, key.pid) {
        return;
      }
      var passes := FilterComm(cfg.targetComm, comm);
      if !passes {
        return;
      }
      var entry := ActiveSyscall(id, now, -1, -1, 0);
      if ShouldCaptureStack(cfg, rand) {
        if cfg.captureUserStacks {
          entry := entry.(userStackId := userStack);
        }
        if cfg.captureKernStacks {
          entry := entry.(kernStackId := kernStack);
        }
        if entry.userStackId >= 0 {
          entry := entry.(flags := entry.flags + 1);
        }
        if entry.kernStackId >= 0 {
          entry := entry.(flags := entry.flags + 2);
        }
      }
      PutSize(active, key, entry);
      if key in active || |active| < MAX_ACTIVE_SYSCALLS {
        active := active[key := entry];
      }
    }

    method SysExitHandler(key: TaskKey, comm: Comm, cpu: u32, now: u64, reserved: bool)
      requires WithinCapacity(Model())
      modifies this
      ensures Model() == Apply(cfg, old(Model()), SysExit(key, comm, cpu, now, reserved))
      ensures WithinCapacity(Model())
    {
      if key !in active {
        return;
      }
      var entry := active[key];
      var deltaNs := Sub64(now, entry.startNs);
      if deltaNs >= cfg.minLatencyNs {
        if reserved {
          var e := LifecycleEvent(key, comm, cpu, now, EV_NONE);
          e := e.(kind := EV_SYSCALL_SLOW, durationNs := deltaNs, syscallId := entry.id);
          e := e.(userStackId := entry.userStackId, kernStackId := entry.kernStackId, flags := entry.flags);
          events := events + [e];
        }
      }
      DropSize(active, key);
      active := active - {key};
    }

    /** Both halves of a context switch, in program order. */
    method SchedSwitchHandler(prevTid: u32, prevState: u32, nextTid: u32, nextComm: Comm, cpu: u32,
                              outNow: u64, inNow: u64, reserved: bool)
      requires WithinCapacity(Model())
      modifies this
      ensures var stored := TaskKey(prevTid, prevTid) in old(sched) || |old(sched)| < 65536;
              Model() == Apply(cfg, Apply(cfg, old(Model()), SwitchOut(prevTid, prevState, outNow, stored)),
                               SwitchIn(nextTid, nextComm, cpu, inNow, reserved))
      ensures WithinCapacity(Model())
    {
      var prevKey := TaskKey(prevTid, prevTid);
      if FilterPid(cfg.targetPid, prevTid) {
        var newState := FRESH_SCHED;
        if prevKey in sched {
          newState := sched[prevKey];
        }
        newState := newState.(switchOutNs := outNow);
        newState := newState.(lastState := prevState);
        PutSize(sched, prevKey, newState);
        if prevKey in sched || |sched| < MAX_SCHED_ENTRIES {
          sched := sched[prevKey := newState];
        }
      }
      var nextKey := TaskKey(nextTid, nextTid);
      if FilterPid(cfg.targetPid, nextTid) {
        if nextKey in sched && sched[nextKey].switchOutNs > 0 {
          var state := sched[nextKey];
          var offcpuNs := Sub64(inNow, state.switchOutNs);
          state := state.(switchInNs := inNow);
          state := state.(accumulatedOffcpuNs := Add64(state.accumulatedOffcpuNs, offcpuNs));
          if offcpuNs >= cfg.minOffcpuNs {
            if reserved {
              events := events + [OffcpuEvent(nextTid, nextComm, cpu, inNow, offcpuNs)];
            }
          }
          state := state.(switchOutNs := 0);
          PutSize(sched, nextKey, state);
          sched := sched[nextKey := state];
        }
      }
    }

    method ProcessExecHandler(key: TaskKey, comm: Comm, cpu: u32, now: u64, reserved: bool)
      modifies this
      ensures Model() == Apply(cfg, old(Model()), ProcExec(key, comm, cpu, now, reserved))
    {
      if !FilterPid(cfg.targetPid, key.pid) {
        return;
      }
      if reserved {
        events := events + [LifecycleEvent(key, comm, cpu, now, EV_PROC_EXEC)];
      }
    }

    method ProcessExitHandler(key: TaskKey, comm: Comm, cpu: u32, now: u64, reserved: bool)
      requires WithinCapacity(Model())
      modifies this
      ensures Model() == Apply(cfg, old(Model()), ProcExit(key, comm, cpu, now, reserved))
      ensures WithinCapacity(Model())
    {
      DropSize(active, key);
      DropSize(sched, key);
      active := active - {key};
      sched := sched - {key};
      if !FilterPid(cfg.targetPid, key.pid) {
        return;
      }
      if reserved {
        events := events + [LifecycleEvent(key, comm, cpu, now, EV_PROC_EXIT)];
      }
    }
  }
}
