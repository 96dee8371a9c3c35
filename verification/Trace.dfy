/**
 What a run should report, read off the trace alone.

 Each task has two channels: its system calls, under (tgid, tid), and its time off
 the CPU, under its tid. On a channel a step may open an interval, close it, clear
 it, or not matter. A close is paired with an earlier open exactly when nothing on
 that channel happened in between. The theorems here say that the two kernel maps
 and the event stream are determined by those pairs in every run.
 */
module Trace {
  import opened Words
  import opened Events
  import opened Filters
  import opened Probe

  datatype Channel = Syscall(key: TaskKey) | Offcpu(tid: u32)

  datatype Role = Opens | Closes | Clears | Neutral

  function RoleOf(cfg: Config, st: Step, c: Channel): Role {
    match c
    case Syscall(k) => (
      match st
      case SysEnter(key, comm, _, _, _, _, _, stored) =>
        if key == k && Admitted(cfg, key, comm) && stored then Opens else Neutral
      case SysExit(key, _, _, _, _) => if key == k then Closes else Neutral
      case ProcExit(key, _, _, _, _) => if key == k then Clears else Neutral
      case _ => Neutral
    )
    case Offcpu(t) => (
      match st
      case SwitchOut(tid, _, _, stored) =>
        if tid == t && FilterPid(cfg.targetPid, tid) && stored then Opens else Neutral
      case SwitchIn(tid, _, _, _, _) =>
        if tid == t && FilterPid(cfg.targetPid, tid) then Closes else Neutral
      case ProcExit(key, _, _, _, _) => if key == TaskKey(t, t) then Clears else Neutral
      case _ => Neutral
    )
  }

  /** The close at step `i` belongs to the open at step `j`. */
  ghost predicate Paired(cfg: Config, run: seq<Step>, c: Channel, j: nat, i: nat) {
    && j < i < |run|
    && RoleOf(cfg, run[j], c) == Opens
    && RoleOf(cfg, run[i], c) == Closes
    && forall m :: j < m < i ==> RoleOf(cfg, run[m], c) == Neutral
  }

  /** The step whose interval is still open on `c` after `n` steps, if there is one. */
  function OpenAt(cfg: Config, run: seq<Step>, c: Channel, n: nat): (r: Option<nat>)
    requires n <= |run|
    ensures r.Some? ==> r.value < n && RoleOf(cfg, run[r.value], c) == Opens
    ensures r.Some? ==> forall m :: r.value < m < n ==> RoleOf(cfg, run[m], c) == Neutral
  {
    if n == 0 then None
    else match RoleOf(cfg, run[n - 1], c)
      case Opens => Some(n - 1)
      case Neutral => OpenAt(cfg, run, c, n - 1)
      case _ => None
  }

  lemma {:induction false} OpenAtFinds(cfg: Config, run: seq<Step>, c: Channel, j: nat, n: nat)
    requires j < n <= |run| && RoleOf(cfg, run[j], c) == Opens
    requires forall m :: j < m < n ==> RoleOf(cfg, run[m], c) == Neutral
    ensures OpenAt(cfg, run, c, n) == Some(j)
  {
    if j < n - 1 {
      assert RoleOf(cfg, run[n - 1], c) == Neutral;
      OpenAtFinds(cfg, run, c, j, n - 1);
    }
  }

  /** The backward scan finds the paired open, and only it. */
  lemma PairingByScan(cfg: Config, run: seq<Step>, c: Channel, j: nat, i: nat)
    requires i < |run| && RoleOf(cfg, run[i], c) == Closes
    ensures Paired(cfg, run, c, j, i) <==> OpenAt(cfg, run, c, i) == Some(j)
  {
    if Paired(cfg, run, c, j, i) {
      OpenAtFinds(cfg, run, c, j, i);
    }
  }

  /** The entry that the system-call start at `st` would leave in the map. */
  function EntryOf(cfg: Config, st: Step): ActiveSyscall
    requires st.SysEnter?
  {
    StartedSyscall(cfg, st.id, st.now, st.rand, st.userStack, st.kernStack)
  }

  /** `active_syscalls` holds exactly the open system calls, as they were started. */
  lemma {:induction false} ActiveTracksTrace(cfg: Config, run: seq<Step>, k: TaskKey, n: nat)
    requires n <= |run|
    ensures var open := OpenAt(cfg, run, Syscall(k), n);
            var active := Exec(cfg, run, n).active;
            && (k in active <==> open.Some?)
            && (open.Some? ==> run[open.value].SysEnter? && active[k] == EntryOf(cfg, run[open.value]))
    decreases n
  {
    if n > 0 {
      ActiveTracksTrace(cfg, run, k, n - 1);
    }
  }

  /** A `sched_states` entry is armed exactly while its task is switched out. */
  lemma {:induction false} SchedTracksTrace(cfg: Config, run: seq<Step>, t: u32, n: nat)
    requires n <= |run| && Timed(run)
    ensures var open := OpenAt(cfg, run, Offcpu(t), n);
            var sched := Exec(cfg, run, n).sched;
            var key := TaskKey(t, t);
            && (key in sched && sched[key].switchOutNs > 0 <==> open.Some?)
            && (open.Some? ==> sched[key].switchOutNs == run[open.value].now)
    decreases n
  {
    if n > 0 {
      SchedTracksTrace(cfg, run, t, n - 1);
      assert run[n - 1].now > 0;
    }
  }

  /** The channel on which a step can close an interval. */
  function ClosingChannel(st: Step): Option<Channel> {
    match st
    case SysExit(key, _, _, _, _) => Some(Syscall(key))
    case SwitchIn(tid, _, _, _, _) => Some(Offcpu(tid))
    case _ => None
  }

  function Threshold(cfg: Config, c: Channel): u64 {
    if c.Syscall? then cfg.minLatencyNs else cfg.minOffcpuNs
  }

  /** The start of the interval that step `i` closes, if it closes one. */
  function ClosedFrom(cfg: Config, run: seq<Step>, i: nat): (r: Option<nat>)
    requires i < |run|
    ensures r.Some? ==> r.value < i && ClosingChannel(run[i]).Some?
    ensures r.Some? ==> RoleOf(cfg, run[r.value], ClosingChannel(run[i]).value) == Opens
  {
    var c := ClosingChannel(run[i]);
    if c.Some? && RoleOf(cfg, run[i], c.value) == Closes then OpenAt(cfg, run, c.value, i) else None
  }

  /** The length of the interval that step `i` closes, zero if it closes none. */
  function ClosedNs(cfg: Config, run: seq<Step>, i: nat): (r: u64)
    requires i < |run| && Timed(run)
  {
    var j := ClosedFrom(cfg, run, i);
    if j.Some? then run[i].now - run[j.value].now else 0
  }

  /** Step `i` closes an interval that is long enough and found room in the ring buffer. */
  predicate Kept(cfg: Config, run: seq<Step>, i: nat)
    requires i < |run| && Timed(run)
  {
    && ClosedFrom(cfg, run, i).Some?
    && ClosedNs(cfg, run, i) >= Threshold(cfg, ClosingChannel(run[i]).value)
    && run[i].reserved
  }

  /** The event that step `i` must report, if any, read off the trace. */
  function Reported(cfg: Config, run: seq<Step>, i: nat): Option<Event>
    requires i < |run| && Timed(run)
  {
    match run[i]
    case SysExit(key, comm, cpu, now, _) =>
      if !Kept(cfg, run, i) then None
      else
        var entry := EntryOf(cfg, run[ClosedFrom(cfg, run, i).value]);
        Some(Event(now, key.pid, key.tid, comm, cpu, EV_SYSCALL_SLOW, LAT_UNKNOWN, ClosedNs(cfg, run, i),
                   entry.id, entry.userStackId, entry.kernStackId, entry.flags))
    case SwitchIn(tid, comm, cpu, now, _) =>
      if !Kept(cfg, run, i) then None
      else Some(Event(now, tid, tid, comm, cpu, EV_OFFCPU_SLICE, LAT_OFF_CPU, ClosedNs(cfg, run, i), 0, -1, -1, 0))
    case ProcExec(key, comm, cpu, now, reserved) =>
      if FilterPid(cfg.targetPid, key.pid) && reserved
      then Some(Event(now, key.pid, key.tid, comm, cpu, EV_PROC_EXEC, LAT_UNKNOWN, 0, 0, -1, -1, 0)) else None
    case ProcExit(key, comm, cpu, now, reserved) =>
      if FilterPid(cfg.targetPid, key.pid) && reserved
      then Some(Event(now, key.pid, key.tid, comm, cpu, EV_PROC_EXIT, LAT_UNKNOWN, 0, 0, -1, -1, 0)) else None
    case _ => None
  }

  /** The reporting steps among the first `n`, in order. */
  function ReportingSteps(cfg: Config, run: seq<Step>, n: nat): (r: seq<nat>)
    requires n <= |run| && Timed(run)
    ensures forall a :: 0 <= a < |r| ==> r[a] < n
  {
    if n == 0 then []
    else
      var before := ReportingSteps(cfg, run, n - 1);
      if Reported(cfg, run, n - 1).Some? then before + [n - 1] else before
  }

  /** The events that the first `n` steps must report. */
  function ReportedEvents(cfg: Config, run: seq<Step>, n: nat): (r: seq<Event>)
    requires n <= |run| && Timed(run)
    ensures |r| == |ReportingSteps(cfg, run, n)|
  {
    if n == 0 then []
    else
      var before := ReportedEvents(cfg, run, n - 1);
      var e := Reported(cfg, run, n - 1);
      if e.Some? then before + [e.value] else before
  }

  /** Each reported event is the one its step calls for. */
  lemma {:induction false} ReportedAt(cfg: Config, run: seq<Step>, n: nat, a: nat)
    requires n <= |run| && Timed(run) && a < |ReportedEvents(cfg, run, n)|
    ensures Reported(cfg, run, ReportingSteps(cfg, run, n)[a]) == Some(ReportedEvents(cfg, run, n)[a])
  {
    if a < |ReportedEvents(cfg, run, n - 1)| {
      ReportedAt(cfg, run, n - 1, a);
    }
  }

  lemma {:induction false} ReportingStepsOrdered(cfg: Config, run: seq<Step>, n: nat)
    requires n <= |run| && Timed(run)
    ensures forall a, b :: 0 <= a < b < |ReportingSteps(cfg, run, n)| ==>
              ReportingSteps(cfg, run, n)[a] < ReportingSteps(cfg, run, n)[b]
  {
    if n > 0 {
      ReportingStepsOrdered(cfg, run, n - 1);
    }
  }

  /** Every step that calls for an event is among the reporting ones. */
  lemma {:induction false} ReportingStepFound(cfg: Config, run: seq<Step>, n: nat, i: nat) returns (a: nat)
    requires i < n <= |run| && Timed(run) && Reported(cfg, run, i).Some?
    ensures a < |ReportingSteps(cfg, run, n)| && ReportingSteps(cfg, run, n)[a] == i
  {
    if i == n - 1 {
      a := |ReportingSteps(cfg, run, n)| - 1;
    } else {
      a := ReportingStepFound(cfg, run, n - 1, i);
    }
  }

  /** One step of the handlers submits exactly the event the trace calls for. */
  lemma SubmitsReported(cfg: Config, run: seq<Step>, i: nat)
    requires i < |run| && Timed(run)
    ensures var e := Reported(cfg, run, i);
            var before := Exec(cfg, run, i).events;
            Exec(cfg, run, i + 1).events == if e.Some? then before + [e.value] else before
  {
    var s := Exec(cfg, run, i);
    assert Exec(cfg, run, i + 1) == Apply(cfg, s, run[i]);
    match run[i]
    case SysExit(key, comm, cpu, now, reserved) =>
      ActiveTracksTrace(cfg, run, key, i);
      var open := OpenAt(cfg, run, Syscall(key), i);
      if open.Some? {
        assert run[open.value].now <= now;
        assert Sub64(now, s.active[key].startNs) == now - run[open.value].now;
      }
    case SwitchIn(tid, comm, cpu, now, reserved) =>
      SchedTracksTrace(cfg, run, tid, i);
      var open := OpenAt(cfg, run, Offcpu(tid), i);
      if open.Some? {
        assert run[open.value].now <= now;
        assert Sub64(now, s.sched[TaskKey(tid, tid)].switchOutNs) == now - run[open.value].now;
      }
    case _ =>
  }

  /**
   In every run, with any reservations lost and any insertions refused, the event
   stream is exactly the one read off the trace.
   */
  lemma {:induction false} EventsFollowTrace(cfg: Config, run: seq<Step>, n: nat)
    requires n <= |run| && Timed(run)
    ensures Exec(cfg, run, n).events == ReportedEvents(cfg, run, n)
    decreases n
  {
    if n > 0 {
      EventsFollowTrace(cfg, run, n - 1);
      SubmitsReported(cfg, run, n - 1);
    }
  }
}
