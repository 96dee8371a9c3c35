/** Laws of every run of the tracepoint handlers. */
module ProbeLaws {
  import opened Words
  import opened Events
  import opened Filters
  import opened Probe
  import opened Trace

  // ---------------------------------------------------------------- origin

  /**
   Every slow-system-call event comes from a start that both filters admitted, by
   the same task, at the instant the event's interval begins, with the start's
   call number, stack ids and flags. The exit handler checks neither filter.
   */
  lemma SyscallEventOrigin(cfg: Config, run: seq<Step>, n: nat, a: nat)
    requires n <= |run| && Timed(run)
    requires a < |Exec(cfg, run, n).events| && Exec(cfg, run, n).events[a].kind == EV_SYSCALL_SLOW
    ensures var e := Exec(cfg, run, n).events[a];
            exists j: nat, i: nat ::
              && Paired(cfg, run, Syscall(TaskKey(e.pid, e.tid)), j, i) && i < n
              && run[j].SysEnter? && Admitted(cfg, TaskKey(e.pid, e.tid), run[j].comm)
              && FilterPid(cfg.targetPid, e.pid)
              && e.timestampNs == run[i].now && e.durationNs == run[i].now - run[j].now
              && e.durationNs >= cfg.minLatencyNs && run[i].reserved
              && ActiveSyscall(e.syscallId, run[j].now, e.userStackId, e.kernStackId, e.flags) == EntryOf(cfg, run[j])
              && e.syscallId == run[j].id
  {
    EventsFollowTrace(cfg, run, n);
    var i := ReportingSteps(cfg, run, n)[a];
    var e := Exec(cfg, run, n).events[a];
    ReportedAt(cfg, run, n, a);
    var c := Syscall(TaskKey(e.pid, e.tid));
    var j := ClosedFrom(cfg, run, i).value;
    PairingByScan(cfg, run, c, j, i);
    assert Paired(cfg, run, c, j, i);
  }

  /** The event reports an interval of channel `c`. */
  predicate OnChannel(e: Event, c: Channel) {
    match c
    case Syscall(k) => e.kind == EV_SYSCALL_SLOW && e.pid == k.pid && e.tid == k.tid
    case Offcpu(t) => e.kind == EV_OFFCPU_SLICE && e.pid == t && e.tid == t
  }

  /** A step that could submit an event and found room for it. */
  predicate HasRoom(st: Step) {
    !st.SysEnter? && !st.SwitchOut? && st.reserved
  }

  lemma KeptPairCallsForEvent(cfg: Config, run: seq<Step>, c: Channel, j: nat, i: nat)
    requires Timed(run) && Paired(cfg, run, c, j, i)
    requires run[i].now - run[j].now >= Threshold(cfg, c) && HasRoom(run[i])
    ensures var e := Reported(cfg, run, i);
            && e.Some? && OnChannel(e.value, c)
            && e.value.timestampNs == run[i].now && e.value.durationNs == run[i].now - run[j].now
  {
    PairingByScan(cfg, run, c, j, i);
    assert ClosingChannel(run[i]) == Some(c);
    assert ClosedFrom(cfg, run, i) == Some(j);
  }

  /** Conversely, every interval that is long enough and found room is reported. */
  lemma KeptPairReported(cfg: Config, run: seq<Step>, n: nat, c: Channel, j: nat, i: nat)
    requires i < n <= |run| && Timed(run)
    requires Paired(cfg, run, c, j, i) && run[i].now - run[j].now >= Threshold(cfg, c) && HasRoom(run[i])
    ensures exists e :: e in Exec(cfg, run, n).events && OnChannel(e, c)
                        && e.timestampNs == run[i].now && e.durationNs == run[i].now - run[j].now
  {
    KeptPairCallsForEvent(cfg, run, c, j, i);
    var a := ReportingStepFound(cfg, run, n, i);
    ReportedAt(cfg, run, n, a);
    assert ReportedEvents(cfg, run, n)[a] in ReportedEvents(cfg, run, n);
    EventsFollowTrace(cfg, run, n);
  }

  // ---------------------------------------------------------------- intervals

  lemma ReportedIntervalsDisjoint(cfg: Config, run: seq<Step>, c: Channel, ia: nat, ib: nat)
    requires Timed(run) && ia < ib < |run|
    requires Reported(cfg, run, ia).Some? && OnChannel(Reported(cfg, run, ia).value, c)
    requires Reported(cfg, run, ib).Some? && OnChannel(Reported(cfg, run, ib).value, c)
    ensures var ea, eb := Reported(cfg, run, ia).value, Reported(cfg, run, ib).value;
            0 <= ea.timestampNs - ea.durationNs <= ea.timestampNs <= eb.timestampNs - eb.durationNs
  {
    assert ClosingChannel(run[ia]) == Some(c) && ClosingChannel(run[ib]) == Some(c);
    var jb := OpenAt(cfg, run, c, ib).value;
    assert RoleOf(cfg, run[ia], c) == Closes;
    assert ia < jb;
    assert run[ia].now <= run[jb].now;
  }

  /**
   Two events of one channel cover intervals that do not overlap, in stream order,
   whatever was dropped in between.
   */
  lemma {:induction false} IntervalsDisjoint(cfg: Config, run: seq<Step>, n: nat, events: seq<Event>, c: Channel, a: nat, b: nat)
    requires n <= |run| && Timed(run) && events == Exec(cfg, run, n).events
    requires a < b < |events| && OnChannel(events[a], c) && OnChannel(events[b], c)
    ensures 0 <= events[a].timestampNs - events[a].durationNs
    ensures events[a].timestampNs <= events[b].timestampNs - events[b].durationNs
  {
    EventsFollowTrace(cfg, run, n);
    var steps := ReportingSteps(cfg, run, n);
    ReportedAt(cfg, run, n, a);
    ReportedAt(cfg, run, n, b);
    ReportingStepsOrdered(cfg, run, n);
    ReportedIntervalsDisjoint(cfg, run, c, steps[a], steps[b]);
  }

  /** Time spent in the intervals of `c` closed by the steps from `from` up to `n`. */
  function ChannelNs(cfg: Config, run: seq<Step>, c: Channel, from: nat, n: nat): nat
    requires n <= |run| && Timed(run)
  {
    if n <= from then 0
    else ChannelNs(cfg, run, c, from, n - 1) + OwnNs(cfg, run, c, n - 1)
  }

  function OwnNs(cfg: Config, run: seq<Step>, c: Channel, i: nat): nat
    requires i < |run| && Timed(run)
  {
    if ClosingChannel(run[i]) == Some(c) then ClosedNs(cfg, run, i) else 0
  }

  /** What step `i` closes on `c` is the stretch since the interval that was open there. */
  lemma OwnNsFromOpen(cfg: Config, run: seq<Step>, c: Channel, i: nat)
    requires i < |run| && Timed(run)
    ensures var open := OpenAt(cfg, run, c, i);
            OwnNs(cfg, run, c, i) ==
            if RoleOf(cfg, run[i], c) == Closes && open.Some? then run[i].now - run[open.value].now else 0
  {
  }

  /** The closed intervals of one channel fit in the time before its current interval opened. */
  lemma {:induction false} ChannelWithinSpan(cfg: Config, run: seq<Step>, c: Channel, n: nat)
    requires 0 < n <= |run| && Timed(run)
    ensures var open := OpenAt(cfg, run, c, n);
            ChannelNs(cfg, run, c, 0, n) <= run[if open.Some? then open.value else n - 1].now - run[0].now
    decreases n
  {
    OwnNsFromOpen(cfg, run, c, n - 1);
    if n > 1 {
      ChannelWithinSpan(cfg, run, c, n - 1);
      assert run[n - 2].now <= run[n - 1].now;
    } else {
      assert OpenAt(cfg, run, c, 0) == None;
      assert ChannelNs(cfg, run, c, 0, 0) == 0;
    }
  }

  lemma {:induction false} ChannelNsMonotone(cfg: Config, run: seq<Step>, c: Channel, from: nat, n: nat)
    requires n <= |run| && Timed(run)
    ensures ChannelNs(cfg, run, c, from, n) <= ChannelNs(cfg, run, c, 0, n)
  {
    if n > from {
      ChannelNsMonotone(cfg, run, c, from, n - 1);
    }
  }

  lemma ChannelNsBound(cfg: Config, run: seq<Step>, c: Channel, from: nat, n: nat)
    requires n <= |run| && Timed(run)
    ensures ChannelNs(cfg, run, c, from, n) < W64
    ensures n > 0 ==> ChannelNs(cfg, run, c, from, n) <= run[n - 1].now - run[0].now
  {
    if n > 0 {
      ChannelNsMonotone(cfg, run, c, from, n);
      ChannelWithinSpan(cfg, run, c, n);
      var open := OpenAt(cfg, run, c, n);
      assert run[if open.Some? then open.value else n - 1].now <= run[n - 1].now;
    }
  }

  // ---------------------------------------------------------------- accumulated off-CPU time

  /** One past the last step that cleared `c`, zero if none did. */
  function LastClear(cfg: Config, run: seq<Step>, c: Channel, n: nat): (r: nat)
    requires n <= |run|
    ensures r <= n
    ensures r > 0 ==> RoleOf(cfg, run[r - 1], c) == Clears
    ensures forall m :: r <= m < n ==> RoleOf(cfg, run[m], c) != Clears
  {
    if n == 0 then 0
    else if RoleOf(cfg, run[n - 1], c) == Clears then n
    else LastClear(cfg, run, c, n - 1)
  }

  /** The accumulated time recorded for task `t`, zero if it has no entry. */
  function AccumulatedNs(s: State, t: u32): u64 {
    var key := TaskKey(t, t);
    if key in s.sched then s.sched[key].accumulatedOffcpuNs else 0
  }

  /**
   In every reachable state the accumulated time of an entry is the sum of all its
   closed slices since the task's last exit, reported or not. It never wraps.
   While the task has no entry that sum is zero, so it counts from the entry's creation.
   */
  lemma {:induction false} AccumulatedIsSumOfSlices(cfg: Config, run: seq<Step>, t: u32, n: nat)
    requires n <= |run| && Timed(run)
    ensures AccumulatedNs(Exec(cfg, run, n), t) ==
            ChannelNs(cfg, run, Offcpu(t), LastClear(cfg, run, Offcpu(t), n), n)
    decreases n
  {
    if n == 0 {
      assert AccumulatedNs(Exec(cfg, run, 0), t) == 0;
    } else {
      AccumulatedIsSumOfSlices(cfg, run, t, n - 1);
      AccumulatedNext(cfg, run, t, n - 1, AccumulatedNs(Exec(cfg, run, n - 1), t));
    }
  }

  lemma AccumulatedNext(cfg: Config, run: seq<Step>, t: u32, i: nat, before: u64)
    requires i < |run| && Timed(run) && before == AccumulatedNs(Exec(cfg, run, i), t)
    requires before == ChannelNs(cfg, run, Offcpu(t), LastClear(cfg, run, Offcpu(t), i), i)
    ensures AccumulatedNs(Exec(cfg, run, i + 1), t) ==
            ChannelNs(cfg, run, Offcpu(t), LastClear(cfg, run, Offcpu(t), i + 1), i + 1)
  {
    var s, s' := Exec(cfg, run, i), Exec(cfg, run, i + 1);
    AccumulatedStep(cfg, run, t, i, s, s');
    SliceSumStep(cfg, run, Offcpu(t), i, before, AccumulatedNs(s', t));
  }

  lemma AccumulatedApply(cfg: Config, s: State, st: Step, t: u32)
    ensures var key := TaskKey(t, t);
            var armed := key in s.sched && s.sched[key].switchOutNs > 0;
            var role := RoleOf(cfg, st, Offcpu(t));
            AccumulatedNs(Apply(cfg, s, st), t) ==
            if role == Clears then 0
            else if role == Closes && armed
            then Add64(AccumulatedNs(s, t), Sub64(st.now, s.sched[key].switchOutNs))
            else AccumulatedNs(s, t)
  {
  }

  lemma AccumulatedStep(cfg: Config, run: seq<Step>, t: u32, i: nat, s: State, s': State)
    requires i < |run| && Timed(run) && s == Exec(cfg, run, i) && s' == Apply(cfg, s, run[i])
    ensures AccumulatedNs(s', t) ==
            if RoleOf(cfg, run[i], Offcpu(t)) == Clears then 0
            else Add64(AccumulatedNs(s, t), OwnNs(cfg, run, Offcpu(t), i))
  {
    SchedTracksTrace(cfg, run, t, i);
    AccumulatedApply(cfg, s, run[i], t);
    OwnNsFromOpen(cfg, run, Offcpu(t), i);
    var open := OpenAt(cfg, run, Offcpu(t), i);
    if open.Some? {
      assert run[open.value].now <= run[i].now;
    }
  }

  lemma SliceSumStep(cfg: Config, run: seq<Step>, c: Channel, i: nat, before: u64, after: u64)
    requires i < |run| && Timed(run)
    requires before == ChannelNs(cfg, run, c, LastClear(cfg, run, c, i), i)
    requires after == if RoleOf(cfg, run[i], c) == Clears then 0 else Add64(before, OwnNs(cfg, run, c, i))
    ensures after == ChannelNs(cfg, run, c, LastClear(cfg, run, c, i + 1), i + 1)
  {
    ChannelNsBound(cfg, run, c, LastClear(cfg, run, c, i), i + 1);
  }

  // ---------------------------------------------------------------- the rest of a scheduler entry

  /** The latest switch-out of `c` since it was last cleared. */
  function LatestOpen(cfg: Config, run: seq<Step>, c: Channel, n: nat): (r: Option<nat>)
    requires n <= |run|
    ensures r.Some? ==> r.value < n && RoleOf(cfg, run[r.value], c) == Opens
    ensures r.Some? ==> forall m :: r.value < m < n ==> RoleOf(cfg, run[m], c) != Opens && RoleOf(cfg, run[m], c) != Clears
  {
    if n == 0 then None
    else match RoleOf(cfg, run[n - 1], c)
      case Opens => Some(n - 1)
      case Clears => None
      case _ => LatestOpen(cfg, run, c, n - 1)
  }

  /** The time of the latest switch-in that closed a slice since `c` was last cleared, zero if none. */
  function LatestClosedNs(cfg: Config, run: seq<Step>, c: Channel, n: nat): u64
    requires n <= |run|
  {
    if n == 0 then 0
    else match RoleOf(cfg, run[n - 1], c)
      case Clears => 0
      case Closes => if OpenAt(cfg, run, c, n - 1).Some? then run[n - 1].now else LatestClosedNs(cfg, run, c, n - 1)
      case _ => LatestClosedNs(cfg, run, c, n - 1)
  }

  /** What a step does to the entry of task `t`, by its role on the task's channel. */
  lemma SchedEntryApply(cfg: Config, s: State, st: Step, t: u32)
    ensures var key, sched, after := TaskKey(t, t), s.sched, Apply(cfg, s, st).sched;
            match RoleOf(cfg, st, Offcpu(t))
            case Clears => key !in after
            case Opens => key in after && after[key].lastState == st.prevState
                          && after[key].switchInNs == if key in sched then sched[key].switchInNs else 0
            case Closes => (key in after <==> key in sched)
                           && (key in sched ==> after[key].lastState == sched[key].lastState
                                                && after[key].switchInNs ==
                                                   if sched[key].switchOutNs > 0 then st.now else sched[key].switchInNs)
            case Neutral => (key in after <==> key in sched) && (key in sched ==> after[key] == sched[key])
  {
  }

  /**
   A task has an entry exactly when it was switched out since its last exit under that
   key, and the entry holds the state it left in and the time it last came back.
   */
  lemma {:induction false} SchedEntryTracksTrace(cfg: Config, run: seq<Step>, t: u32, n: nat, sched: map<TaskKey, SchedState>)
    requires n <= |run| && Timed(run) && sched == Exec(cfg, run, n).sched
    ensures var out := LatestOpen(cfg, run, Offcpu(t), n);
            && (TaskKey(t, t) in sched <==> out.Some?)
            && (out.Some? ==> sched[TaskKey(t, t)].lastState == run[out.value].prevState)
            && (if out.Some? then sched[TaskKey(t, t)].switchInNs else 0) == LatestClosedNs(cfg, run, Offcpu(t), n)
    decreases n
  {
    if n > 0 {
      var before := Exec(cfg, run, n - 1);
      SchedEntryTracksTrace(cfg, run, t, n - 1, before.sched);
      SchedTracksTrace(cfg, run, t, n - 1);
      SchedEntryApply(cfg, before, run[n - 1], t);
    }
  }

  /** No other keys are ever written. */
  lemma {:induction false} SchedKeysAreThreads(cfg: Config, run: seq<Step>, n: nat)
    requires n <= |run|
    ensures forall k :: k in Exec(cfg, run, n).sched ==> k.pid == k.tid && FilterPid(cfg.targetPid, k.tid)
  {
    if n > 0 {
      SchedKeysAreThreads(cfg, run, n - 1);
    }
  }

  // ---------------------------------------------------------------- cleanup at exit

  /** Some step from `from` up to `n` opens an interval on `c`. */
  predicate OpensBetween(cfg: Config, run: seq<Step>, c: Channel, from: nat, n: nat)
    requires n <= |run|
  {
    exists m :: from <= m < n && RoleOf(cfg, run[m], c) == Opens
  }

  /** From `from` on, with no clear, an entry is there if it was there or a switch-out wrote it. */
  lemma {:induction false} EntryPersists(cfg: Config, run: seq<Step>, t: u32, from: nat, n: nat)
    requires from <= n <= |run|
    requires forall m :: from <= m < n ==> RoleOf(cfg, run[m], Offcpu(t)) != Clears
    ensures TaskKey(t, t) in Exec(cfg, run, n).sched <==>
            TaskKey(t, t) in Exec(cfg, run, from).sched || OpensBetween(cfg, run, Offcpu(t), from, n)
    decreases n
  {
    if from < n {
      EntryPersists(cfg, run, t, from, n - 1);
      SchedEntryApply(cfg, Exec(cfg, run, n - 1), run[n - 1], t);
      assert OpensBetween(cfg, run, Offcpu(t), from, n) <==>
             OpensBetween(cfg, run, Offcpu(t), from, n - 1) || RoleOf(cfg, run[n - 1], Offcpu(t)) == Opens;
    }
  }

  /**
   What a thread's exit leaves behind in any run: its off-CPU entry is there afterwards
   exactly when a later switch-out wrote it, or it was there before and the thread does
   not lead its process. The exit handler deletes (tgid, tid), the scheduler handler
   writes (tid, tid).
   */
  lemma {:induction false} EntryAfterExit(cfg: Config, run: seq<Step>, pid: u32, tid: u32, i: nat, n: nat)
    requires i < n <= |run| && run[i].ProcExit? && run[i].key == TaskKey(pid, tid)
    requires forall m :: i < m < n ==> RoleOf(cfg, run[m], Offcpu(tid)) != Clears
    ensures TaskKey(tid, tid) in Exec(cfg, run, n).sched <==>
            || OpensBetween(cfg, run, Offcpu(tid), i + 1, n)
            || (pid != tid && TaskKey(tid, tid) in Exec(cfg, run, i).sched)
  {
    SchedEntryApply(cfg, Exec(cfg, run, i), run[i], tid);
    EntryPersists(cfg, run, tid, i + 1, n);
  }

  /** A channel that is opened from `from` on, and neither closed nor cleared, is open since some such step. */
  lemma {:induction false} OpenStays(cfg: Config, run: seq<Step>, c: Channel, from: nat, n: nat)
    requires from <= n <= |run| && OpensBetween(cfg, run, c, from, n)
    requires forall m :: from <= m < n ==> RoleOf(cfg, run[m], c) == Opens || RoleOf(cfg, run[m], c) == Neutral
    ensures OpenAt(cfg, run, c, n).Some? && OpenAt(cfg, run, c, n).value >= from
  {
    if RoleOf(cfg, run[n - 1], c) == Neutral {
      assert OpensBetween(cfg, run, c, from, n - 1);
      OpenStays(cfg, run, c, from, n - 1);
    }
  }

  /**
   The exit handler runs on the exiting thread, which is then switched out for good. That
   leaves an armed entry behind, of a leader too, for as long as the thread id is not used
   again: nothing after the exit cleans up.
   */
  lemma {:induction false} DeadThreadStaysArmed(cfg: Config, run: seq<Step>, pid: u32, tid: u32, i: nat, n: nat)
    requires i < n <= |run| && Timed(run) && run[i].ProcExit? && run[i].key == TaskKey(pid, tid)
    requires OpensBetween(cfg, run, Offcpu(tid), i + 1, n)
    requires forall m :: i < m < n ==> RoleOf(cfg, run[m], Offcpu(tid)) == Opens || RoleOf(cfg, run[m], Offcpu(tid)) == Neutral
    ensures var sched := Exec(cfg, run, n).sched;
            TaskKey(tid, tid) in sched && sched[TaskKey(tid, tid)].switchOutNs >= run[i].now
  {
    OpenStays(cfg, run, Offcpu(tid), i + 1, n);
    SchedTracksTrace(cfg, run, tid, n);
  }

  /**
   When the thread id is then used again, the first switch-in of the new thread reports an
   off-CPU slice that began after the old thread had exited.
   */
  lemma {:induction false} ReusedThreadIdReportsGap(cfg: Config, run: seq<Step>, pid: u32, tid: u32, i: nat, k: nat, n: nat)
    requires i < k < n <= |run| && Timed(run) && run[i].ProcExit? && run[i].key == TaskKey(pid, tid)
    requires OpensBetween(cfg, run, Offcpu(tid), i + 1, k)
    requires forall m :: i < m < k ==> RoleOf(cfg, run[m], Offcpu(tid)) == Opens || RoleOf(cfg, run[m], Offcpu(tid)) == Neutral
    requires RoleOf(cfg, run[k], Offcpu(tid)) == Closes && HasRoom(run[k]) && ClosedNs(cfg, run, k) >= cfg.minOffcpuNs
    ensures exists e :: e in Exec(cfg, run, n).events && OnChannel(e, Offcpu(tid))
                        && e.timestampNs == run[k].now && run[i].now <= run[k].now - e.durationNs
  {
    OpenStays(cfg, run, Offcpu(tid), i + 1, k);
    var j := OpenAt(cfg, run, Offcpu(tid), k).value;
    PairingByScan(cfg, run, Offcpu(tid), j, k);
    KeptPairReported(cfg, run, n, Offcpu(tid), j, k);
  }

  /** A thread comes back, exits and is switched out for good, as a worker or as a leader. */
  function ExitRun(pid: u32, tid: u32, comm: Comm, now: u64): seq<Step> {
    [SwitchOut(tid, 0, now, true), SwitchIn(tid, comm, 0, now, true),
     ProcExit(TaskKey(pid, tid), comm, 0, now, true), SwitchOut(tid, 0, now, true)]
  }

  /** In that run the exit removes the entry of a leader only, and the last step writes it again, armed. */
  lemma ExitRunLeavesEntry(cfg: Config, pid: u32, tid: u32, comm: Comm, now: u64)
    requires now > 0 && FilterPid(cfg.targetPid, tid)
    ensures var run := ExitRun(pid, tid, comm, now);
            && Timed(run)
            && (TaskKey(tid, tid) in Exec(cfg, run, 3).sched <==> pid != tid)
            && (pid != tid ==> Exec(cfg, run, 3).sched[TaskKey(tid, tid)].switchOutNs == 0)
            && TaskKey(tid, tid) in Exec(cfg, run, 4).sched
            && Exec(cfg, run, 4).sched[TaskKey(tid, tid)].switchOutNs >= now
  {
    var run := ExitRun(pid, tid, comm, now);
    EntryPersists(cfg, run, tid, 0, 2);
    assert RoleOf(cfg, run[0], Offcpu(tid)) == Opens && RoleOf(cfg, run[1], Offcpu(tid)) == Closes;
    EntryAfterExit(cfg, run, pid, tid, 2, 3);
    SchedTracksTrace(cfg, run, tid, 3);
    assert RoleOf(cfg, run[3], Offcpu(tid)) == Opens;
    DeadThreadStaysArmed(cfg, run, pid, tid, 2, 4);
  }

  // ---------------------------------------------------------------- a full map

  lemma {:induction false} SubsetFills<K>(part: set<K>, whole: set<K>)
    requires part <= whole && |whole| <= |part|
    ensures part == whole
  {
    assert whole == part + (whole - part);
  }

  lemma SameKeys<V>(m: map<TaskKey, V>, key: TaskKey, v: V)
    ensures key in m ==> m[key := v].Keys == m.Keys
    ensures key !in m ==> (m - {key}).Keys == m.Keys
  {
  }

  /** One step of a full map keeps its keys. */
  lemma FullMapStep(cfg: Config, s: State, st: Step, s': State)
    requires |s.sched| == MAX_SCHED_ENTRIES && MapRuleKept(s, st) && s' == Apply(cfg, s, st)
    requires st.ProcExit? ==> st.key !in s.sched
    ensures s'.sched.Keys == s.sched.Keys
  {
    if st.SwitchOut? || st.SwitchIn? {
      var key := TaskKey(st.tid, st.tid);
      if key in s'.sched {
        SameKeys(s.sched, key, s'.sched[key]);
      }
    } else if st.ProcExit? {
      SameKeys(s.sched, st.key, FRESH_SCHED);
    }
  }

  /** A step appends, and no off-CPU event for a thread without an entry. */
  lemma UnknownThreadSilent(cfg: Config, s: State, st: Step, s': State, tid: u32)
    requires s' == Apply(cfg, s, st) && TaskKey(tid, tid) !in s.sched
    ensures s'.events == s.events || (exists e :: s'.events == s.events + [e] && !OnChannel(e, Offcpu(tid)))
  {
    if s'.events != s.events {
      var e := s'.events[|s.events|];
      assert s'.events == s.events + [e];
    }
  }

  /** No off-CPU event of thread `tid` was submitted from step `from` up to `n`. */
  ghost predicate SilentSince(cfg: Config, run: seq<Step>, from: nat, n: nat, tid: u32)
    requires from <= |run| && n <= |run|
  {
    var earlier, events := |Exec(cfg, run, from).events|, Exec(cfg, run, n).events;
    earlier <= |events| && forall a :: earlier <= a < |events| ==> !OnChannel(events[a], Offcpu(tid))
  }

  lemma SilentNext(cfg: Config, run: seq<Step>, from: nat, n: nat, tid: u32)
    requires from < n <= |run| && SilentSince(cfg, run, from, n - 1, tid)
    requires TaskKey(tid, tid) !in Exec(cfg, run, n - 1).sched
    ensures SilentSince(cfg, run, from, n, tid)
  {
    UnknownThreadSilent(cfg, Exec(cfg, run, n - 1), run[n - 1], Exec(cfg, run, n), tid);
  }

  lemma {:induction false} FullMapRefuses(cfg: Config, run: seq<Step>, from: nat, n: nat, full: set<TaskKey>, tid: u32)
    requires from <= n <= |run| && MapRuleFollowed(cfg, run, n)
    requires full == Exec(cfg, run, from).sched.Keys && |full| == MAX_SCHED_ENTRIES
    requires forall m :: from <= m < n && run[m].ProcExit? ==> run[m].key !in full
    requires TaskKey(tid, tid) !in full
    ensures Exec(cfg, run, n).sched.Keys == full && SilentSince(cfg, run, from, n, tid)
    decreases n
  {
    if from < n {
      FullMapRefuses(cfg, run, from, n - 1, full, tid);
      FullMapStep(cfg, Exec(cfg, run, n - 1), run[n - 1], Exec(cfg, run, n));
      SilentNext(cfg, run, from, n, tid);
    }
  }

  lemma {:induction false} CapacityKeptBefore(cfg: Config, run: seq<Step>, m: nat, n: nat)
    requires m <= n <= |run| && MapRuleFollowed(cfg, run, n)
    ensures WithinCapacity(Exec(cfg, run, m))
    decreases n
  {
    if m == n {
      CapacityKept(cfg, run, n);
    } else {
      CapacityKeptBefore(cfg, run, m, n - 1);
    }
  }

  /** As many threads as the map holds, each switched out and not cleared since, are all the map has. */
  lemma ThreadsFillMap(cfg: Config, run: seq<Step>, n: nat, full: set<TaskKey>)
    requires n <= |run| && Timed(run) && WithinCapacity(Exec(cfg, run, n)) && |full| == MAX_SCHED_ENTRIES
    requires forall k :: k in full ==> k.pid == k.tid && LatestOpen(cfg, run, Offcpu(k.tid), n).Some?
    ensures Exec(cfg, run, n).sched.Keys == full
  {
    var sched := Exec(cfg, run, n).sched;
    forall k | k in full
      ensures k in sched
    {
      SchedEntryTracksTrace(cfg, run, k.tid, n, sched);
    }
    SubsetFills(full, sched.Keys);
  }

  /**
   Once as many threads as the map holds have entries, and until one of them is cleared by
   the exit of a leader, the map refuses every other thread: its keys stay the same and no
   off-CPU slice of another thread is submitted, however long it is.
   */
  lemma {:induction false} FullMapBlindsOthers(cfg: Config, run: seq<Step>, from: nat, n: nat, full: set<TaskKey>, tid: u32)
    requires from <= n <= |run| && Timed(run) && MapRuleFollowed(cfg, run, n) && |full| == 65536
    requires forall k :: k in full ==> k.pid == k.tid && LatestOpen(cfg, run, Offcpu(k.tid), from).Some?
    requires forall m :: from <= m < n && run[m].ProcExit? ==> run[m].key !in full
    requires TaskKey(tid, tid) !in full
    ensures Exec(cfg, run, n).sched.Keys == full
    ensures SilentSince(cfg, run, from, n, tid) && OpenAt(cfg, run, Offcpu(tid), n) == None
  {
    CapacityKeptBefore(cfg, run, from, n);
    ThreadsFillMap(cfg, run, from, full);
    FullMapRefuses(cfg, run, from, n, full, tid);
    SchedTracksTrace(cfg, run, tid, n);
  }

  // ---------------------------------------------------------------- stack flags

  lemma ReportedFlagsAgree(cfg: Config, run: seq<Step>, i: nat)
    requires i < |run| && Timed(run) && Reported(cfg, run, i).Some?
    ensures var e := Reported(cfg, run, i).value;
            FlagsAgree(e.flags, e.userStackId, e.kernStackId)
  {
  }

  /** Every event of every run says truthfully which stack ids it carries. */
  lemma EventFlagsAgree(cfg: Config, run: seq<Step>, n: nat, events: seq<Event>)
    requires n <= |run| && Timed(run) && events == Exec(cfg, run, n).events
    ensures forall e :: e in events ==> FlagsAgree(e.flags, e.userStackId, e.kernStackId)
  {
    EventsFollowTrace(cfg, run, n);
    forall a | 0 <= a < |events|
      ensures FlagsAgree(events[a].flags, events[a].userStackId, events[a].kernStackId)
    {
      ReportedAt(cfg, run, n, a);
      ReportedFlagsAgree(cfg, run, ReportingSteps(cfg, run, n)[a]);
    }
  }

  /** So does every open system call. */
  lemma {:induction false} ActiveFlagsAgree(cfg: Config, run: seq<Step>, n: nat, k: TaskKey)
    requires n <= |run| && k in Exec(cfg, run, n).active
    ensures var entry := Exec(cfg, run, n).active[k];
            FlagsAgree(entry.flags, entry.userStackId, entry.kernStackId)
  {
    ActiveTracksTrace(cfg, run, k, n);
  }

  // ---------------------------------------------------------------- lost reservations

  /** The step as it would be with room in the ring buffer. */
  function Granted(st: Step): Step {
    match st
    case SysEnter(_, _, _, _, _, _, _, _) => st
    case SwitchOut(_, _, _, _) => st
    case SysExit(key, comm, cpu, now, _) => SysExit(key, comm, cpu, now, true)
    case SwitchIn(tid, comm, cpu, now, _) => SwitchIn(tid, comm, cpu, now, true)
    case ProcExec(key, comm, cpu, now, _) => ProcExec(key, comm, cpu, now, true)
    case ProcExit(key, comm, cpu, now, _) => ProcExit(key, comm, cpu, now, true)
  }

  function Lossless(run: seq<Step>): (r: seq<Step>)
    ensures |r| == |run|
    ensures forall i :: 0 <= i < |run| ==> r[i] == Granted(run[i])
    ensures Timed(run) ==> Timed(r)
  {
    seq(|run|, i requires 0 <= i < |run| => Granted(run[i]))
  }

  /** The maps after every step do not depend on which reservations succeed. */
  lemma {:induction false} MapsIgnoreReservations(cfg: Config, run: seq<Step>, other: seq<Step>, n: nat)
    requires n <= |run| == |other|
    requires forall i :: 0 <= i < |run| ==> Granted(run[i]) == Granted(other[i])
    ensures Exec(cfg, run, n).active == Exec(cfg, other, n).active
    ensures Exec(cfg, run, n).sched == Exec(cfg, other, n).sched
    decreases n
  {
    if n > 0 {
      MapsIgnoreReservations(cfg, run, other, n - 1);
      GrantedMapsStep(cfg, Exec(cfg, run, n - 1), Exec(cfg, other, n - 1), run[n - 1], other[n - 1]);
    }
  }

  lemma GrantedMapsStep(cfg: Config, s: State, s': State, st: Step, st': Step)
    requires Granted(st) == Granted(st') && s.active == s'.active && s.sched == s'.sched
    ensures Apply(cfg, s, st).active == Apply(cfg, s', st').active
    ensures Apply(cfg, s, st).sched == Apply(cfg, s', st').sched
  {
  }

  lemma {:induction false} OpenAtAgrees(cfg: Config, run: seq<Step>, cfg': Config, run': seq<Step>, c: Channel, n: nat)
    requires n <= |run| == |run'|
    requires forall i :: 0 <= i < n ==> RoleOf(cfg, run[i], c) == RoleOf(cfg', run'[i], c)
    ensures OpenAt(cfg, run, c, n) == OpenAt(cfg', run', c, n)
  {
    if n > 0 {
      assert RoleOf(cfg, run[n - 1], c) == RoleOf(cfg', run'[n - 1], c);
      OpenAtAgrees(cfg, run, cfg', run', c, n - 1);
    }
  }

  /** Lost reservations do not change which interval a step closes. */
  lemma ClosedFromLossless(cfg: Config, run: seq<Step>, full: seq<Step>, i: nat)
    requires i < |run| && full == Lossless(run)
    ensures ClosedFrom(cfg, run, i) == ClosedFrom(cfg, full, i)
  {
    var c := ClosingChannel(run[i]);
    assert full[i] == Granted(run[i]);
    if c.Some? {
      forall m | 0 <= m < i
        ensures RoleOf(cfg, run[m], c.value) == RoleOf(cfg, full[m], c.value)
      {
        assert full[m] == Granted(run[m]);
      }
      OpenAtAgrees(cfg, run, cfg, full, c.value, i);
    }
  }

  /** The event a step of a lossless run reports is the lossy one, if its reservation succeeds. */
  lemma ReportedUnlessLost(cfg: Config, run: seq<Step>, i: nat)
    requires i < |run| && Timed(run)
    ensures var full := Reported(cfg, Lossless(run), i);
            Reported(cfg, run, i) == if HasRoom(run[i]) then full else None
  {
    var full := Lossless(run);
    ClosedFromLossless(cfg, run, full, i);
    assert full[i] == Granted(run[i]);
    var j := ClosedFrom(cfg, run, i);
    if j.Some? {
      assert full[j.value] == Granted(run[j.value]);
    }
  }

  /** The events whose step got a reservation in `run`. */
  function Survivors(run: seq<Step>, steps: seq<nat>, events: seq<Event>): (r: seq<Event>)
    requires |steps| == |events|
    requires forall a :: 0 <= a < |steps| ==> steps[a] < |run|
    ensures Subsequence(r, events)
  {
    if steps == [] then []
    else
      var last := |steps| - 1;
      var before := Survivors(run, steps[..last], events[..last]);
      if HasRoom(run[steps[last]]) then before + [events[last]] else before
  }

  /** `part` is what remains of `whole` after leaving out some of its elements. */
  ghost predicate Subsequence<T(!new)>(part: seq<T>, whole: seq<T>)
    decreases |whole|
  {
    if whole == [] then part == []
    else
      || Subsequence(part, whole[..|whole| - 1])
      || (exists before, x :: part == before + [x] && x == whole[|whole| - 1] && Subsequence(before, whole[..|whole| - 1]))
  }

  lemma SurvivorsAppend(run: seq<Step>, steps: seq<nat>, events: seq<Event>, i: nat, e: Event)
    requires |steps| == |events| && i < |run|
    requires forall a :: 0 <= a < |steps| ==> steps[a] < |run|
    ensures Survivors(run, steps + [i], events + [e]) ==
            Survivors(run, steps, events) + if HasRoom(run[i]) then [e] else []
  {
    assert (steps + [i])[..|steps|] == steps && (events + [e])[..|steps|] == events;
  }

  lemma SurvivorsStep(run: seq<Step>, steps: seq<nat>, all: seq<Event>, i: nat, e: Option<Event>,
                      kept: seq<Event>, e': Option<Event>)
    requires |steps| == |all| && i < |run| && (forall a :: 0 <= a < |steps| ==> steps[a] < |run|)
    requires kept == Survivors(run, steps, all) && e' == if HasRoom(run[i]) then e else None
    ensures (if e'.Some? then kept + [e'.value] else kept) ==
            Survivors(run, if e.Some? then steps + [i] else steps, if e.Some? then all + [e.value] else all)
  {
    if e.Some? {
      SurvivorsAppend(run, steps, all, i, e.value);
    }
  }

  /** After `n` steps the lossy stream is what survives of the lossless one. */
  ghost predicate SurvivorsOnly(cfg: Config, run: seq<Step>, full: seq<Step>, n: nat)
    requires n <= |run| && Timed(run) && full == Lossless(run)
  {
    ReportedEvents(cfg, run, n) == Survivors(run, ReportingSteps(cfg, full, n), ReportedEvents(cfg, full, n))
  }

  lemma {:induction false} ReportedSurvivors(cfg: Config, run: seq<Step>, full: seq<Step>, n: nat)
    requires n <= |run| && Timed(run) && full == Lossless(run)
    ensures SurvivorsOnly(cfg, run, full, n)
    decreases n
  {
    if n == 0 {
      SurvivorsStart(cfg, run, full);
    } else {
      ReportedSurvivors(cfg, run, full, n - 1);
      SurvivorsNext(cfg, run, full, n);
    }
  }

  lemma SurvivorsStart(cfg: Config, run: seq<Step>, full: seq<Step>)
    requires Timed(run) && full == Lossless(run)
    ensures SurvivorsOnly(cfg, run, full, 0)
  {
  }

  lemma SurvivorsNext(cfg: Config, run: seq<Step>, full: seq<Step>, n: nat)
    requires 0 < n <= |run| && Timed(run) && full == Lossless(run) && SurvivorsOnly(cfg, run, full, n - 1)
    ensures SurvivorsOnly(cfg, run, full, n)
  {
    ReportedUnlessLost(cfg, run, n - 1);
    SurvivorsStep(run, ReportingSteps(cfg, full, n - 1), ReportedEvents(cfg, full, n - 1), n - 1,
                  Reported(cfg, full, n - 1), ReportedEvents(cfg, run, n - 1), Reported(cfg, run, n - 1));
  }

  /**
   A run that loses reservations delivers exactly the lossless stream without the
   events whose own reservation failed, so a subsequence of it.
   */
  lemma LossyIsSubsequence(cfg: Config, run: seq<Step>, n: nat, full: seq<Event>)
    requires n <= |run| && Timed(run) && full == Exec(cfg, Lossless(run), n).events
    ensures |full| == |ReportingSteps(cfg, Lossless(run), n)|
    ensures Exec(cfg, run, n).events == Survivors(run, ReportingSteps(cfg, Lossless(run), n), full)
    ensures Subsequence(Exec(cfg, run, n).events, full)
  {
    EventsFollowTrace(cfg, run, n);
    EventsFollowTrace(cfg, Lossless(run), n);
    ReportedSurvivors(cfg, run, Lossless(run), n);
  }

  // ---------------------------------------------------------------- thresholds

  function WithThresholds(cfg: Config, minLatencyNs: u64, minOffcpuNs: u64): Config {
    cfg.(minLatencyNs := minLatencyNs, minOffcpuNs := minOffcpuNs)
  }

  predicate Passes(e: Event, minLatencyNs: u64, minOffcpuNs: u64) {
    && (e.kind == EV_SYSCALL_SLOW ==> e.durationNs >= minLatencyNs)
    && (e.kind == EV_OFFCPU_SLICE ==> e.durationNs >= minOffcpuNs)
  }

  function Passing(events: seq<Event>, minLatencyNs: u64, minOffcpuNs: u64): (r: seq<Event>)
    ensures forall e :: e in r <==> e in events && Passes(e, minLatencyNs, minOffcpuNs)
  {
    if events == [] then []
    else
      var last := |events| - 1;
      var before := Passing(events[..last], minLatencyNs, minOffcpuNs);
      if Passes(events[last], minLatencyNs, minOffcpuNs) then before + [events[last]] else before
  }

  lemma {:induction false} RaisedStepReports(cfg: Config, run: seq<Step>, minLatencyNs: u64, minOffcpuNs: u64, i: nat)
    requires i < |run| && Timed(run)
    requires cfg.minLatencyNs <= minLatencyNs && cfg.minOffcpuNs <= minOffcpuNs
    ensures var e := Reported(cfg, run, i);
            Reported(WithThresholds(cfg, minLatencyNs, minOffcpuNs), run, i) ==
            if e.Some? && Passes(e.value, minLatencyNs, minOffcpuNs) then e else None
  {
    var cfg' := WithThresholds(cfg, minLatencyNs, minOffcpuNs);
    var c := ClosingChannel(run[i]);
    if c.Some? {
      OpenAtAgrees(cfg, run, cfg', run, c.value, i);
      assert ClosedFrom(cfg, run, i) == ClosedFrom(cfg', run, i);
    }
  }

  lemma RaisedNext(cfg: Config, cfg': Config, run: seq<Step>, n: nat, before: seq<Event>, after: seq<Event>)
    requires 0 < n <= |run| && Timed(run) && cfg' == WithThresholds(cfg, cfg'.minLatencyNs, cfg'.minOffcpuNs)
    requires cfg.minLatencyNs <= cfg'.minLatencyNs && cfg.minOffcpuNs <= cfg'.minOffcpuNs
    requires before == ReportedEvents(cfg, run, n - 1) && after == ReportedEvents(cfg, run, n)
    requires ReportedEvents(cfg', run, n - 1) == Passing(before, cfg'.minLatencyNs, cfg'.minOffcpuNs)
    ensures ReportedEvents(cfg', run, n) == Passing(after, cfg'.minLatencyNs, cfg'.minOffcpuNs)
  {
    RaisedStepReports(cfg, run, cfg'.minLatencyNs, cfg'.minOffcpuNs, n - 1);
    PassingStep(before, Reported(cfg, run, n - 1), after, cfg'.minLatencyNs, cfg'.minOffcpuNs);
  }

  lemma {:induction false} RaisedReports(cfg: Config, cfg': Config, run: seq<Step>, n: nat)
    requires n <= |run| && Timed(run) && cfg' == WithThresholds(cfg, cfg'.minLatencyNs, cfg'.minOffcpuNs)
    requires cfg.minLatencyNs <= cfg'.minLatencyNs && cfg.minOffcpuNs <= cfg'.minOffcpuNs
    ensures ReportedEvents(cfg', run, n) == Passing(ReportedEvents(cfg, run, n), cfg'.minLatencyNs, cfg'.minOffcpuNs)
    decreases n
  {
    if n == 0 {
      assert ReportedEvents(cfg, run, 0) == [] && ReportedEvents(cfg', run, 0) == [];
    } else {
      RaisedReports(cfg, cfg', run, n - 1);
      RaisedNext(cfg, cfg', run, n, ReportedEvents(cfg, run, n - 1), ReportedEvents(cfg, run, n));
    }
  }

  lemma PassingStep(events: seq<Event>, e: Option<Event>, after: seq<Event>, minLatencyNs: u64, minOffcpuNs: u64)
    requires after == if e.Some? then events + [e.value] else events
    ensures var before := Passing(events, minLatencyNs, minOffcpuNs);
            Passing(after, minLatencyNs, minOffcpuNs) ==
            if e.Some? && Passes(e.value, minLatencyNs, minOffcpuNs) then before + [e.value] else before
  {
    if e.Some? {
      assert after[..|events|] == events;
    }
  }

  lemma {:induction false} MapsIgnoreThresholds(cfg: Config, run: seq<Step>, minLatencyNs: u64, minOffcpuNs: u64, n: nat)
    requires n <= |run|
    ensures Exec(WithThresholds(cfg, minLatencyNs, minOffcpuNs), run, n).active == Exec(cfg, run, n).active
    ensures Exec(WithThresholds(cfg, minLatencyNs, minOffcpuNs), run, n).sched == Exec(cfg, run, n).sched
    decreases n
  {
    if n > 0 {
      var cfg' := WithThresholds(cfg, minLatencyNs, minOffcpuNs);
      MapsIgnoreThresholds(cfg, run, minLatencyNs, minOffcpuNs, n - 1);
      SameMapsStep(cfg, cfg', Exec(cfg, run, n - 1), Exec(cfg', run, n - 1), run[n - 1]);
    }
  }

  /** Raising the thresholds yields exactly the old stream filtered by the new ones, and the same maps. */
  lemma RaisingThresholdsFilters(cfg: Config, run: seq<Step>, minLatencyNs: u64, minOffcpuNs: u64, n: nat,
                                 s: State, s': State)
    requires n <= |run| && Timed(run)
    requires cfg.minLatencyNs <= minLatencyNs && cfg.minOffcpuNs <= minOffcpuNs
    requires s == Exec(cfg, run, n) && s' == Exec(WithThresholds(cfg, minLatencyNs, minOffcpuNs), run, n)
    ensures s'.events == Passing(s.events, minLatencyNs, minOffcpuNs)
    ensures s'.active == s.active && s'.sched == s.sched
  {
    EventsFollowTrace(cfg, run, n);
    EventsFollowTrace(WithThresholds(cfg, minLatencyNs, minOffcpuNs), run, n);
    RaisedReports(cfg, WithThresholds(cfg, minLatencyNs, minOffcpuNs), run, n);
    MapsIgnoreThresholds(cfg, run, minLatencyNs, minOffcpuNs, n);
  }

  lemma SameMapsStep(cfg: Config, cfg': Config, s: State, s': State, st: Step)
    requires cfg' == WithThresholds(cfg, cfg'.minLatencyNs, cfg'.minOffcpuNs)
    requires s.active == s'.active && s.sched == s'.sched
    ensures Apply(cfg, s, st).active == Apply(cfg', s', st).active
    ensures Apply(cfg, s, st).sched == Apply(cfg', s', st).sched
  {
  }
}
