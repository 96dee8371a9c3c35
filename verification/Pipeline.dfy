/**
 From tracepoints to statistics: what a thread or a process is shown to have spent is
 what the trace says it spent, live or replayed from a recording.
 */
module Pipeline {
  import opened Words
  import opened Events
  import opened Sums
  import opened Histograms
  import opened Statistics
  import opened Classification
  import opened Probe
  import opened Trace
  import opened ProbeLaws
  import opened KsrFormat
  import opened Recording
  import opened Conservation

  // ---------------------------------------------------------------- statistics read off the trace

  predicate IsTaskScope(scope: Scope) {
    scope.Process? || scope.Thread?
  }

  /** The channel counts towards the process or thread. Off-CPU time is booked on (tid, tid). */
  predicate Belongs(c: Channel, scope: Scope) {
    match scope
    case Process(pid) => (if c.Syscall? then c.key.pid else c.tid) == pid
    case Thread(pid, tid) => (if c.Syscall? then c.key else TaskKey(c.tid, c.tid)) == TaskKey(pid, tid)
    case _ => false
  }

  /** Step `i` closes an interval that must show up under `scope`. */
  predicate Shows(cfg: Config, run: seq<Step>, i: nat, scope: Scope)
    requires i < |run| && Timed(run)
  {
    Kept(cfg, run, i) && Belongs(ClosingChannel(run[i]).value, scope)
  }

  /** The length of the interval that step `i` shows under `scope`, as a list of at most one. */
  function ShownDuration(cfg: Config, run: seq<Step>, i: nat, scope: Scope): seq<u64>
    requires i < |run| && Timed(run)
  {
    if Shows(cfg, run, i, scope) then [ClosedNs(cfg, run, i)] else []
  }

  /** Its length if it is of the given kind. */
  function ShownNs(cfg: Config, run: seq<Step>, i: nat, scope: Scope, syscalls: bool): nat
    requires i < |run| && Timed(run)
  {
    if Shows(cfg, run, i, scope) && ClosingChannel(run[i]).value.Syscall? == syscalls then ClosedNs(cfg, run, i) else 0
  }

  /** The lengths of the intervals that must show up under `scope`, in order. */
  function TraceDurations(cfg: Config, run: seq<Step>, n: nat, scope: Scope): seq<u64>
    requires n <= |run| && Timed(run)
  {
    if n == 0 then [] else TraceDurations(cfg, run, n - 1, scope) + ShownDuration(cfg, run, n - 1, scope)
  }

  /** Their total over one kind of channel. */
  function TraceNs(cfg: Config, run: seq<Step>, n: nat, scope: Scope, syscalls: bool): nat
    requires n <= |run| && Timed(run)
  {
    if n == 0 then 0 else TraceNs(cfg, run, n - 1, scope, syscalls) + ShownNs(cfg, run, n - 1, scope, syscalls)
  }

  /** The event of a step falls under a task's scope exactly when the trace says so. */
  lemma ReportedInScope(cfg: Config, run: seq<Step>, i: nat, scope: Scope)
    requires i < |run| && Timed(run) && IsTaskScope(scope)
    ensures var e := Reported(cfg, run, i);
            && (e.Some? && In(scope, e.value) <==> Shows(cfg, run, i, scope))
            && (Shows(cfg, run, i, scope) ==>
                  && e.value.durationNs == ClosedNs(cfg, run, i)
                  && (e.value.kind == EV_OFFCPU_SLICE <==> !ClosingChannel(run[i]).value.Syscall?))
  {
  }

  /** How one more optional event moves a total and the durations of a scope. */
  lemma TotalStep(scope: Scope, metric: Metric, es: seq<Event>, e: Option<Event>, es': seq<Event>)
    requires es' == if e.Some? then es + [e.value] else es
    ensures Total(scope, metric, es') ==
            Total(scope, metric, es) + if e.Some? && In(scope, e.value) then Amount(metric, e.value) else 0
  {
    if e.Some? {
      TotalAppend(scope, metric, es, e.value);
    }
  }

  lemma DurationsStep(scope: Scope, es: seq<Event>, e: Option<Event>, es': seq<Event>)
    requires es' == if e.Some? then es + [e.value] else es
    ensures Durations(scope, es') ==
            Durations(scope, es) + if e.Some? && In(scope, e.value) then [e.value.durationNs] else []
  {
    if e.Some? {
      SequenceAppend(scope, es, e.value);
    }
  }

  lemma ReportedStep(cfg: Config, run: seq<Step>, i: nat, scope: Scope, es: seq<Event>, es': seq<Event>)
    requires i < |run| && Timed(run) && IsTaskScope(scope)
    requires es == ReportedEvents(cfg, run, i) && es' == ReportedEvents(cfg, run, i + 1)
    ensures Durations(scope, es') == Durations(scope, es) + ShownDuration(cfg, run, i, scope)
    ensures Total(scope, SyscallNs, es') == Total(scope, SyscallNs, es) + ShownNs(cfg, run, i, scope, true)
    ensures Total(scope, OffcpuNs, es') == Total(scope, OffcpuNs, es) + ShownNs(cfg, run, i, scope, false)
    ensures Total(scope, Count, es') == Total(scope, Count, es) + |ShownDuration(cfg, run, i, scope)|
  {
    ReportedInScope(cfg, run, i, scope);
    var e := Reported(cfg, run, i);
    assert es' == if e.Some? then es + [e.value] else es;
    DurationsStep(scope, es, e, es');
    TotalStep(scope, SyscallNs, es, e, es');
    TotalStep(scope, OffcpuNs, es, e, es');
    TotalStep(scope, Count, es, e, es');
  }

  /** The figures of `es` under `scope` are those of the first `n` steps of the trace. */
  ghost predicate MatchesTrace(cfg: Config, run: seq<Step>, n: nat, scope: Scope, es: seq<Event>)
    requires n <= |run| && Timed(run)
  {
    && Durations(scope, es) == TraceDurations(cfg, run, n, scope)
    && Total(scope, SyscallNs, es) == TraceNs(cfg, run, n, scope, true)
    && Total(scope, OffcpuNs, es) == TraceNs(cfg, run, n, scope, false)
    && Total(scope, Count, es) == |TraceDurations(cfg, run, n, scope)|
  }

  lemma {:induction false} ReportedTotals(cfg: Config, run: seq<Step>, n: nat, scope: Scope)
    requires n <= |run| && Timed(run) && IsTaskScope(scope)
    ensures MatchesTrace(cfg, run, n, scope, ReportedEvents(cfg, run, n))
    decreases n
  {
    if n == 0 {
      MatchesStart(cfg, run, scope);
    } else {
      ReportedTotals(cfg, run, n - 1, scope);
      MatchesNext(cfg, run, n, scope, ReportedEvents(cfg, run, n - 1), ReportedEvents(cfg, run, n));
    }
  }

  lemma MatchesStart(cfg: Config, run: seq<Step>, scope: Scope)
    requires Timed(run)
    ensures ReportedEvents(cfg, run, 0) == [] && MatchesTrace(cfg, run, 0, scope, [])
  {
  }

  lemma MatchesNext(cfg: Config, run: seq<Step>, n: nat, scope: Scope, es: seq<Event>, es': seq<Event>)
    requires 0 < n <= |run| && Timed(run) && IsTaskScope(scope)
    requires es == ReportedEvents(cfg, run, n - 1) && es' == ReportedEvents(cfg, run, n)
    requires MatchesTrace(cfg, run, n - 1, scope, es)
    ensures MatchesTrace(cfg, run, n, scope, es')
  {
    ReportedStep(cfg, run, n - 1, scope, es, es');
    TraceStep(cfg, run, n - 1, scope);
  }

  lemma TraceStep(cfg: Config, run: seq<Step>, i: nat, scope: Scope)
    requires i < |run| && Timed(run)
    ensures TraceDurations(cfg, run, i + 1, scope) == TraceDurations(cfg, run, i, scope) + ShownDuration(cfg, run, i, scope)
    ensures TraceNs(cfg, run, i + 1, scope, true) == TraceNs(cfg, run, i, scope, true) + ShownNs(cfg, run, i, scope, true)
    ensures TraceNs(cfg, run, i + 1, scope, false) == TraceNs(cfg, run, i, scope, false) + ShownNs(cfg, run, i, scope, false)
  {
  }

  /** The statistics of a task, as the trace alone determines them. */
  ghost predicate FollowsTrace(lat: LatencyStats, cfg: Config, run: seq<Step>, n: nat, scope: Scope)
    requires n <= |run| && Timed(run)
  {
    var durations := TraceDurations(cfg, run, n, scope);
    && lat.totalSyscallNs == Wrap(TraceNs(cfg, run, n, scope, true), W64)
    && lat.totalOffcpuNs == Wrap(TraceNs(cfg, run, n, scope, false), W64)
    && lat.slowEventCount == Wrap(|durations|, W32)
    && lat.maxLatencyNs == GreatestOf(durations)
    && lat.hist == HistogramOf(durations)
  }

  lemma StatsFollowTrace(cfg: Config, run: seq<Step>, n: nat, scope: Scope)
    requires n <= |run| && Timed(run) && IsTaskScope(scope)
    ensures FollowsTrace(StatsOf(scope, ReportedEvents(cfg, run, n)), cfg, run, n, scope)
  {
    ReportedTotals(cfg, run, n, scope);
  }

  lemma TaskSeenIffShown(cfg: Config, run: seq<Step>, n: nat, pid: u32, tid: u32)
    requires n <= |run| && Timed(run)
    ensures pid in ProcessKeys(ReportedEvents(cfg, run, n)) <==> exists i :: 0 <= i < n && Shows(cfg, run, i, Process(pid))
    ensures Pack(pid, tid) in ThreadKeys(ReportedEvents(cfg, run, n)) <==>
            exists i :: 0 <= i < n && Shows(cfg, run, i, Thread(pid, tid))
  {
    var es, steps := ReportedEvents(cfg, run, n), ReportingSteps(cfg, run, n);
    forall e | e in es
      ensures In(Process(pid), e) ==> exists i :: 0 <= i < n && Shows(cfg, run, i, Process(pid))
      ensures In(Thread(pid, tid), e) ==> exists i :: 0 <= i < n && Shows(cfg, run, i, Thread(pid, tid))
    {
      var a :| 0 <= a < |es| && es[a] == e;
      ReportedAt(cfg, run, n, a);
      ReportedInScope(cfg, run, steps[a], Process(pid));
      ReportedInScope(cfg, run, steps[a], Thread(pid, tid));
    }
    forall i | 0 <= i < n
      ensures Shows(cfg, run, i, Process(pid)) ==> exists e :: e in es && In(Process(pid), e)
      ensures Shows(cfg, run, i, Thread(pid, tid)) ==> exists e :: e in es && In(Thread(pid, tid), e)
    {
      ShownIsReported(cfg, run, n, i, Process(pid));
      ShownIsReported(cfg, run, n, i, Thread(pid, tid));
    }
    KeysMeaning(es, pid, tid);
  }

  lemma ShownIsReported(cfg: Config, run: seq<Step>, n: nat, i: nat, scope: Scope)
    requires i < n <= |run| && Timed(run) && IsTaskScope(scope)
    ensures Shows(cfg, run, i, scope) ==> exists e :: e in ReportedEvents(cfg, run, n) && In(scope, e)
  {
    ReportedInScope(cfg, run, i, scope);
    if Shows(cfg, run, i, scope) {
      var a := ReportingStepFound(cfg, run, n, i);
      ReportedAt(cfg, run, n, a);
      assert ReportedEvents(cfg, run, n)[a] in ReportedEvents(cfg, run, n);
    }
  }

  lemma KeysMeaning(es: seq<Event>, pid: u32, tid: u32)
    ensures pid in ProcessKeys(es) <==> exists e :: e in es && In(Process(pid), e)
    ensures Pack(pid, tid) in ThreadKeys(es) <==> exists e :: e in es && In(Thread(pid, tid), e)
  {
  }

  /**
   End to end: after any run, whatever was lost, each thread and each process is listed
   exactly when the trace has an interval for it, with the totals, count, maximum and
   histogram of those intervals.
   */
  lemma EndToEnd(cfg: Config, run: seq<Step>, n: nat, classify: Event -> u32, s: Summary, pid: u32, tid: u32)
    requires n <= |run| && Timed(run)
    requires Summarizes(s, ClassifyAll(classify, Exec(cfg, run, n).events))
    ensures Pack(pid, tid) in s.threads <==> exists i :: 0 <= i < n && Shows(cfg, run, i, Thread(pid, tid))
    ensures pid in s.procs <==> exists i :: 0 <= i < n && Shows(cfg, run, i, Process(pid))
    ensures Pack(pid, tid) in s.threads ==> FollowsTrace(s.threads[Pack(pid, tid)].lat, cfg, run, n, Thread(pid, tid))
    ensures pid in s.procs ==> FollowsTrace(s.procs[pid].lat, cfg, run, n, Process(pid))
  {
    EventsFollowTrace(cfg, run, n);
    var es := ReportedEvents(cfg, run, n);
    ClassificationIgnored(classify, es, s);
    TaskSeenIffShown(cfg, run, n, pid, tid);
    EntriesFollowTrace(cfg, run, n, es, s, pid, tid);
  }

  lemma EntriesFollowTrace(cfg: Config, run: seq<Step>, n: nat, es: seq<Event>, s: Summary, pid: u32, tid: u32)
    requires n <= |run| && Timed(run) && es == ReportedEvents(cfg, run, n) && Summarizes(s, es)
    ensures s.threads.Keys == ThreadKeys(es) && s.procs.Keys == ProcessKeys(es)
    ensures Pack(pid, tid) in s.threads ==> FollowsTrace(s.threads[Pack(pid, tid)].lat, cfg, run, n, Thread(pid, tid))
    ensures pid in s.procs ==> FollowsTrace(s.procs[pid].lat, cfg, run, n, Process(pid))
  {
    EntriesAt(s, es, pid, tid);
    StatsFollowTrace(cfg, run, n, Thread(pid, tid));
    StatsFollowTrace(cfg, run, n, Process(pid));
  }

  lemma EntriesAt(s: Summary, es: seq<Event>, pid: u32, tid: u32)
    requires Summarizes(s, es)
    ensures Pack(pid, tid) in s.threads ==> s.threads[Pack(pid, tid)].lat == StatsOf(Thread(pid, tid), es)
    ensures pid in s.procs ==> s.procs[pid].lat == StatsOf(Process(pid), es)
  {
    PackRoundTrip(pid, tid, 0);
    assert Pack(pid, tid) in s.threads ==> s.threads[Pack(pid, tid)] == ThreadEntry(es)(Pack(pid, tid));
  }

  // ---------------------------------------------------------------- time spent fits in the run

  lemma {:induction false} ThreadSyscallsOnChannel(cfg: Config, run: seq<Step>, n: nat, pid: u32, tid: u32)
    requires n <= |run| && Timed(run)
    ensures TraceNs(cfg, run, n, Thread(pid, tid), true) <= ChannelNs(cfg, run, Syscall(TaskKey(pid, tid)), 0, n)
  {
    if n > 0 {
      ThreadSyscallsOnChannel(cfg, run, n - 1, pid, tid);
    }
  }

  lemma {:induction false} ProcessOffcpuOnChannel(cfg: Config, run: seq<Step>, n: nat, pid: u32)
    requires n <= |run| && Timed(run)
    ensures TraceNs(cfg, run, n, Process(pid), false) <= ChannelNs(cfg, run, Offcpu(pid), 0, n)
  {
    if n > 0 {
      ProcessOffcpuOnChannel(cfg, run, n - 1, pid);
    }
  }

  /**
   A thread's system-call time and a process's off-CPU time never exceed the time that
   the run took, so neither counter ever wraps.
   */
  lemma TimeWithinRun(cfg: Config, run: seq<Step>, n: nat, classify: Event -> u32, s: Summary, pid: u32, tid: u32)
    requires 0 < n <= |run| && Timed(run)
    requires Summarizes(s, ClassifyAll(classify, Exec(cfg, run, n).events))
    ensures Pack(pid, tid) in s.threads ==>
              s.threads[Pack(pid, tid)].lat.totalSyscallNs == TraceNs(cfg, run, n, Thread(pid, tid), true)
              <= run[n - 1].now - run[0].now
    ensures pid in s.procs ==>
              s.procs[pid].lat.totalOffcpuNs == TraceNs(cfg, run, n, Process(pid), false) <= run[n - 1].now - run[0].now
  {
    EndToEnd(cfg, run, n, classify, s, pid, tid);
    ThreadSyscallsOnChannel(cfg, run, n, pid, tid);
    ProcessOffcpuOnChannel(cfg, run, n, pid);
    ChannelNsBound(cfg, run, Syscall(TaskKey(pid, tid)), 0, n);
    ChannelNsBound(cfg, run, Offcpu(pid), 0, n);
  }

  lemma {:induction false} SlicesOnLeader(cfg: Config, run: seq<Step>, n: nat, pid: u32, tid: u32)
    requires n <= |run| && Timed(run)
    ensures TraceNs(cfg, run, n, Thread(pid, tid), false) == if pid == tid then TraceNs(cfg, run, n, Process(pid), false) else 0
    decreases n
  {
    if n > 0 {
      SlicesOnLeader(cfg, run, n - 1, pid, tid);
    }
  }

  lemma {:induction false} NothingShown(cfg: Config, run: seq<Step>, n: nat, scope: Scope)
    requires n <= |run| && Timed(run) && forall i :: 0 <= i < n ==> !Shows(cfg, run, i, scope)
    ensures TraceNs(cfg, run, n, scope, false) == 0
    decreases n
  {
    if n > 0 {
      assert !Shows(cfg, run, n - 1, scope);
      NothingShown(cfg, run, n - 1, scope);
    }
  }

  /**
   Off-CPU time is booked on (tid, tid) across the indexes: after any run the off-CPU time of
   a process is that of the one thread with its own number, zero if that is not listed, and
   every other thread of a process shows none.
   */
  lemma OffcpuBookedOnLeader(cfg: Config, run: seq<Step>, n: nat, classify: Event -> u32, s: Summary, pid: u32, tid: u32)
    requires n <= |run| && Timed(run)
    requires Summarizes(s, ClassifyAll(classify, Exec(cfg, run, n).events))
    ensures pid in s.procs ==>
              s.procs[pid].lat.totalOffcpuNs ==
              if Pack(pid, pid) in s.threads then s.threads[Pack(pid, pid)].lat.totalOffcpuNs else 0
    ensures pid != tid && Pack(pid, tid) in s.threads ==> s.threads[Pack(pid, tid)].lat.totalOffcpuNs == 0
  {
    EndToEnd(cfg, run, n, classify, s, pid, pid);
    EndToEnd(cfg, run, n, classify, s, pid, tid);
    SlicesOnLeader(cfg, run, n, pid, pid);
    SlicesOnLeader(cfg, run, n, pid, tid);
    if Pack(pid, pid) !in s.threads {
      NothingShown(cfg, run, n, Thread(pid, pid));
    }
  }

  /** So a worker thread with a reported slice is listed as a process of its own. */
  lemma WorkerListedAsProcess(cfg: Config, run: seq<Step>, n: nat, classify: Event -> u32, s: Summary, tid: u32, i: nat)
    requires i < n <= |run| && Timed(run)
    requires Summarizes(s, ClassifyAll(classify, Exec(cfg, run, n).events))
    requires Kept(cfg, run, i) && ClosingChannel(run[i]) == Some(Offcpu(tid))
    ensures tid in s.procs && Pack(tid, tid) in s.threads
  {
    assert Shows(cfg, run, i, Process(tid)) && Shows(cfg, run, i, Thread(tid, tid));
    EndToEnd(cfg, run, n, classify, s, tid, tid);
  }

  /** Over any run, time in the stack index is each event's duration times its stack flags. */
  lemma StackTimeOfRun(cfg: Config, run: seq<Step>, n: nat, classify: Event -> u32, s: Summary, es: seq<Event>)
    requires n <= |run| && Timed(run) && es == Exec(cfg, run, n).events
    requires Summarizes(s, ClassifyAll(classify, es))
    ensures Wrap(SumMap(TimeByStack(s)), W64) == Wrap(SumBy(es, FlaggedTime()), W64)
  {
    EventFlagsAgree(cfg, run, n, es);
    ClassificationIgnored(classify, es, s);
    StackTimeConserved(s, es);
  }

  // ---------------------------------------------------------------- recording in between

  /** The records written for classified events, with the padding each struct held. */
  function RecordsOf(classify: Event -> u32, es: seq<Event>, pads: seq<(Pad, Pad)>): (r: seq<Record>)
    requires |pads| == |es|
    ensures EventsOf(r) == ClassifyAll(classify, es)
  {
    var r := seq(|es|, i requires 0 <= i < |es| => Record(Classified(classify, es[i]), pads[i].0, pads[i].1));
    assert EventsOf(r) == ClassifyAll(classify, es);
    r
  }

  /** The bytes of the ring-buffer records in which the probes submit events, with their padding. */
  function RingRecords(es: seq<Event>, pads: seq<(Pad, Pad)>): seq<seq<u8>>
    requires |pads| == |es|
  {
    seq(|es|, i requires 0 <= i < |es| => EncodeEvent(es[i], pads[i].0, pads[i].1))
  }

  /** The events that the collector's callback gets: a record that cannot be decoded is dropped. */
  function DecodedEvents(records: seq<seq<u8>>): seq<Event> {
    Present(seq(|records|, i requires 0 <= i < |records| => DecodeEvent(records[i])))
  }

  function Present<T>(xs: seq<Option<T>>): seq<T> {
    if xs == [] then []
    else
      var before, x := Present(xs[..|xs| - 1]), xs[|xs| - 1];
      if x.Some? then before + [x.value] else before
  }

  lemma {:induction false} AllPresent<T>(xs: seq<Option<T>>, ys: seq<T>)
    requires |xs| == |ys| && forall i :: 0 <= i < |xs| ==> xs[i] == Some(ys[i])
    ensures Present(xs) == ys
  {
    if xs != [] {
      var last := |xs| - 1;
      AllPresent(xs[..last], ys[..last]);
      assert xs[last] == Some(ys[last]);
      assert ys == ys[..last] + [ys[last]];
    }
  }

  lemma SubmittedDecodes(e: Event, pad: Pad, tailPad: Pad)
    ensures DecodeEvent(EncodeEvent(e, pad, tailPad)) == Some(e)
  {
    EventRoundTrip(e, pad, tailPad, []);
    assert EncodeEvent(e, pad, tailPad) + [] == EncodeEvent(e, pad, tailPad);
  }

  /** The collector gets exactly the submitted events, whatever the padding. */
  lemma RingBufferLossless(es: seq<Event>, pads: seq<(Pad, Pad)>)
    requires |pads| == |es|
    ensures DecodedEvents(RingRecords(es, pads)) == es
  {
    var records := RingRecords(es, pads);
    var decoded := seq(|records|, i requires 0 <= i < |records| => DecodeEvent(records[i]));
    forall i | 0 <= i < |es|
      ensures decoded[i] == Some(es[i])
    {
      SubmittedDecodes(es[i], pads[i].0, pads[i].1);
    }
    AllPresent(decoded, es);
  }

  /** Statistics of a replayed recording are those of the recorded events, classified or not. */
  lemma ReplayedStatistics(classify: Event -> u32, es: seq<Event>, pads: seq<(Pad, Pad)>, s: Summary)
    requires |pads| == |es|
    ensures Replayed(Body(RecordsOf(classify, es, pads))).ok
    ensures Summarizes(s, Replayed(Body(RecordsOf(classify, es, pads))).events) <==> Summarizes(s, es)
  {
    ReplayRecorded(RecordsOf(classify, es, pads));
    ClassificationIgnored(classify, es, s);
  }

  /**
   The whole way round: the events of any run, read from the bytes of the ring buffer,
   classified, recorded and replayed from the file, give each thread and process the
   statistics that the trace alone determines.
   */
  lemma ReplayFollowsTrace(cfg: Config, run: seq<Step>, n: nat, ringPads: seq<(Pad, Pad)>, classify: Event -> u32,
                           es: seq<Event>, filePads: seq<(Pad, Pad)>, s: Summary, pid: u32, tid: u32)
    requires n <= |run| && Timed(run) && |ringPads| == |Exec(cfg, run, n).events|
    requires es == DecodedEvents(RingRecords(Exec(cfg, run, n).events, ringPads)) && |filePads| == |es|
    requires Summarizes(s, Replayed(Body(RecordsOf(classify, es, filePads))).events)
    ensures Replayed(Body(RecordsOf(classify, es, filePads))).ok
    ensures Pack(pid, tid) in s.threads <==> exists i :: 0 <= i < n && Shows(cfg, run, i, Thread(pid, tid))
    ensures pid in s.procs <==> exists i :: 0 <= i < n && Shows(cfg, run, i, Process(pid))
    ensures Pack(pid, tid) in s.threads ==> FollowsTrace(s.threads[Pack(pid, tid)].lat, cfg, run, n, Thread(pid, tid))
    ensures pid in s.procs ==> FollowsTrace(s.procs[pid].lat, cfg, run, n, Process(pid))
  {
    RingBufferLossless(Exec(cfg, run, n).events, ringPads);
    ReplayRecorded(RecordsOf(classify, es, filePads));
    EndToEnd(cfg, run, n, classify, s, pid, tid);
  }

  /** Records events to a new file. */
  method RecordAll(es: seq<Event>, pads: seq<(Pad, Pad)>, classify: Event -> u32, timebaseNs: u64, startNs: u64)
    returns (contents: seq<u8>, written: u64)
    requires |pads| == |es|
    ensures |contents| >= HEADER_SIZE && ValidHeader(contents[..HEADER_SIZE])
    ensures contents[HEADER_SIZE..] == Body(RecordsOf(classify, es, pads))
    ensures written == Wrap(|es|, W64)
  {
    var recorder := new Recorder();
    var openStatus := recorder.Open(timebaseNs, startNs);
    ghost var records := RecordsOf(classify, es, pads);
    for i := 0 to |es|
      invariant recorder.Valid() && recorder.isOpen && fresh(recorder) && recorder.earlier == 0
      invariant recorder.records == records[..i]
    {
      RecordsGrow(classify, es, pads, records, i);
      var wrote := recorder.WriteEvent(Classified(classify, es[i]), pads[i].0, pads[i].1);
    }
    assert records[..|es|] == records;
    written := recorder.eventsWritten;
    contents := recorder.file;
    HeaderThenBody(recorder.header, Body(records), contents);
    recorder.Close();
  }

  lemma RecordsGrow(classify: Event -> u32, es: seq<Event>, pads: seq<(Pad, Pad)>, records: seq<Record>, i: nat)
    requires i < |es| == |pads| && records == RecordsOf(classify, es, pads)
    ensures |records| == |es|
    ensures records[..i + 1] == records[..i] + [Record(Classified(classify, es[i]), pads[i].0, pads[i].1)]
  {
  }

  lemma HeaderThenBody<T>(header: seq<T>, body: seq<T>, contents: seq<T>)
    requires contents == header + body
    ensures contents[..|header|] == header && contents[|header|..] == body
  {
  }

  /** Records events to a file and replays that file. */
  method RecordAndReplay(es: seq<Event>, pads: seq<(Pad, Pad)>, classify: Event -> u32, timebaseNs: u64, startNs: u64)
    returns (delivered: seq<Event>, status: Status, written: u64, replayed: u64)
    requires |pads| == |es|
    ensures status == Ok && delivered == ClassifyAll(classify, es)
    ensures |delivered| == |es| && forall i :: 0 <= i < |es| ==> delivered[i] == es[i].(classification := classify(es[i]))
    ensures written == replayed == Wrap(|es|, W64)
  {
    var contents;
    contents, written := RecordAll(es, pads, classify, timebaseNs, startNs);
    var source := new ReplaySource();
    status := source.Open(contents);
    ReplayRecorded(RecordsOf(classify, es, pads));
    status, delivered := source.Replay();
    replayed := source.eventsReplayed;
  }
}
