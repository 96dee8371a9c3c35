/** The numbers in the statistics do not depend on the order in which events arrive. */
module Permutation {
  import opened Words
  import opened Events
  import opened Sums
  import opened Histograms
  import opened Statistics
  import opened Conservation

  lemma SameMembers(es: seq<Event>, es': seq<Event>)
    requires multiset(es) == multiset(es')
    ensures forall e :: e in es <==> e in es'
  {
    forall e
      ensures e in es <==> e in es'
    {
      assert e in es <==> e in multiset(es);
      assert e in es' <==> e in multiset(es');
    }
  }

  lemma SameTotal(scope: Scope, metric: Metric, es: seq<Event>, es': seq<Event>)
    requires multiset(es) == multiset(es')
    ensures Total(scope, metric, es) == Total(scope, metric, es')
  {
    SumByPermutation(es, es', Weight(scope, metric));
  }

  lemma SameExtremes(scope: Scope, es: seq<Event>, es': seq<Event>)
    requires multiset(es) == multiset(es')
    ensures GreatestOf(Durations(scope, es)) == GreatestOf(Durations(scope, es'))
    ensures LeastOf(Durations(scope, es)) == LeastOf(Durations(scope, es'))
  {
    var a, b := Durations(scope, es), Durations(scope, es');
    SameMembers(es, es');
    forall v
      ensures v in a <==> v in b
    {
      DurationsMeaning(scope, es, v);
      DurationsMeaning(scope, es', v);
    }
    assert GreatestOf(a) <= GreatestOf(b) <= GreatestOf(a);
    assert LeastOf(a) <= LeastOf(b) <= LeastOf(a);
  }

  lemma SameHistogram(scope: Scope, es: seq<Event>, es': seq<Event>)
    requires multiset(es) == multiset(es')
    ensures HistogramOf(Durations(scope, es)) == HistogramOf(Durations(scope, es'))
  {
    var h, h' := HistogramOf(Durations(scope, es)), HistogramOf(Durations(scope, es'));
    forall b: nat | b < BUCKET_COUNT
      ensures h.buckets[b] == h'.buckets[b]
    {
      DurationBuckets(scope, es, b);
      DurationBuckets(scope, es', b);
      SameTotal(scope, Bucket(b), es, es');
    }
    assert h.buckets == h'.buckets;
    SameScalars(scope, es, es');
  }

  lemma SameScalars(scope: Scope, es: seq<Event>, es': seq<Event>)
    requires multiset(es) == multiset(es')
    ensures var h, h' := HistogramOf(Durations(scope, es)), HistogramOf(Durations(scope, es'));
            h.sum == h'.sum && h.count == h'.count && h.min == h'.min && h.max == h'.max
  {
    DurationCount(scope, es);
    DurationCount(scope, es');
    SameTotal(scope, Count, es, es');
    SameTotal(scope, TotalNs, es, es');
    SameExtremes(scope, es, es');
  }

  /** A statistics record without the command name, the one field that depends on order. */
  function Numbers(lat: LatencyStats): LatencyStats {
    lat.(comm := [])
  }

  /** A stack record without the fields taken from its first or last event. */
  function StackNumbers(st: StackStats): StackStats {
    st.(pid := 0, representativeKind := EV_NONE, isKernel := false)
  }

  lemma SameNumbers(scope: Scope, es: seq<Event>, es': seq<Event>)
    requires multiset(es) == multiset(es')
    ensures Numbers(StatsOf(scope, es)) == Numbers(StatsOf(scope, es'))
  {
    SameTotal(scope, SyscallNs, es, es');
    SameTotal(scope, OffcpuNs, es, es');
    SameTotal(scope, Count, es, es');
    SameExtremes(scope, es, es');
    SameHistogram(scope, es, es');
  }

  lemma {:induction false} PidsMeaning(scope: Scope, es: seq<Event>, p: u32)
    ensures p in PidsOf(scope, es) <==> exists e :: e in es && In(scope, e) && e.pid == p
  {
    if es != [] {
      var last := |es| - 1;
      assert es == es[..last] + [es[last]];
      PidsMeaning(scope, es[..last], p);
    }
  }

  lemma SamePids(scope: Scope, es: seq<Event>, es': seq<Event>)
    requires multiset(es) == multiset(es')
    ensures PidsOf(scope, es) == PidsOf(scope, es')
  {
    SameMembers(es, es');
    forall p: u32
      ensures p in PidsOf(scope, es) <==> p in PidsOf(scope, es')
    {
      PidsMeaning(scope, es, p);
      PidsMeaning(scope, es', p);
    }
  }

  lemma SameSyscall(id: u64, es: seq<Event>, es': seq<Event>)
    requires multiset(es) == multiset(es')
    ensures SyscallStatsOf(id, es) == SyscallStatsOf(id, es')
  {
    var scope := SyscallNo(id);
    SameTotal(scope, Count, es, es');
    SameTotal(scope, TotalNs, es, es');
    SameExtremes(scope, es, es');
    SameHistogram(scope, es, es');
    SamePids(scope, es, es');
  }

  lemma SameStack(id: i64, es: seq<Event>, es': seq<Event>)
    requires multiset(es) == multiset(es')
    ensures StackNumbers(StackStatsOf(id, es)) == StackNumbers(StackStatsOf(id, es'))
  {
    SameTotal(UserStack(id), TotalNs, es, es');
    SameTotal(KernStack(id), TotalNs, es, es');
    SameTotal(UserStack(id), Count, es, es');
    SameTotal(KernStack(id), Count, es, es');
  }

  lemma SameKeys(es: seq<Event>, es': seq<Event>)
    requires multiset(es) == multiset(es')
    ensures ProcessKeys(es) == ProcessKeys(es') && ThreadKeys(es) == ThreadKeys(es')
    ensures SyscallKeys(es) == SyscallKeys(es') && StackKeys(es) == StackKeys(es')
  {
    SameMembers(es, es');
  }

  /**
   Two summaries of the same events in different orders have the same keys and the
   same numbers. Only command names, and a stack's pid, kind and kernel mark, may differ.
   */
  lemma OrderIrrelevant(s: Summary, es: seq<Event>, s': Summary, es': seq<Event>)
    requires Summarizes(s, es) && Summarizes(s', es') && multiset(es) == multiset(es')
    ensures s.procs.Keys == s'.procs.Keys && s.threads.Keys == s'.threads.Keys
    ensures forall p :: p in s.procs ==> Numbers(s.procs[p].lat) == Numbers(s'.procs[p].lat)
    ensures forall k :: k in s.threads ==> Numbers(s.threads[k].lat) == Numbers(s'.threads[k].lat)
    ensures s.syscalls == s'.syscalls
    ensures s.stacks.Keys == s'.stacks.Keys
    ensures forall id :: id in s.stacks ==> StackNumbers(s.stacks[id]) == StackNumbers(s'.stacks[id])
    ensures s.total == s'.total
  {
    SameKeys(es, es');
    LatencyOrderIrrelevant(s, es, s', es');
    SyscallOrderIrrelevant(s.syscalls, es, s'.syscalls, es');
    StackOrderIrrelevant(s.stacks, es, s'.stacks, es');
    assert |es| == |multiset(es)| == |multiset(es')| == |es'|;
  }

  lemma LatencyOrderIrrelevant(s: Summary, es: seq<Event>, s': Summary, es': seq<Event>)
    requires Summarizes(s, es) && Summarizes(s', es') && multiset(es) == multiset(es')
    requires s.procs.Keys == s'.procs.Keys && s.threads.Keys == s'.threads.Keys
    ensures forall p :: p in s.procs ==> Numbers(s.procs[p].lat) == Numbers(s'.procs[p].lat)
    ensures forall k :: k in s.threads ==> Numbers(s.threads[k].lat) == Numbers(s'.threads[k].lat)
  {
    forall p | p in s.procs
      ensures Numbers(s.procs[p].lat) == Numbers(s'.procs[p].lat)
    {
      SameNumbers(Process(p), es, es');
    }
    forall k | k in s.threads
      ensures Numbers(s.threads[k].lat) == Numbers(s'.threads[k].lat)
    {
      SameNumbers(ThreadScope(k), es, es');
    }
  }

  lemma SameSyscallEntries(es: seq<Event>, es': seq<Event>)
    requires multiset(es) == multiset(es')
    ensures forall id :: id in SyscallKeys(es) ==> SyscallEntry(es')(id) == SyscallEntry(es)(id)
  {
    forall id | id in SyscallKeys(es)
      ensures SyscallEntry(es')(id) == SyscallEntry(es)(id)
    {
      SameSyscall(id, es, es');
    }
  }

  lemma SyscallOrderIrrelevant(syscalls: map<u64, SyscallStats>, es: seq<Event>,
                               syscalls': map<u64, SyscallStats>, es': seq<Event>)
    requires Indexes(syscalls, SyscallKeys(es), SyscallEntry(es)) && Indexes(syscalls', SyscallKeys(es'), SyscallEntry(es'))
    requires multiset(es) == multiset(es')
    ensures syscalls == syscalls'
  {
    SameKeys(es, es');
    SameSyscallEntries(es, es');
    IndexKept(syscalls, SyscallKeys(es), SyscallEntry(es), SyscallEntry(es'));
    IndexUnique(syscalls, syscalls', SyscallKeys(es'), SyscallEntry(es'));
  }

  lemma StackOrderIrrelevant(stacks: map<i64, StackStats>, es: seq<Event>,
                             stacks': map<i64, StackStats>, es': seq<Event>)
    requires Indexes(stacks, StackKeys(es), StackEntry(es)) && Indexes(stacks', StackKeys(es'), StackEntry(es'))
    requires multiset(es) == multiset(es')
    ensures stacks.Keys == stacks'.Keys
    ensures forall id :: id in stacks ==> StackNumbers(stacks[id]) == StackNumbers(stacks'[id])
  {
    SameKeys(es, es');
    forall id | id in stacks
      ensures StackNumbers(stacks[id]) == StackNumbers(stacks'[id])
    {
      SameStack(id, es, es');
    }
  }
}
