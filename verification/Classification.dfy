/**
 Every command classifies an event before handing it on. The class is an arbitrary
 function of the event here, because no statistic reads it.
 */
module Classification {
  import opened Words
  import opened Events
  import opened Statistics

  function Classified(classify: Event -> u32, e: Event): Event {
    e.(classification := classify(e))
  }

  function ClassifyAll(classify: Event -> u32, es: seq<Event>): (r: seq<Event>)
    ensures |r| == |es| && forall i :: 0 <= i < |es| ==> r[i] == Classified(classify, es[i])
  {
    seq(|es|, i requires 0 <= i < |es| => Classified(classify, es[i]))
  }

  lemma ClassifyAppend(classify: Event -> u32, es: seq<Event>, more: seq<Event>)
    ensures ClassifyAll(classify, es + more) == ClassifyAll(classify, es) + ClassifyAll(classify, more)
  {
  }

  /** A history after the first `n` of `es` have been classified and appended. */
  function Fed(history: seq<Event>, classify: Event -> u32, es: seq<Event>, n: nat): seq<Event>
    requires n <= |es|
  {
    if n == 0 then history else Fed(history, classify, es, n - 1) + [Classified(classify, es[n - 1])]
  }

  lemma {:induction false} FedIsAppended(history: seq<Event>, classify: Event -> u32, es: seq<Event>, n: nat)
    requires n <= |es|
    ensures Fed(history, classify, es, n) == history + ClassifyAll(classify, es[..n])
  {
    if n > 0 {
      FedIsAppended(history, classify, es, n - 1);
      assert ClassifyAll(classify, es[..n]) == ClassifyAll(classify, es[..n - 1]) + [Classified(classify, es[n - 1])];
    }
  }

  lemma ClassifyLast(classify: Event -> u32, es: seq<Event>)
    requires es != []
    ensures var before, ev := es[..|es| - 1], es[|es| - 1];
            && es == before + [ev]
            && ClassifyAll(classify, es) == ClassifyAll(classify, before) + [ev.(classification := classify(ev))]
  {
  }

  lemma LatencyIgnoresClass(s: Summary, ev: Event, ev': Event)
    requires Ready(s, ev) && ev' == ev.(classification := ev'.classification)
    ensures UpdatedProcesses(s.procs, ev') == UpdatedProcesses(s.procs, ev)
    ensures UpdatedThreads(s.threads, ev') == UpdatedThreads(s.threads, ev)
  {
  }

  lemma SyscallsIgnoreClass(s: Summary, ev: Event, ev': Event)
    requires Ready(s, ev) && ev' == ev.(classification := ev'.classification)
    ensures UpdatedSyscalls(s.syscalls, ev') == UpdatedSyscalls(s.syscalls, ev)
  {
  }

  lemma StacksIgnoreClass(stacks: map<i64, StackStats>, ev: Event, ev': Event)
    requires ev' == ev.(classification := ev'.classification)
    ensures UpdatedStacks(stacks, ev') == UpdatedStacks(stacks, ev)
  {
  }

  lemma UpdateIgnoresClass(s: Summary, ev: Event, ev': Event)
    requires Ready(s, ev) && ev' == ev.(classification := ev'.classification)
    ensures Ready(s, ev') && Updated(s, ev') == Updated(s, ev)
  {
    LatencyIgnoresClass(s, ev, ev');
    SyscallsIgnoreClass(s, ev, ev');
    StacksIgnoreClass(s.stacks, ev, ev');
  }

  lemma CommonStep(t: Summary, es: seq<Event>, es': seq<Event>, ev: Event, classification: u32) returns (s: Summary)
    requires Summarizes(t, es) && Summarizes(t, es')
    ensures Summarizes(s, es + [ev]) && Summarizes(s, es' + [ev.(classification := classification)])
  {
    SummaryReady(t, es, ev);
    UpdateIgnoresClass(t, ev, ev.(classification := classification));
    s := Updated(t, ev);
    SummaryUpdated(t, es, ev);
    SummaryUpdated(t, es', ev.(classification := classification));
  }

  lemma EmptySummary()
    ensures Summarizes(Summary(map[], map[], map[], map[], 0), [])
  {
  }

  /** One summary fits both the events as they came and the events as classified. */
  lemma {:induction false} CommonSummary(classify: Event -> u32, es: seq<Event>) returns (s: Summary)
    ensures Summarizes(s, es) && Summarizes(s, ClassifyAll(classify, es))
  {
    if es == [] {
      EmptySummary();
      s := Summary(map[], map[], map[], map[], 0);
    } else {
      var before, ev := es[..|es| - 1], es[|es| - 1];
      var t := CommonSummary(classify, before);
      s := CommonStep(t, before, ClassifyAll(classify, before), ev, classify(ev));
      ClassifyLast(classify, es);
    }
  }

  /** Aggregating classified events gives the same statistics as aggregating the events themselves. */
  lemma ClassificationIgnored(classify: Event -> u32, es: seq<Event>, s: Summary)
    ensures Summarizes(s, ClassifyAll(classify, es)) <==> Summarizes(s, es)
  {
    var t := CommonSummary(classify, es);
    if Summarizes(s, es) {
      SummaryUnique(s, t, es);
    }
    if Summarizes(s, ClassifyAll(classify, es)) {
      SummaryUnique(s, t, ClassifyAll(classify, es));
    }
  }
}
