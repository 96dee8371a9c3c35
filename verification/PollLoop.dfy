/**
 The polling loop of the live commands: poll, draw once a second, reset the statistics
 at the end of each window, leave when the duration is over. A run is a sequence of
 iterations, each with the events its poll delivered and its two clock readings; the
 sequence ends where a shutdown is requested.
 */
module PollLoop {
  import opened Words
  import opened Events
  import opened Statistics
  import opened Classification
  import opened Aggregator

  const SECOND_NS: u64 := 1_000_000_000

  datatype Settings = Settings(windowSec: u32, durationSec: u32)

  datatype Iteration = Iteration(events: seq<Event>, now: u64, checkNow: u64)

  function SecToNs(sec: u32): u64 {
    sec * 1_000_000_000
  }

  predicate Expired(checkNow: u64, start: u64, durationSec: u32) {
    durationSec != 0 && Sub64(checkNow, start) >= SecToNs(durationSec)
  }

  predicate WindowOver(cfg: Settings, now: u64, start: u64) {
    SecToNs(cfg.windowSec) > 0 && Sub64(now, start) >= SecToNs(cfg.windowSec)
  }

  /** Loop variables; `first` is the first iteration whose events are still counted. */
  datatype LoopState = LoopState(start: u64, lastDraw: u64, first: nat)

  function NextDraw(lastDraw: u64, now: u64): u64 {
    if Sub64(now, lastDraw) >= SECOND_NS then now else lastDraw
  }

  function NextStart(cfg: Settings, start: u64, now: u64): u64 {
    if WindowOver(cfg, now, start) then now else start
  }

  function AfterIteration(cfg: Settings, s: LoopState, it: Iteration, i: nat): LoopState {
    LoopState(NextStart(cfg, s.start, it.now), NextDraw(s.lastDraw, it.now),
              if WindowOver(cfg, it.now, s.start) then i + 1 else s.first)
  }

  /** The loop variables before iteration `n`, if the loop gets that far. */
  function Before(cfg: Settings, start: u64, its: seq<Iteration>, n: nat): LoopState
    requires n <= |its|
  {
    if n == 0 then LoopState(start, start, 0)
    else AfterIteration(cfg, Before(cfg, start, its, n - 1), its[n - 1], n - 1)
  }

  predicate Draws(cfg: Settings, start: u64, its: seq<Iteration>, i: nat)
    requires i < |its|
  {
    Sub64(its[i].now, Before(cfg, start, its, i).lastDraw) >= SECOND_NS
  }

  predicate Resets(cfg: Settings, start: u64, its: seq<Iteration>, i: nat)
    requires i < |its|
  {
    WindowOver(cfg, its[i].now, Before(cfg, start, its, i).start)
  }

  /** The duration check at the end of iteration `i` succeeds. */
  predicate Leaves(cfg: Settings, start: u64, its: seq<Iteration>, i: nat)
    requires i < |its|
  {
    Expired(its[i].checkNow, Before(cfg, start, its, i + 1).start, cfg.durationSec)
  }

  /** None of the first `n` duration checks succeeds. */
  predicate Stays(cfg: Settings, start: u64, its: seq<Iteration>, n: nat)
    requires n <= |its|
  {
    n > 0 ==> Stays(cfg, start, its, n - 1) && !Leaves(cfg, start, its, n - 1)
  }

  lemma {:induction false} StaysMeaning(cfg: Settings, start: u64, its: seq<Iteration>, n: nat)
    requires n <= |its|
    ensures Stays(cfg, start, its, n) <==> forall i :: 0 <= i < n ==> !Leaves(cfg, start, its, i)
  {
    if n > 0 {
      StaysMeaning(cfg, start, its, n - 1);
    }
  }

  function Delivered(its: seq<Iteration>, a: nat, b: nat): seq<Event>
    requires a <= b <= |its|
  {
    if a == b then [] else Delivered(its, a, b - 1) + its[b - 1].events
  }

  /** The iterations among the first `n` that draw. */
  function DrawSteps(cfg: Settings, start: u64, its: seq<Iteration>, n: nat): (r: seq<nat>)
    requires n <= |its|
    ensures forall d :: 0 <= d < |r| ==> r[d] < n
  {
    if n == 0 then []
    else DrawSteps(cfg, start, its, n - 1) + if Draws(cfg, start, its, n - 1) then [n - 1] else []
  }

  /** Counting starts after the last iteration that ended a window. */
  lemma {:induction false} FirstFollowsLastReset(cfg: Settings, start: u64, its: seq<Iteration>, n: nat)
    requires n <= |its|
    ensures var first := Before(cfg, start, its, n).first;
            && first <= n
            && (first > 0 ==> Resets(cfg, start, its, first - 1))
            && forall i :: first <= i < n ==> !Resets(cfg, start, its, i)
  {
    if n > 0 {
      FirstFollowsLastReset(cfg, start, its, n - 1);
    }
  }

  /** The draw at iteration `i` shows exactly the events delivered since the last reset. */
  ghost predicate ShowsDelivered(cfg: Settings, start: u64, its: seq<Iteration>, i: nat, shown: Summary)
    requires i < |its|
  {
    var first := Before(cfg, start, its, i).first;
    first <= i && Summarizes(shown, Delivered(its, first, i + 1))
  }

  /** One truthful draw for each iteration that draws, in order. */
  ghost predicate DrawnCorrectly(cfg: Settings, start: u64, its: seq<Iteration>, n: nat, shown: seq<Summary>)
    requires n <= |its|
  {
    var steps := DrawSteps(cfg, start, its, n);
    |shown| == |steps| && forall d :: 0 <= d < |steps| ==> ShowsDelivered(cfg, start, its, steps[d], shown[d])
  }

  /** The history that the callback has built from iterations `a` up to `b`. */
  function Counted(its: seq<Iteration>, classify: Event -> u32, a: nat, b: nat): seq<Event>
    requires a <= b <= |its|
  {
    if a == b then [] else Fed(Counted(its, classify, a, b - 1), classify, its[b - 1].events, |its[b - 1].events|)
  }

  lemma {:induction false} CountedIsDelivered(its: seq<Iteration>, classify: Event -> u32, a: nat, b: nat)
    requires a <= b <= |its|
    ensures Counted(its, classify, a, b) == ClassifyAll(classify, Delivered(its, a, b))
  {
    if a < b {
      CountedIsDelivered(its, classify, a, b - 1);
      var es := its[b - 1].events;
      FedIsAppended(Counted(its, classify, a, b - 1), classify, es, |es|);
      assert es[..|es|] == es;
      ClassifyAppend(classify, Delivered(its, a, b - 1), es);
    }
  }

  lemma SnapshotShowsDelivered(its: seq<Iteration>, classify: Event -> u32, a: nat, b: nat, s: Summary)
    requires a <= b <= |its| && Summarizes(s, Counted(its, classify, a, b))
    ensures Summarizes(s, Delivered(its, a, b))
  {
    CountedIsDelivered(its, classify, a, b);
    ClassificationIgnored(classify, Delivered(its, a, b), s);
  }

  lemma DrawAdded(cfg: Settings, start: u64, its: seq<Iteration>, i: nat, draws: seq<Summary>,
                  classify: Event -> u32, shown: Option<Summary>)
    requires i < |its| && DrawnCorrectly(cfg, start, its, i, draws)
    requires shown.Some? <==> Draws(cfg, start, its, i)
    requires Before(cfg, start, its, i).first <= i
    requires shown.Some? ==> Summarizes(shown.value, Counted(its, classify, Before(cfg, start, its, i).first, i + 1))
    ensures DrawnCorrectly(cfg, start, its, i + 1, draws + if shown.Some? then [shown.value] else [])
  {
    if shown.Some? {
      SnapshotShowsDelivered(its, classify, Before(cfg, start, its, i).first, i + 1, shown.value);
      assert ShowsDelivered(cfg, start, its, i, shown.value);
    }
  }

  /** The loop variables and the aggregator's history before iteration `i`. */
  ghost predicate At(cfg: Settings, start: u64, its: seq<Iteration>, classify: Event -> u32, i: nat,
                     t0: u64, lastDraw: u64, history: seq<Event>)
    requires i <= |its|
  {
    var s := Before(cfg, start, its, i);
    s.first <= i && t0 == s.start && lastDraw == s.lastDraw && history == Counted(its, classify, s.first, i)
  }

  lemma AtNext(cfg: Settings, start: u64, its: seq<Iteration>, classify: Event -> u32, i: nat,
               t0: u64, lastDraw: u64, history: seq<Event>)
    requires i < |its| && At(cfg, start, its, classify, i, t0, lastDraw, history)
    ensures var it := its[i];
            var counted := Fed(history, classify, it.events, |it.events|);
            && counted == Counted(its, classify, Before(cfg, start, its, i).first, i + 1)
            && At(cfg, start, its, classify, i + 1, NextStart(cfg, t0, it.now), NextDraw(lastDraw, it.now),
                  if WindowOver(cfg, it.now, t0) then [] else counted)
            && Before(cfg, start, its, i + 1).start == NextStart(cfg, t0, it.now)
  {
  }

  /** Everything but the aggregator's own invariant that holds before iteration `i`. */
  ghost predicate Progress(cfg: Settings, start: u64, its: seq<Iteration>, classify: Event -> u32, i: nat,
                           t0: u64, lastDraw: u64, history: seq<Event>, draws: seq<Summary>) {
    && i <= |its|
    && At(cfg, start, its, classify, i, t0, lastDraw, history)
    && DrawnCorrectly(cfg, start, its, i, draws)
  }

  lemma ProgressStart(cfg: Settings, start: u64, its: seq<Iteration>, classify: Event -> u32,
                      history: seq<Event>, draws: seq<Summary>)
    requires history == [] && draws == []
    ensures Progress(cfg, start, its, classify, 0, start, start, history, draws)
  {
  }

  lemma StaysNext(cfg: Settings, start: u64, its: seq<Iteration>, i: nat)
    requires i < |its| && Stays(cfg, start, its, i) && !Leaves(cfg, start, its, i)
    ensures Stays(cfg, start, its, i + 1)
  {
  }

  /** What the loop has drawn and found when it ends, at `left` or after all iterations. */
  ghost predicate Ended(cfg: Settings, start: u64, its: seq<Iteration>, draws: seq<Summary>, left: Option<nat>) {
    match left
    case None => Stays(cfg, start, its, |its|) && DrawnCorrectly(cfg, start, its, |its|, draws)
    case Some(i) =>
      && i < |its| && Stays(cfg, start, its, i) && Leaves(cfg, start, its, i)
      && DrawnCorrectly(cfg, start, its, i + 1, draws)
  }

  lemma EndedAfter(cfg: Settings, start: u64, its: seq<Iteration>, classify: Event -> u32, n: nat,
                   t0: u64, lastDraw: u64, history: seq<Event>, draws: seq<Summary>, left: Option<nat>)
    requires Progress(cfg, start, its, classify, n, t0, lastDraw, history, draws)
    requires left.None? ==> n == |its| && Stays(cfg, start, its, n)
    requires left.Some? ==> n == left.value + 1 && Stays(cfg, start, its, left.value) && Leaves(cfg, start, its, left.value)
    ensures Ended(cfg, start, its, draws, left)
  {
  }

  /** A command starts a new aggregator and enters the loop. */
  method Run(cfg: Settings, start: u64, its: seq<Iteration>, classify: Event -> u32)
    returns (draws: seq<Summary>, left: Option<nat>)
    ensures Ended(cfg, start, its, draws, left)
  {
    var agg := new Aggregator();
    ProgressStart(cfg, start, its, classify, agg.history, []);
    var t0, lastDraw, n;
    draws, left, t0, lastDraw, n := Loop(agg, cfg, start, its, classify);
    EndedAfter(cfg, start, its, classify, n, t0, lastDraw, agg.history, draws, left);
  }

  /** The loop itself. It returns what it drew and, if the duration ended it, where. */
  method Loop(agg: Aggregator, cfg: Settings, start: u64, its: seq<Iteration>, classify: Event -> u32)
    returns (draws: seq<Summary>, left: Option<nat>, t0: u64, lastDraw: u64, n: nat)
    requires agg.Valid() && Progress(cfg, start, its, classify, 0, start, start, agg.history, [])
    modifies agg
    ensures Progress(cfg, start, its, classify, n, t0, lastDraw, agg.history, draws)
    ensures left.None? ==> n == |its| && Stays(cfg, start, its, n)
    ensures left.Some? ==> n == left.value + 1 && Stays(cfg, start, its, left.value) && Leaves(cfg, start, its, left.value)
  {
    draws, left, t0, lastDraw, n := [], None, start, start, 0;
    while n < |its|
      invariant n <= |its| && agg.Valid() && left.None?
      invariant Progress(cfg, start, its, classify, n, t0, lastDraw, agg.history, draws)
      invariant Stays(cfg, start, its, n)
    {
      var i, leave := n, false;
      draws, t0, lastDraw, leave := Iterate(agg, cfg, its[i], classify, draws, t0, lastDraw, start, its, i);
      n := i + 1;
      if leave {
        left := Some(i);
        return;
      }
      StaysNext(cfg, start, its, i);
    }
  }

  /** The body of the loop; the last three arguments only say where in the run it is. */
  method Iterate(agg: Aggregator, cfg: Settings, it: Iteration, classify: Event -> u32, drawn: seq<Summary>,
                 windowStart: u64, lastDrawn: u64, ghost start: u64, ghost its: seq<Iteration>, ghost i: nat)
    returns (draws: seq<Summary>, t0: u64, lastDraw: u64, leave: bool)
    requires agg.Valid() && i < |its| && it == its[i]
    requires Progress(cfg, start, its, classify, i, windowStart, lastDrawn, agg.history, drawn)
    modifies agg
    ensures agg.Valid()
    ensures Progress(cfg, start, its, classify, i + 1, t0, lastDraw, agg.history, draws)
    ensures leave <==> Leaves(cfg, start, its, i)
  {
    AtNext(cfg, start, its, classify, i, windowStart, lastDrawn, agg.history);
    var shown: Option<Summary>;
    shown, t0, lastDraw := PollDrawReset(agg, cfg, it, classify, windowStart, lastDrawn);
    DrawAdded(cfg, start, its, i, drawn, classify, shown);
    draws := drawn;
    if shown.Some? {
      draws := draws + [shown.value];
    } else {
      assert drawn + [] == drawn;
    }
    leave := Expired(it.checkNow, t0, cfg.durationSec);
  }

  method PollDrawReset(agg: Aggregator, cfg: Settings, it: Iteration, classify: Event -> u32, windowStart: u64, lastDrawn: u64)
    returns (shown: Option<Summary>, t0: u64, lastDraw: u64)
    requires agg.Valid()
    modifies agg
    ensures agg.Valid()
    ensures var counted := Fed(old(agg.history), classify, it.events, |it.events|);
            && (shown.Some? <==> Sub64(it.now, lastDrawn) >= SECOND_NS)
            && (shown.Some? ==> Summarizes(shown.value, counted))
            && agg.history == if WindowOver(cfg, it.now, windowStart) then [] else counted
    ensures t0 == NextStart(cfg, windowStart, it.now) && lastDraw == NextDraw(lastDrawn, it.now)
  {
    Poll(agg, it.events, classify);
    shown, t0, lastDraw := None, windowStart, lastDrawn;
    if Sub64(it.now, lastDrawn) >= SECOND_NS {
      var s := agg.Snapshot();
      shown := Some(s);
      lastDraw := it.now;
    }
    if SecToNs(cfg.windowSec) > 0 && Sub64(it.now, t0) >= SecToNs(cfg.windowSec) {
      agg.Reset();
      t0 := it.now;
    }
  }

  /** One poll: every delivered event is classified and aggregated. */
  method Poll(agg: Aggregator, events: seq<Event>, classify: Event -> u32)
    requires agg.Valid()
    modifies agg
    ensures agg.Valid() && agg.history == Fed(old(agg.history), classify, events, |events|)
  {
    for i := 0 to |events|
      invariant agg.Valid() && agg.history == Fed(old(agg.history), classify, events, i)
    {
      agg.ProcessEvent(Classified(classify, events[i]));
    }
  }

  // ---------------------------------------------------------------- when the duration ends the loop

  /** The clock does not go back: not from the first reading of an iteration to its second, not to the next. */
  ghost predicate MonotoneClock(start: u64, its: seq<Iteration>) {
    && (forall i :: 0 <= i < |its| ==> start <= its[i].now <= its[i].checkNow)
    && (forall i, j :: 0 <= i < j < |its| ==> its[i].checkNow <= its[j].now)
  }

  lemma {:induction false} StartNotAhead(cfg: Settings, start: u64, its: seq<Iteration>, n: nat)
    requires n <= |its| && MonotoneClock(start, its)
    ensures start <= Before(cfg, start, its, n).start
    ensures forall i :: n <= i < |its| ==> Before(cfg, start, its, n).start <= its[i].now
    ensures cfg.windowSec == 0 ==> Before(cfg, start, its, n).start == start
  {
    if n > 0 {
      StartNotAhead(cfg, start, its, n - 1);
    }
  }

  /**
   The exact condition of one duration check. The end of a window restarts the clock at
   the first reading, so the second reading is then measured against the first.
   */
  lemma {:induction false} LeavesExactly(cfg: Settings, start: u64, its: seq<Iteration>, i: nat)
    requires i < |its| && MonotoneClock(start, its)
    ensures var it, t0 := its[i], Before(cfg, start, its, i).start;
            && t0 <= it.now
            && (Resets(cfg, start, its, i) <==> cfg.windowSec > 0 && it.now - t0 >= cfg.windowSec * 1_000_000_000)
            && (Leaves(cfg, start, its, i) <==>
                && cfg.durationSec > 0
                && it.checkNow - (if Resets(cfg, start, its, i) then it.now else t0) >= cfg.durationSec * 1_000_000_000)
  {
    StartNotAhead(cfg, start, its, i);
    assert Before(cfg, start, its, i + 1) == AfterIteration(cfg, Before(cfg, start, its, i), its[i], i);
  }

  /** Without a window the loop leaves at the first check at or past the duration. */
  lemma {:induction false} NoWindowLeavesOnTime(cfg: Settings, start: u64, its: seq<Iteration>, i: nat)
    requires i < |its| && MonotoneClock(start, its) && cfg.windowSec == 0 && cfg.durationSec > 0
    ensures Leaves(cfg, start, its, i) <==> its[i].checkNow - start >= cfg.durationSec * 1_000_000_000
  {
    StartNotAhead(cfg, start, its, i);
    LeavesExactly(cfg, start, its, i);
  }

  // ---------------------------------------------------------------- when the loop draws

  /** The loop draws at `j` and not again before `n`. */
  ghost predicate LastDrawAt(cfg: Settings, start: u64, its: seq<Iteration>, j: nat, n: nat)
    requires n <= |its|
  {
    j < n && Draws(cfg, start, its, j) && forall i :: j < i < n ==> !Draws(cfg, start, its, i)
  }

  /** The last of the first `n` iterations that draws. */
  ghost function LastDraw(cfg: Settings, start: u64, its: seq<Iteration>, n: nat): (r: Option<nat>)
    requires n <= |its|
    ensures r.Some? ==> LastDrawAt(cfg, start, its, r.value, n)
    ensures r.None? ==> forall i :: 0 <= i < n ==> !Draws(cfg, start, its, i)
  {
    if n == 0 then None
    else if Draws(cfg, start, its, n - 1) then Some(n - 1)
    else LastDraw(cfg, start, its, n - 1)
  }

  lemma {:induction false} LastDrawTime(cfg: Settings, start: u64, its: seq<Iteration>, n: nat)
    requires n <= |its|
    ensures var j := LastDraw(cfg, start, its, n);
            Before(cfg, start, its, n).lastDraw == if j.Some? then its[j.value].now else start
    decreases n
  {
    if n > 0 {
      LastDrawTime(cfg, start, its, n - 1);
    }
  }

  lemma DrawsFrom(cfg: Settings, start: u64, its: seq<Iteration>, i: nat, t: u64)
    requires i < |its| && Before(cfg, start, its, i).lastDraw == t <= its[i].now
    ensures Draws(cfg, start, its, i) <==> its[i].now - t >= 1_000_000_000
  {
  }

  /** The loop draws exactly when a second has passed since it started, or since it last drew, at `j`. */
  lemma {:induction false} DrawsOnceASecond(cfg: Settings, start: u64, its: seq<Iteration>, j: nat, i: nat)
    requires i < |its| && MonotoneClock(start, its)
    ensures (forall k :: 0 <= k < i ==> !Draws(cfg, start, its, k)) ==>
              (Draws(cfg, start, its, i) <==> its[i].now - start >= 1_000_000_000)
    ensures LastDrawAt(cfg, start, its, j, i) ==>
              (Draws(cfg, start, its, i) <==> its[i].now - its[j].now >= 1_000_000_000)
  {
    LastDrawTime(cfg, start, its, i);
    var t := Before(cfg, start, its, i).lastDraw;
    assert t <= its[i].now;
    DrawsFrom(cfg, start, its, i, t);
  }

  /** The draws of a run are those of the iterations that draw, in order. */
  lemma {:induction false} DrawStepsMeaning(cfg: Settings, start: u64, its: seq<Iteration>, n: nat, steps: seq<nat>)
    requires n <= |its| && steps == DrawSteps(cfg, start, its, n)
    ensures forall i :: i in steps <==> 0 <= i < n && Draws(cfg, start, its, i)
    ensures forall a, b :: 0 <= a < b < |steps| ==> steps[a] < steps[b]
    decreases n
  {
    if n > 0 {
      var before := DrawSteps(cfg, start, its, n - 1);
      DrawStepsMeaning(cfg, start, its, n - 1, before);
      if Draws(cfg, start, its, n - 1) {
        assert steps == before + [n - 1];
      } else {
        assert steps == before;
      }
    }
  }

  // ---------------------------------------------------------------- windows and durations

  /** Up to iteration `n` no first reading is a window away from the start, so no window ends. */
  lemma {:induction false} NoWindowEnds(cfg: Settings, start: u64, its: seq<Iteration>, n: nat)
    requires n <= |its| && MonotoneClock(start, its)
    requires forall k :: 0 <= k < n ==> its[k].now - start < SecToNs(cfg.windowSec)
    ensures Before(cfg, start, its, n).start == start
  {
    if n > 0 {
      NoWindowEnds(cfg, start, its, n - 1);
    }
  }

  /**
   With a window longer than the duration, the first check at or past the duration ends the
   loop exactly when its own window is not over yet, or the delay between the two readings
   makes up a whole duration. A poll that takes at most the difference is enough.
   */
  lemma {:induction false} LongWindowLeavesOnTime(cfg: Settings, start: u64, its: seq<Iteration>, i: nat)
    requires i < |its| && MonotoneClock(start, its) && 0 < cfg.durationSec < cfg.windowSec
    requires forall k :: 0 <= k < i ==> its[k].checkNow - start < SecToNs(cfg.durationSec)
    ensures Stays(cfg, start, its, i)
    ensures var it, duration, window := its[i], SecToNs(cfg.durationSec), SecToNs(cfg.windowSec);
            && (Leaves(cfg, start, its, i) <==>
                it.checkNow - start >= duration && (it.now - start < window || it.checkNow - it.now >= duration))
            && (it.now - (if i == 0 then start else its[i - 1].checkNow) <= window - duration ==>
                  (Leaves(cfg, start, its, i) <==> it.checkNow - start >= duration))
  {
    forall k | 0 <= k < i
      ensures !Leaves(cfg, start, its, k)
    {
      NoWindowEnds(cfg, start, its, k);
      LeavesExactly(cfg, start, its, k);
    }
    StaysMeaning(cfg, start, its, i);
    NoWindowEnds(cfg, start, its, i);
    LeavesExactly(cfg, start, its, i);
  }

  /**
   With a window no longer than the duration, only a delay between the two readings of
   one iteration can end the loop, and it must exceed the difference.
   */
  lemma {:induction false} ShortWindowLeavesOnlyByDelay(cfg: Settings, start: u64, its: seq<Iteration>, i: nat)
    requires i < |its| && MonotoneClock(start, its) && 0 < cfg.windowSec <= cfg.durationSec
    ensures Leaves(cfg, start, its, i) ==>
              its[i].checkNow - its[i].now > SecToNs(cfg.durationSec) - SecToNs(cfg.windowSec)
  {
    LeavesExactly(cfg, start, its, i);
  }

  /** The two readings of each iteration are at most `delay` apart. */
  ghost predicate DelayedBy(its: seq<Iteration>, delay: nat) {
    forall i :: 0 <= i < |its| ==> its[i].checkNow - its[i].now <= delay
  }

  /** The duration ends some run whose readings are at most `delay` apart. */
  ghost predicate CanEnd(cfg: Settings, start: u64, delay: nat) {
    exists its: seq<Iteration>, i: nat ::
      i < |its| && MonotoneClock(start, its) && DelayedBy(its, delay) && Leaves(cfg, start, its, i)
  }

  /** One iteration that the duration ends. */
  lemma EndingRun(cfg: Settings, start: u64, delay: nat)
    requires start + SecToNs(cfg.durationSec) < W64 && cfg.durationSec > 0
    requires cfg.windowSec == 0 || SecToNs(cfg.durationSec) < SecToNs(cfg.windowSec) + delay
    ensures CanEnd(cfg, start, delay)
  {
    var checkNow := start + SecToNs(cfg.durationSec);
    var now := if SecToNs(cfg.durationSec) <= delay then start else checkNow - delay;
    var its := [Iteration([], now, checkNow)];
    assert Before(cfg, start, its, 0).start == start;
    LeavesExactly(cfg, start, its, 0);
    assert MonotoneClock(start, its) && DelayedBy(its, delay) && Leaves(cfg, start, its, 0);
  }

  /**
   For every bound on the delay between the two readings, the duration can end some run
   exactly when it is set, the clock can reach its end, and the window is off or longer
   than the duration less the delay.
   */
  lemma DurationCanEndLoop(cfg: Settings, start: u64, delay: nat)
    ensures CanEnd(cfg, start, delay) <==>
            && cfg.durationSec > 0 && start + SecToNs(cfg.durationSec) < W64
            && (cfg.windowSec == 0 || SecToNs(cfg.durationSec) < SecToNs(cfg.windowSec) + delay)
  {
    if CanEnd(cfg, start, delay) {
      var its: seq<Iteration>, i: nat :|
        i < |its| && MonotoneClock(start, its) && DelayedBy(its, delay) && Leaves(cfg, start, its, i);
      LeavesExactly(cfg, start, its, i);
      StartNotAhead(cfg, start, its, i);
      if 0 < cfg.windowSec <= cfg.durationSec {
        ShortWindowLeavesOnlyByDelay(cfg, start, its, i);
      }
    }
    if
      && cfg.durationSec > 0 && start + SecToNs(cfg.durationSec) < W64
      && (cfg.windowSec == 0 || SecToNs(cfg.durationSec) < SecToNs(cfg.windowSec) + delay)
    {
      EndingRun(cfg, start, delay);
    }
  }
}
