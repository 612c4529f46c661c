/** Which intervals the event slots publish, in terms of the callbacks alone: those from a start to the first stop after
    it are what a motion is, and the lemmas here say when every run keeps to them and which of them get published. */
module EventPairing {
  import opened EventSlots
  import D = MotionDetector

  /** A callback and the clock when it was made. */
  datatype Call = Call(edge: D.Edge, now: int)

  function CallOf(step: Step): seq<Call> {
    match step
    case MotionStart(now) => [Call(D.Start, now)]
    case MotionStop(now, _) => [Call(D.Stop, now)]
    case _ => []
  }

  /** The callbacks among some steps, in order. */
  function Made(steps: seq<Step>): seq<Call> {
    if steps == [] then [] else CallOf(steps[0]) + Made(steps[1..])
  }

  lemma {:induction false} MadeConcat(a: seq<Step>, b: seq<Step>)
    ensures Made(a + b) == Made(a) + Made(b)
  {
    hide CallOf;
    if a == [] {
      assert a + b == b;
    } else {
      assert (a + b)[1..] == a[1..] + b;
      MadeConcat(a[1..], b);
      assert CallOf(a[0]) + (Made(a[1..]) + Made(b)) == (CallOf(a[0]) + Made(a[1..])) + Made(b);
    }
  }

  lemma MadeOne(step: Step)
    ensures Made([step]) == CallOf(step)
  {
    assert [step][1..] == [] && CallOf(step) + [] == CallOf(step);
  }

  lemma {:induction false} WorkMakesNoCalls(work: seq<Step>)
    requires OnlyWork(work)
    ensures Made(work) == []
  {
    if work != [] { WorkMakesNoCalls(work[1..]); }
  }

  predicate AllStarts(made: seq<Call>, from: int, to: int)
    requires 0 <= from && to <= |made|
  {
    forall k | from <= k < to :: made[k].edge.Start?
  }

  /** Callback j is the first stop after the start i. */
  predicate Paired(made: seq<Call>, i: nat, j: nat) {
    i < j < |made| && made[i].edge.Start? && made[j].edge.Stop? && AllStarts(made, i + 1, j)
  }

  /** The interval from a start to the first stop after it. */
  ghost predicate Span(made: seq<Call>, from: int, to: int) {
    exists i: nat, j: nat :: Paired(made, i, j) && made[i].now == from && made[j].now == to
  }

  predicate TwoStarts(made: seq<Call>, i: nat) {
    i + 1 < |made| && made[i].edge.Start? && made[i + 1].edge.Start?
  }

  ghost predicate TwoStopsFrom(made: seq<Call>, i: nat) {
    exists j, k :: i <= j < k < |made| && made[j].edge.Stop? && made[k].edge.Stop?
  }

  /** Two starts in a row with two stops somewhere behind them. */
  ghost predicate Slips(made: seq<Call>) {
    exists i: nat :: TwoStarts(made, i) && TwoStopsFrom(made, i + 2)
  }

  ghost predicate NoTwoStarts(made: seq<Call>) {
    forall i: nat :: !TwoStarts(made, i)
  }

  lemma SpanGrows(made: seq<Call>, more: seq<Call>, from: int, to: int)
    requires Span(made, from, to)
    ensures Span(made + more, from, to)
  {
    var i: nat, j: nat :| Paired(made, i, j) && made[i].now == from && made[j].now == to;
    assert Paired(made + more, i, j);
  }

  // ---------------------------------------------------------------------------------------------------------
  // Nothing but spans

  /** A start without a stop after it so far. */
  ghost predicate OpenStart(past: seq<Call>, from: int) {
    exists i: nat :: i < |past| && past[i] == Call(D.Start, from) && AllStarts(past, i, |past|)
  }

  lemma OpenStartStays(past: seq<Call>, from: int, now: int)
    requires OpenStart(past, from)
    ensures OpenStart(past + [Call(D.Start, now)], from)
    ensures past != [] && TwoStarts(past + [Call(D.Start, now)], |past| - 1)
  {
    var i: nat :| i < |past| && past[i] == Call(D.Start, from) && AllStarts(past, i, |past|);
    assert AllStarts(past + [Call(D.Start, now)], i, |past| + 1);
  }

  lemma NewStartIsOpen(past: seq<Call>, now: int)
    ensures OpenStart(past + [Call(D.Start, now)], now)
  {
    var all := past + [Call(D.Start, now)];
    assert all[|past|] == Call(D.Start, now) && AllStarts(all, |past|, |all|);
  }

  lemma StopMakesSpan(past: seq<Call>, from: int, now: int)
    requires OpenStart(past, from)
    ensures Span(past + [Call(D.Stop, now)], from, now)
  {
    var i: nat :| i < |past| && past[i] == Call(D.Start, from) && AllStarts(past, i, |past|);
    assert Paired(past + [Call(D.Stop, now)], i, |past|);
  }

  /** What has been sent, or is about to be, are spans of the callbacks so far. */
  ghost predicate Known(s: State, past: seq<Call>) {
    && (forall i: nat | i < SLOTS && PhaseOf(s.log, i).Closed? ::
          Span(past, PhaseOf(s.log, i).from, PhaseOf(s.log, i).to))
    && (forall e | e in s.log && e.Sent? :: Span(past, e.from, e.to))
  }

  /** Slots wait only for starts still open, and two of them only after two starts in a row. */
  ghost predicate Clean(s: State, past: seq<Call>)
    requires Shaped(s)
  {
    && (forall i | 0 <= i < SLOTS && s.slots[i].running == Waiting :: OpenStart(past, s.slots[i].timeStart))
    && (forall i, j | 0 <= i < j < SLOTS && s.slots[i].running == Waiting && s.slots[j].running == Waiting ::
          |past| >= 2 && TwoStarts(past, |past| - 2))
  }

  lemma InitialClean()
    ensures Known(INITIAL, []) && Clean(INITIAL, [])
  {
  }

  lemma KnownGrows(s: State, past: seq<Call>, more: seq<Call>)
    requires Known(s, past)
    ensures Known(s, past + more)
  {
    hide Span;
    forall from, to | Span(past, from, to) ensures Span(past + more, from, to) { SpanGrows(past, more, from, to); }
  }

  lemma StartKeepsKnown(s: State, now: int, past: seq<Call>)
    requires Invariant(s) && now != 0 && Known(s, past)
    ensures Known(Started(s, now), past + [Call(D.Start, now)])
  {
    hide Span;
    KnownGrows(s, past, [Call(D.Start, now)]);
    var i := Find(s.slots, Available);
    if i >= 0 {
      assert SlotAgrees(s, i);
      HistoryAppend(s.log, Claimed(i, now));
    }
  }

  lemma StartKeepsClean(s: State, now: int, past: seq<Call>)
    requires Shaped(s) && Clean(s, past)
    ensures Clean(Started(s, now), past + [Call(D.Start, now)])
  {
    hide OpenStart;
    var s' := Started(s, now);
    NewStartIsOpen(past, now);
    forall i | 0 <= i < SLOTS && s.slots[i].running == Waiting
      ensures OpenStart(past + [Call(D.Start, now)], s.slots[i].timeStart)
      ensures past != [] && TwoStarts(past + [Call(D.Start, now)], |past| - 1)
    {
      OpenStartStays(past, s.slots[i].timeStart, now);
    }
    assert |past + [Call(D.Start, now)]| - 2 == |past| - 1;
  }

  lemma StopKeepsKnown(s: State, now: int, created: bool, past: seq<Call>)
    requires Invariant(s) && now != 0 && Known(s, past) && Clean(s, past)
    ensures Known(Ended(s, now, created), past + [Call(D.Stop, now)])
  {
    hide Span, OpenStart;
    KnownGrows(s, past, [Call(D.Stop, now)]);
    var i := Find(s.slots, Waiting);
    if i >= 0 {
      assert SlotAgrees(s, i);
      HistoryAppend(s.log, Stopped(i, now, created));
      StopMakesSpan(past, s.slots[i].timeStart, now);
    }
  }

  lemma StopEmptiesWaiting(s: State, now: int, created: bool, past: seq<Call>)
    requires Invariant(s) && Clean(s, past) && (|past| >= 2 ==> !TwoStarts(past, |past| - 2))
    ensures Clean(Ended(s, now, created), past + [Call(D.Stop, now)])
  {
    hide OpenStart;
    var i := Find(s.slots, Waiting);
    if i >= 0 {
      assert SlotAgrees(s, i);
      assert forall j | 0 <= j < SLOTS && j != i :: s.slots[j].running != Waiting;
    }
  }

  lemma WorkerKeepsBoth(s: State, step: Step, past: seq<Call>)
    requires Invariant(s) && WorkerStepEnabled(s, step)
    ensures Known(s, past) ==> Known(Worked(s, step), past)
    ensures Clean(s, past) ==> Clean(Worked(s, step), past)
  {
    hide SlotAgrees, History, WorkersApart, PhaseOf, Span, OpenStart;
    WorkerKeepsOwnSlot(s, step);
  }

  ghost predicate StopAmong(made: seq<Call>) {
    exists k :: 0 <= k < |made| && made[k].edge.Stop?
  }

  lemma StopAmongLater(a: seq<Call>, b: seq<Call>)
    requires StopAmong(b)
    ensures StopAmong(a + b)
  {
    var k :| 0 <= k < |b| && b[k].edge.Stop?;
    assert (a + b)[|a| + k].edge.Stop?;
  }

  /** A stop with another stop to come does not find two starts in a row before it, unless the callbacks slip. */
  lemma SlipsAt(past: seq<Call>, now: int, rest: seq<Call>)
    requires |past| >= 2 && TwoStarts(past, |past| - 2) && StopAmong(rest)
    ensures Slips(past + ([Call(D.Stop, now)] + rest))
  {
    var all := past + ([Call(D.Stop, now)] + rest);
    var k :| 0 <= k < |rest| && rest[k].edge.Stop?;
    assert all[|past|].edge.Stop? && all[|past| + 1 + k].edge.Stop?;
    assert TwoStarts(all, |past| - 2) && TwoStopsFrom(all, |past|);
  }

  /** In every run without two starts in a row that two stops follow, only spans are sent, however late the workers run,
      however many starts find no free slot, and whatever stops come without a start. */
  lemma {:induction false} OnlySpansSent(s: State, steps: seq<Step>, past: seq<Call>)
    requires Invariant(s) && Runs(s, steps) && Known(s, past)
    requires Clean(s, past) || !StopAmong(Made(steps))
    requires !Slips(past + Made(steps))
    ensures Known(Run(s, steps), past + Made(steps))
    decreases |steps|
  {
    assert Shaped(s);
    hide Known, Clean, Slips, StopAmong, TwoStarts, Invariant, Started, Ended, Worked;
    if steps == [] {
      assert past + Made(steps) == past;
    } else {
      var step, rest := steps[0], steps[1..];
      var past1 := past + CallOf(step);
      assert past1 + Made(rest) == past + Made(steps);
      if StopAmong(Made(rest)) { StopAmongLater(CallOf(step), Made(rest)); }
      match step {
        case MotionStart(now) =>
          CallbackKeepsInvariant(s, step);
          StartKeepsKnown(s, now, past);
          if Clean(s, past) { StartKeepsClean(s, now, past); }
        case MotionStop(now, created) =>
          CallbackKeepsInvariant(s, step);
          StopIsAmong(now, Made(rest));
          StopKeepsKnown(s, now, created, past);
          if StopAmong(Made(rest)) {
            if |past| >= 2 && TwoStarts(past, |past| - 2) { SlipsAt(past, now, Made(rest)); }
            StopEmptiesWaiting(s, now, created, past);
          }
        case _ =>
          WorkerKeepsInvariant(s, step);
          WorkerKeepsBoth(s, step, past);
          assert past1 == past;
      }
      OnlySpansSent(After(s, step), rest, past1);
    }
  }

  lemma StopIsAmong(now: int, rest: seq<Call>)
    ensures StopAmong([Call(D.Stop, now)] + rest)
  {
    assert ([Call(D.Stop, now)] + rest)[0].edge.Stop?;
  }

  // ---------------------------------------------------------------------------------------------------------
  // A run that sends something else

  /** The clock is never zero and never shows the same time twice. */
  predicate DistinctTimes(made: seq<Call>) {
    && (forall i | 0 <= i < |made| :: made[i].now != 0)
    && (forall i, j | 0 <= i < j < |made| :: made[i].now != made[j].now)
  }

  function StepOf(call: Call): Step {
    if call.edge.Start? then MotionStart(call.now) else MotionStop(call.now, true)
  }

  /** The callbacks on their own, with no worker running. */
  function Bare(made: seq<Call>): seq<Step> {
    seq(|made|, i requires 0 <= i < |made| => StepOf(made[i]))
  }

  lemma {:induction false} BareMakes(made: seq<Call>)
    ensures Made(Bare(made)) == made
  {
    if made != [] {
      assert Bare(made)[1..] == Bare(made[1..]);
      BareMakes(made[1..]);
    }
  }

  predicate NonZero(made: seq<Call>) {
    forall i | 0 <= i < |made| :: made[i].now != 0
  }

  lemma {:induction false} BareRuns(s: State, made: seq<Call>)
    requires Shaped(s) && NonZero(made)
    ensures Runs(s, Bare(made))
    decreases |made|
  {
    if made != [] {
      assert Bare(made)[1..] == Bare(made[1..]);
      BareRuns(After(s, StepOf(made[0])), made[1..]);
    }
  }

  /** Starts leave slots alone that are in use. */
  lemma {:induction false} StartsLeaveBusy(s: State, made: seq<Call>)
    requires Shaped(s) && NonZero(made) && AllStarts(made, 0, |made|)
    requires s.slots[0].running != Available && s.slots[1].running != Available
    ensures Runs(s, Bare(made))
    ensures Run(s, Bare(made)).slots[0] == s.slots[0] && Run(s, Bare(made)).slots[1] == s.slots[1]
    decreases |made|
  {
    if made != [] {
      assert Bare(made)[1..] == Bare(made[1..]);
      StartsLeaveBusy(After(s, StepOf(made[0])), made[1..]);
    }
  }

  predicate AllFree(s: State) {
    s.slots == [FREE, FREE, FREE]
  }

  function Cycle(from: int, to: int, w: nat): seq<Step> {
    [MotionStart(from), MotionStop(to, true)] + [Publish(w), ClearStart(w), ClearStop(w), Release(w)]
  }

  lemma CycleOpens(s: State, from: int, to: int)
    requires Shaped(s) && AllFree(s) && from != 0 && to != 0
    ensures var s2 := Ended(Started(s, from), to, true);
            s2.slots == [Slot(Running, from, to), FREE, FREE] && s2.workers == s.workers + [Worker(0, Asleep)]
    ensures Runs(s, [MotionStart(from), MotionStop(to, true)])
    ensures Run(s, [MotionStart(from), MotionStop(to, true)]) == Ended(Started(s, from), to, true)
  {
    FindIs(s.slots, Available, 0);
    var s1 := Started(s, from);
    assert s1.slots == [Slot(Waiting, from, 0), FREE, FREE];
    FindIs(s1.slots, Waiting, 0);
    RunTwo(s, MotionStart(from), MotionStop(to, true));
  }

  lemma RunTwo(s: State, a: Step, b: Step)
    requires Shaped(s) && Enabled(s, a) && Enabled(After(s, a), b)
    ensures Runs(s, [a, b]) && Run(s, [a, b]) == After(After(s, a), b)
  {
    hide After, Enabled;
    RunOne(After(s, a), b);
    assert [a, b][1..] == [b];
  }

  lemma CycleCloses(s: State, from: int, to: int, w: nat)
    requires Shaped(s) && s.slots == [Slot(Running, from, to), FREE, FREE]
    requires w < |s.workers| && s.workers[w] == Worker(0, Asleep)
    ensures var four := [Publish(w), ClearStart(w), ClearStop(w), Release(w)];
            Runs(s, four) && AllFree(Run(s, four))
  {
    var s1 := After(s, Publish(w));
    var s2 := After(s1, ClearStart(w));
    var s3 := After(s2, ClearStop(w));
    assert s2.slots == [Slot(Running, 0, to), FREE, FREE];
    assert s3.slots == [Slot(Running, 0, 0), FREE, FREE];
    var s4 := After(s3, Release(w));
    assert AllFree(s4);
    RunTwo(s, Publish(w), ClearStart(w));
    RunTwo(s2, ClearStop(w), Release(w));
    RunConcat(s, [Publish(w), ClearStart(w)], [ClearStop(w), Release(w)]);
    assert [Publish(w), ClearStart(w)] + [ClearStop(w), Release(w)]
        == [Publish(w), ClearStart(w), ClearStop(w), Release(w)];
  }

  /** One motion with its worker run to the end leaves the slots free. */
  lemma CycleFrees(s: State, from: int, to: int)
    requires Shaped(s) && AllFree(s) && from != 0 && to != 0
    ensures Runs(s, Cycle(from, to, |s.workers|)) && AllFree(Run(s, Cycle(from, to, |s.workers|)))
    ensures Made(Cycle(from, to, |s.workers|)) == [Call(D.Start, from), Call(D.Stop, to)]
  {
    hide Started, Ended, Worked;
    var w := |s.workers|;
    var two, four := [MotionStart(from), MotionStop(to, true)], [Publish(w), ClearStart(w), ClearStop(w), Release(w)];
    CycleOpens(s, from, to);
    CycleCloses(Run(s, two), from, to, w);
    RunConcat(s, two, four);
    MadeConcat(two, four);
    WorkMakesNoCalls(four);
    assert two == [two[0]] + [two[1]];
    MadeConcat([two[0]], [two[1]]);
    MadeOne(two[0]);
    MadeOne(two[1]);
  }

  predicate EndsInStop(made: seq<Call>) {
    made != [] ==> made[|made| - 1].edge.Stop?
  }

  /** So do any callbacks that end in a stop and have no two starts in a row. */
  lemma {:induction false} HandleAll(s: State, made: seq<Call>) returns (steps: seq<Step>)
    requires Shaped(s) && AllFree(s) && NonZero(made)
    requires EndsInStop(made) && NoTwoStarts(made)
    ensures Runs(s, steps) && AllFree(Run(s, steps)) && Made(steps) == made
    decreases |made|
  {
    hide Cycle;
    if made == [] {
      steps := [];
    } else {
      var n: nat, first: seq<Step>;
      if made[0].edge.Stop? {
        n, first := 1, [MotionStop(made[0].now, true)];
        RunOne(s, first[0]);
        MadeOne(first[0]);
      } else {
        assert !TwoStarts(made, 0);
        n, first := 2, Cycle(made[0].now, made[1].now, |s.workers|);
        CycleFrees(s, made[0].now, made[1].now);
      }
      assert made == made[..n] + made[n..] && Made(first) == made[..n];
      forall i: nat ensures !TwoStarts(made[n..], i) {
        assert !TwoStarts(made, n + i);
      }
      var rest := HandleAll(Run(s, first), made[n..]);
      steps := first + rest;
      RunConcat(s, first, rest);
      MadeConcat(first, rest);
    }
  }

  /** The first stop from a position on, or the end. */
  function NextStop(made: seq<Call>, from: nat): (j: nat)
    requires from <= |made|
    ensures from <= j <= |made| && AllStarts(made, from, j)
    ensures j < |made| ==> made[j].edge.Stop?
    decreases |made| - from
  {
    if from == |made| || made[from].edge.Stop? then from else NextStop(made, from + 1)
  }

  /** With two slots waiting, a stop hands on the first; with one running and the second waiting, the second. */
  lemma StopsInTurn(s: State, now: int)
    requires Shaped(s) && s.slots[1].running == Waiting && s.slots[1].timeStart != 0
    requires s.slots[0].running == Waiting ==> s.slots[0].timeStart != 0
    requires s.slots[0].running != Available
    ensures var s' := Ended(s, now, true);
            if s.slots[0].running == Waiting then s'.slots[0].running == Running && s'.slots[1] == s.slots[1]
            else s'.slots[1] == Slot(Running, s.slots[1].timeStart, now)
                 && s'.workers == s.workers + [Worker(1, Asleep)]
  {
    FindIs(s.slots, Waiting, if s.slots[0].running == Waiting then 0 else 1);
  }

  /** Callbacks that slip: two starts, more starts, a stop, starts, and a stop. */
  predicate SlippingPart(made: seq<Call>, j: nat) {
    && NonZero(made) && 2 <= j < |made| - 1 && AllStarts(made, 0, j) && made[j].edge.Stop?
    && AllStarts(made, j + 1, |made| - 1) && made[|made| - 1].edge.Stop?
  }

  lemma TwoStartsWait(s: State, a: Call, b: Call)
    requires Shaped(s) && AllFree(s) && a.edge.Start? && b.edge.Start? && NonZero([a, b])
    ensures Runs(s, Bare([a, b]))
    ensures Run(s, Bare([a, b])).slots == [Slot(Waiting, a.now, 0), Slot(Waiting, b.now, 0), FREE]
  {
    assert [a, b][0] == a && [a, b][1] == b;
    FindIs(s.slots, Available, 0);
    var s1 := Started(s, a.now);
    FindIs(s1.slots, Available, 1);
    RunTwo(s, StepOf(a), StepOf(b));
    assert Bare([a, b]) == [StepOf(a), StepOf(b)];
  }

  lemma BareConcat(a: seq<Call>, b: seq<Call>)
    ensures Bare(a + b) == Bare(a) + Bare(b)
  {
  }

  /** Up to the first stop. */
  lemma SlipBegins(s: State, made: seq<Call>, j: nat)
    requires Shaped(s) && AllFree(s) && SlippingPart(made, j)
    ensures Runs(s, Bare(made[..j + 1]))
    ensures var s' := Run(s, Bare(made[..j + 1]));
            s'.slots[0].running == Running && s'.slots[1] == Slot(Waiting, made[1].now, 0)
  {
    hide Bare, Started, Ended;
    var two, starts, stop := made[..2], made[2..j], made[j];
    assert made[..j + 1] == two + starts + [stop] && two == [made[0], made[1]];
    BareConcat(two + starts, [stop]);
    BareConcat(two, starts);
    TwoStartsWait(s, made[0], made[1]);
    var s2 := Run(s, Bare(two));
    StartsLeaveBusy(s2, starts);
    RunConcat(s, Bare(two), Bare(starts));
    var s3 := Run(s2, Bare(starts));
    StopsInTurn(s3, stop.now);
    BareOne(stop);
    RunOne(s3, StepOf(stop));
    RunConcat(s, Bare(two) + Bare(starts), Bare([stop]));
  }

  lemma BareOne(call: Call)
    ensures Bare([call]) == [StepOf(call)]
  {
  }

  /** From there to the message of the worker that the second stop gets. */
  lemma SlipEnds(s: State, made: seq<Call>, from: int, w: nat) returns (steps: seq<Step>)
    requires Shaped(s) && s.slots[0].running == Running && s.slots[1] == Slot(Waiting, from, 0) && from != 0
    requires NonZero(made) && made != [] && AllStarts(made, 0, |made| - 1) && made[|made| - 1].edge.Stop?
    ensures Runs(s, steps) && Made(steps) == made
    ensures Sent(1, from, made[|made| - 1].now) in Run(s, steps).log
  {
    hide Bare, Started, Ended, FindFrom;
    var starts, stop := made[..|made| - 1], made[|made| - 1];
    assert made == starts + [stop];
    StartsLeaveBusy(s, starts);
    var s1 := Run(s, Bare(starts));
    StopsInTurn(s1, stop.now);
    BareOne(stop);
    var s2 := After(s1, StepOf(stop));
    var last := Publish(|s1.workers|);
    RunTwo(s1, StepOf(stop), last);
    var s3 := After(s2, last);
    assert s3.log[|s2.log|] == Sent(1, from, stop.now);
    steps := Bare(starts) + [StepOf(stop), last];
    RunConcat(s, Bare(starts), [StepOf(stop), last]);
    BareMakes(starts);
    MadeConcat(Bare(starts), [StepOf(stop), last]);
    assert [StepOf(stop), last] == [StepOf(stop)] + [last];
    MadeConcat([StepOf(stop)], [last]);
    MadeOne(StepOf(stop));
    MadeOne(last);
  }

  /** The first two starts in a row, from a position on. */
  lemma FirstTwoStarts(made: seq<Call>, i: nat, from: nat) returns (i0: nat)
    requires from <= i && TwoStarts(made, i)
    ensures from <= i0 <= i && TwoStarts(made, i0)
    ensures forall k: nat | from <= k < i0 :: !TwoStarts(made, k)
    decreases i - from
  {
    if TwoStarts(made, from) { i0 := from; } else { i0 := FirstTwoStarts(made, i, from + 1); }
  }

  /** Callbacks cut at the first two starts in a row, i, the first stop after them and the next one. */
  predicate CutAt(made: seq<Call>, i: nat, j: nat, k: nat) {
    && i + 2 <= j < k < |made|
    && AllStarts(made, i, j) && made[j].edge.Stop? && AllStarts(made, j + 1, k) && made[k].edge.Stop?
    && (i > 0 ==> made[i - 1].edge.Stop?)
  }

  lemma CutAtSlip(made: seq<Call>) returns (i: nat, j: nat, k: nat)
    requires Slips(made)
    ensures CutAt(made, i, j, k) && forall h: nat | h < i :: !TwoStarts(made, h)
  {
    var i1: nat :| TwoStarts(made, i1) && TwoStopsFrom(made, i1 + 2);
    var j1, k1 :| i1 + 2 <= j1 < k1 < |made| && made[j1].edge.Stop? && made[k1].edge.Stop?;
    i := FirstTwoStarts(made, i1, 0);
    if i > 0 { assert !TwoStarts(made, i - 1); }
    hide NextStop, TwoStopsFrom;
    j := NextStop(made, i + 2);
    assert j <= j1;
    k := NextStop(made, j + 1);
    assert k <= k1;
  }

  lemma Chain(s: State, a: seq<Step>, b: seq<Step>)
    requires Shaped(s) && Runs(s, a) && Runs(Run(s, a), b)
    ensures Runs(s, a + b) && Run(s, a + b) == Run(Run(s, a), b) && Made(a + b) == Made(a) + Made(b)
  {
    RunConcat(s, a, b);
    MadeConcat(a, b);
  }

  /** From free slots, the callbacks from the two starts to the second stop can send the interval from the second start
      to that stop, whatever callbacks come after. */
  lemma PartSends(s: State, part: seq<Call>, j: nat, after: seq<Call>) returns (steps: seq<Step>)
    requires Shaped(s) && AllFree(s) && SlippingPart(part, j) && NonZero(after)
    ensures Runs(s, steps) && Made(steps) == part + after
    ensures Sent(1, part[1].now, part[|part| - 1].now) in Run(s, steps).log
  {
    hide Bare, Run, Runs, Made;
    var upTo, rest := part[..j + 1], part[j + 1..];
    SlipBegins(s, part, j);
    BareMakes(upTo);
    var s1 := Run(s, Bare(upTo));
    var more := SlipEnds(s1, rest, part[1].now, 0);
    Chain(s, Bare(upTo), more);
    var s2 := Run(s1, more);
    BareRuns(s2, after);
    BareMakes(after);
    LogGrows(s2, Bare(after));
    steps := Bare(upTo) + more + Bare(after);
    Chain(s, Bare(upTo) + more, Bare(after));
    assert part == upTo + rest;
  }

  lemma PartSlips(made: seq<Call>, i: nat, j: nat, k: nat)
    requires NonZero(made) && CutAt(made, i, j, k)
    ensures SlippingPart(made[i..k + 1], j - i)
  {
    var part := made[i..k + 1];
    assert part[j - i] == made[j] && part[|part| - 1] == made[k];
  }

  lemma BeforeSlip(made: seq<Call>, i: nat, j: nat, k: nat)
    requires CutAt(made, i, j, k) && forall h: nat | h < i :: !TwoStarts(made, h)
    ensures NoTwoStarts(made[..i]) && EndsInStop(made[..i])
  {
    forall h: nat ensures !TwoStarts(made[..i], h) {
      if h < i { assert !TwoStarts(made, h); }
    }
  }

  /** So callbacks that slip can send it. */
  lemma SlipSends(before: seq<Call>, part: seq<Call>, j: nat, after: seq<Call>) returns (steps: seq<Step>)
    requires NonZero(before) && NonZero(after) && NoTwoStarts(before) && EndsInStop(before) && SlippingPart(part, j)
    ensures Runs(INITIAL, steps) && Made(steps) == before + (part + after)
    ensures Sent(1, part[1].now, part[|part| - 1].now) in Run(INITIAL, steps).log
  {
    FreeAtFirst();
    hide *;
    var first := HandleAll(INITIAL, before);
    var second := PartSends(Run(INITIAL, first), part, j, after);
    Chain(INITIAL, first, second);
    steps := first + second;
  }

  lemma FreeAtFirst()
    ensures Shaped(INITIAL) && AllFree(INITIAL)
  {
  }

  lemma NotASpan(made: seq<Call>, i: nat, j: nat, k: nat)
    requires DistinctTimes(made) && i < j < k < |made| && made[j].edge.Stop?
    ensures !Span(made, made[i].now, made[k].now)
  {
    forall i1: nat, k1: nat | Paired(made, i1, k1)
      ensures made[i1].now != made[i].now || made[k1].now != made[k].now
    {
    }
  }

  /** Whatever the workers do, only spans of these callbacks are sent. */
  ghost predicate SendsOnlySpans(made: seq<Call>) {
    forall steps, e | Runs(INITIAL, steps) && Made(steps) == made && e in Run(INITIAL, steps).log && e.Sent? ::
      Span(made, e.from, e.to)
  }

  lemma SpansUnlessSlipping(made: seq<Call>)
    requires !Slips(made)
    ensures SendsOnlySpans(made)
  {
    hide Span, Slips;
    assert [] + made == made;
    InitialInvariant();
    InitialClean();
    forall steps, e | Runs(INITIAL, steps) && Made(steps) == made && e in Run(INITIAL, steps).log && e.Sent?
      ensures Span(made, e.from, e.to)
    {
      OnlySpansSent(INITIAL, steps, []);
    }
  }

  lemma ThreeParts(made: seq<Call>, i: nat, k: nat)
    requires i + 1 < k < |made|
    ensures made == made[..i] + (made[i..k + 1] + made[k + 1..])
    ensures made[i..k + 1][1] == made[i + 1] && made[i..k + 1][|made[i..k + 1]| - 1] == made[k]
    ensures NonZero(made) ==> NonZero(made[..i]) && NonZero(made[k + 1..])
  {
  }

  lemma Pieces(made: seq<Call>, i: nat, j: nat, k: nat) returns (before: seq<Call>, part: seq<Call>, after: seq<Call>)
    requires i + 2 <= j < k < |made|
    requires NonZero(made) && CutAt(made, i, j, k) && forall h: nat | h < i :: !TwoStarts(made, h)
    ensures made == before + (part + after) && NonZero(before) && NonZero(after)
    ensures NoTwoStarts(before) && EndsInStop(before) && SlippingPart(part, j - i)
    ensures part[1] == made[i + 1] && part[|part| - 1] == made[k]
  {
    before, part, after := made[..i], made[i..k + 1], made[k + 1..];
    assert NoTwoStarts(before) && EndsInStop(before) by { BeforeSlip(made, i, j, k); }
    assert SlippingPart(part, j - i) by { PartSlips(made, i, j, k); }
    hide *;
    ThreeParts(made, i, k);
  }

  lemma SlippingRun(made: seq<Call>) returns (steps: seq<Step>, e: Entry)
    requires DistinctTimes(made) && Slips(made)
    ensures Runs(INITIAL, steps) && Made(steps) == made
    ensures e in Run(INITIAL, steps).log && e.Sent? && !Span(made, e.from, e.to)
  {
    var i, j, k := CutAtSlip(made);
    NotASpan(made, i + 1, j, k);
    var before, part, after := Pieces(made, i, j, k);
    e := Sent(1, made[i + 1].now, made[k].now);
    hide *;
    steps := SlipSends(before, part, j - i, after);
  }

  /** The exact condition: callbacks at distinct times send nothing but spans, in whatever interleaving with the workers,
      exactly when no two starts in a row have two stops behind them. */
  lemma SpansExactly(made: seq<Call>)
    requires DistinctTimes(made)
    ensures SendsOnlySpans(made) <==> !Slips(made)
  {
    if Slips(made) {
      var steps, e := SlippingRun(made);
      assert e in Run(INITIAL, steps).log && !Span(made, e.from, e.to);
    } else {
      SpansUnlessSlipping(made);
    }
  }

  // ---------------------------------------------------------------------------------------------------------
  // Which spans are sent

  /** The interval has been sent, or a worker still asleep is going to send it. */
  ghost predicate Reported(s: State, from: int, to: int) {
    exists slot: nat :: slot < SLOTS && (Sent(slot, from, to) in s.log || PhaseOf(s.log, slot) == Closed(from, to))
  }

  /** What the history must hold for an interval to be closed. */
  lemma {:induction false} ClosedHasEntries(log: seq<Entry>, slot: nat)
    ensures PhaseOf(log, slot).InUse? ==> Claimed(slot, PhaseOf(log, slot).from) in log
    ensures PhaseOf(log, slot).Closed? ==>
              Claimed(slot, PhaseOf(log, slot).from) in log && Stopped(slot, PhaseOf(log, slot).to, true) in log
  {
    if log != [] { ClosedHasEntries(log[..|log| - 1], slot); }
  }

  lemma ReportedHasEntries(s: State, from: int, to: int) returns (slot: nat)
    requires History(s.log) && Reported(s, from, to)
    ensures Claimed(slot, from) in s.log && Stopped(slot, to, true) in s.log
  {
    slot :| slot < SLOTS && (Sent(slot, from, to) in s.log || PhaseOf(s.log, slot) == Closed(from, to));
    if PhaseOf(s.log, slot) == Closed(from, to) {
      ClosedHasEntries(s.log, slot);
    } else {
      var p :| 0 <= p < |s.log| && s.log[p] == Sent(slot, from, to);
      assert Fits(s.log[p], PhaseOf(s.log[..p], slot));
      ClosedHasEntries(s.log[..p], slot);
    }
  }

  /** Claims and stops in the history come from callbacks. */
  lemma {:induction false} EntryHasCall(s: State, steps: seq<Step>, e: Entry)
    requires Shaped(s) && Runs(s, steps) && e in Run(s, steps).log && e !in s.log
    ensures e.Claimed? ==> Call(D.Start, e.time) in Made(steps)
    ensures e.Stopped? ==> Call(D.Stop, e.time) in Made(steps)
    decreases |steps|
  {
    var s1 := After(s, steps[0]);
    assert e in s1.log ==> (e.Claimed? ==> CallOf(steps[0]) == [Call(D.Start, e.time)])
                           && (e.Stopped? ==> CallOf(steps[0]) == [Call(D.Stop, e.time)]);
    if e !in s1.log { EntryHasCall(s1, steps[1..], e); }
  }

  lemma ClosedIsReported(s: State, steps: seq<Step>, p: nat)
    requires Invariant(s) && Runs(s, steps) && p < |s.log| && s.log[p].Stopped? && s.log[p].created
    ensures PhaseOf(s.log[..p], s.log[p].slot).InUse?
    ensures Reported(Run(s, steps), PhaseOf(s.log[..p], s.log[p].slot).from, s.log[p].time)
  {
    RunKeepsInvariant(s, steps);
    var log := Run(s, steps).log;
    LogGrows(s, steps);
    assert log[p] == s.log[p] && log[..p] == s.log[..p];
    NothingClosedIsLost(log, p);
  }

  predicate NothingWaits(s: State) {
    forall i | 0 <= i < |s.slots| :: s.slots[i].running != Waiting
  }

  /** A start that finds a slot, and the stop after it that finds a worker, get their interval reported. */
  lemma AcceptedIsReported(s: State, from: int, work: seq<Step>, to: int, later: seq<Step>)
    requires Invariant(s) && NothingWaits(s) && from != 0 && to != 0 && OnlyWork(work)
    requires Find(s.slots, Available) >= 0 && Runs(Started(s, from), work)
    requires Runs(Ended(Run(Started(s, from), work), to, true), later)
    ensures Reported(Run(Ended(Run(Started(s, from), work), to, true), later), from, to)
  {
    hide History, WorkersApart, Live;
    var i := Find(s.slots, Available);
    var s0 := Started(s, from);
    CallbackKeepsInvariant(s, MotionStart(from));
    WorkLeavesWaiting(s0, work);
    var s1 := Run(s0, work);
    assert s1.slots[i].running == Waiting && s1.slots[i].timeStart == from && SlotAgrees(s1, i);
    FindIs(s1.slots, Waiting, i);
    CallbackKeepsInvariant(s1, MotionStop(to, true));
    var s2 := Ended(s1, to, true);
    assert s2.log == s1.log + [Stopped(i, to, true)] && s2.log[..|s1.log|] == s1.log;
    ClosedIsReported(s2, later, |s1.log|);
  }

  /** A run with one start and the stop after it singled out. */
  function Steps(before: seq<Step>, from: int, work: seq<Step>, to: int, created: bool, later: seq<Step>): seq<Step> {
    before + [MotionStart(from)] + work + [MotionStop(to, created)] + later
  }

  /** Only steps of workers lie between the two, and no other start or stop comes at these times. */
  ghost predicate OneMotion(before: seq<Step>, from: int, work: seq<Step>, to: int, created: bool, later: seq<Step>) {
    && Runs(INITIAL, before) && Runs(INITIAL, Steps(before, from, work, to, created, later))
    && OnlyWork(work)
    && Call(D.Start, from) !in Made(before) + Made(later) && Call(D.Stop, to) !in Made(before) + Made(later)
  }

  lemma RunsInParts(before: seq<Step>, from: int, work: seq<Step>, to: int, created: bool, later: seq<Step>)
    requires Runs(INITIAL, Steps(before, from, work, to, created, later))
    ensures Runs(INITIAL, before) && from != 0 && to != 0
    ensures var s0 := Run(INITIAL, before);
            && Runs(Started(s0, from), work)
            && var s2 := Ended(Run(Started(s0, from), work), to, created);
            && Runs(s2, later)
            && Run(INITIAL, Steps(before, from, work, to, created, later)) == Run(s2, later)
  {
    hide Started, Ended;
    var start, stop := [MotionStart(from)], [MotionStop(to, created)];
    RunConcat(INITIAL, before + start + work + stop, later);
    RunConcat(INITIAL, before + start + work, stop);
    RunConcat(INITIAL, before + start, work);
    RunConcat(INITIAL, before, start);
    var s0 := Run(INITIAL, before);
    assert Enabled(s0, start[0]);
    RunOne(s0, start[0]);
    var s1 := Run(Started(s0, from), work);
    assert Enabled(s1, stop[0]);
    RunOne(s1, stop[0]);
  }

  /** Without a slot for the start, the history gets no claim at that time, and without a worker no stop that has one. */
  lemma RejectedLeavesNoEntry(before: seq<Step>, from: int, work: seq<Step>, to: int, created: bool, later: seq<Step>,
                              slot: nat)
    requires OneMotion(before, from, work, to, created, later)
    requires Find(Run(INITIAL, before).slots, Available) < 0 || !created
    ensures var s := Run(INITIAL, Steps(before, from, work, to, created, later));
            Claimed(slot, from) !in s.log || Stopped(slot, to, true) !in s.log
  {
    RunsInParts(before, from, work, to, created, later);
    var s0 := Run(INITIAL, before);
    var s1 := Run(Started(s0, from), work);
    var s2 := Ended(s1, to, created);
    WorkMakesNoCalls(work);
    var e := if Find(s0.slots, Available) < 0 then Claimed(slot, from) else Stopped(slot, to, true);
    hide Run, Runs, Made, FindFrom;
    if e in s0.log { EntryHasCall(INITIAL, before, e); }
    if e in s1.log && e !in Started(s0, from).log { EntryHasCall(Started(s0, from), work, e); }
    if e in Run(s2, later).log && e !in s2.log { EntryHasCall(s2, later, e); }
  }

  /** Which intervals are reported: that of a start and the stop after it, no slot having waited before, exactly when the
      start finds a free slot and the stop a worker. */
  lemma ReportedExactly(before: seq<Step>, from: int, work: seq<Step>, to: int, created: bool, later: seq<Step>)
    requires OneMotion(before, from, work, to, created, later) && NothingWaits(Run(INITIAL, before))
    ensures Reported(Run(INITIAL, Steps(before, from, work, to, created, later)), from, to)
       <==> Find(Run(INITIAL, before).slots, Available) >= 0 && created
  {
    RunsInParts(before, from, work, to, created, later);
    var s0, s := Run(INITIAL, before), Run(INITIAL, Steps(before, from, work, to, created, later));
    InitialInvariant();
    RunKeepsInvariant(INITIAL, before);
    RunKeepsInvariant(INITIAL, Steps(before, from, work, to, created, later));
    hide Made, Find, NothingWaits, Reported, Invariant, Steps;
    if Find(s0.slots, Available) >= 0 && created {
      AcceptedIsReported(s0, from, work, to, later);
    } else if Reported(s, from, to) {
      HistoryOf(s);
      var slot := ReportedHasEntries(s, from, to);
      RejectedLeavesNoEntry(before, from, work, to, created, later, slot);
    }
  }

  lemma HistoryOf(s: State)
    requires Invariant(s)
    ensures History(s.log)
  {
  }

  /** Nothing waits after callbacks without two starts in a row that do not end in a start. */
  lemma NothingWaitsAfter(steps: seq<Step>)
    requires Runs(INITIAL, steps) && NoTwoStarts(Made(steps)) && EndsInStop(Made(steps))
    ensures NothingWaits(Run(INITIAL, steps))
  {
    InitialInvariant();
    InitialClean();
    assert [] + Made(steps) == Made(steps);
    StaysClean(INITIAL, steps, []);
    var s := Run(INITIAL, steps);
    forall i | 0 <= i < |s.slots| ensures s.slots[i].running != Waiting {
      if s.slots[i].running == Waiting { OpenStartStays(Made(steps), s.slots[i].timeStart, 0); }
    }
  }

  lemma BeforeAStart(before: seq<Call>, now: int, made: seq<Call>)
    requires before + [Call(D.Start, now)] <= made && NoTwoStarts(made)
    ensures NoTwoStarts(before) && EndsInStop(before)
  {
    assert made[|before|] == Call(D.Start, now);
    forall i: nat ensures !TwoStarts(before, i) {
      assert !TwoStarts(made, i);
    }
    if before != [] { assert !TwoStarts(made, |before| - 1); }
  }

  lemma {:induction false} StaysClean(s: State, steps: seq<Step>, past: seq<Call>)
    requires Invariant(s) && Runs(s, steps) && Clean(s, past)
    requires NoTwoStarts(past + Made(steps))
    ensures Clean(Run(s, steps), past + Made(steps))
    decreases |steps|
  {
    assert Shaped(s);
    if steps == [] {
      assert past + Made(steps) == past;
    } else {
      var step, rest := steps[0], steps[1..];
      var past1 := past + CallOf(step);
      assert past1 + Made(rest) == past + Made(steps);
      assert forall i: nat | TwoStarts(past, i) :: TwoStarts(past + Made(steps), i);
      hide Clean, TwoStarts, Invariant, Started, Ended, Worked;
      match step {
        case MotionStart(now) =>
          CallbackKeepsInvariant(s, step);
          StartKeepsClean(s, now, past);
        case MotionStop(now, created) =>
          CallbackKeepsInvariant(s, step);
          StopEmptiesWaiting(s, now, created, past);
        case _ =>
          WorkerKeepsInvariant(s, step);
          WorkerKeepsBoth(s, step, past);
          assert past1 == past;
      }
      StaysClean(After(s, step), rest, past1);
    }
  }
}
