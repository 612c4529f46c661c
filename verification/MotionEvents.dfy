/** From the marker file to the published intervals: the motion callbacks that the inotify thread makes are the ones
    that claim and close event slots, so an interval that a worker publishes can be traced to the marker's own changes. */
module MotionEvents {
  import opened MotionDetector
  import E = EventSlots
  import P = EventPairing
  import M = MotionMarker

  /** The steps' callbacks are the ones the inotify thread has made, in order. */
  ghost predicate Fed(calls: seq<Edge>, made: seq<P.Call>) {
    |made| == |calls| && forall i | 0 <= i < |calls| :: made[i].edge == calls[i]
  }

  // ---------------------------------------------------------------------------------------------------------
  // What the marker's history makes of the callbacks

  /** The marker as the daemon is to learn of it: present at the stat or not, and every change since the watch. */
  function History(s: M.System): seq<Edge> {
    M.Recovered(s) + s.changes
  }

  /** The marker appeared between the watch and the stat, so that both the stat and an event report it. */
  predicate AppearedInBetween(s: M.System) {
    s.atStat && !s.atWatch
  }

  ghost predicate TwoStartsInARow(calls: seq<Edge>) {
    exists i :: 0 <= i < |calls| - 1 && calls[i].Start? && calls[i + 1].Start?
  }

  /** The daemon is called for two starts in a row exactly when the marker appeared between watch and stat and an event
      has been delivered since. */
  lemma TwoStartsExactly(s: M.System)
    requires M.NothingLost(s) && s.phase.Serving?
    ensures TwoStartsInARow(s.calls) <==> AppearedInBetween(s) && |s.calls| > 1
  {
    hide M.Callbacks, M.Fold, M.NothingLost;
    var r := |M.Recovered(s)|;
    forall i | 0 < i < |s.calls|
      ensures s.calls[i].Start? && s.calls[i - 1].Start? ==> i == r && s.atStat != s.atWatch
    {
      M.CallbackIsNews(s, i);
      LastOfFold(s.calls, i);
    }
    if AppearedInBetween(s) && |s.calls| > 1 {
      M.CallbackIsNews(s, 0);
      M.CallbackIsNews(s, 1);
      NoneFolded(s.calls);
      LastOfFold(s.calls, 1);
      FirstIsRecovered(s);
    }
  }

  lemma FirstIsRecovered(s: M.System)
    requires M.NothingLost(s) && s.phase.Serving? && s.atStat
    ensures |M.Recovered(s)| == 1 && s.calls != [] && s.calls[0] == Start
  {
    hide M.Callbacks, M.Fold;
    assert s.calls[0] == (s.calls + M.Callbacks(s.queue))[0];
  }

  lemma LastOfFold(calls: seq<Edge>, i: nat)
    requires 0 < i <= |calls|
    ensures M.Fold(false, calls[..i]) == calls[i - 1].Start?
  {
    assert calls[..i][i - 1] == calls[i - 1];
  }

  lemma NoneFolded(calls: seq<Edge>)
    ensures M.Fold(false, calls[..0]) == false
  {
  }

  /** Entry j of the marker's history is the removal that comes next after entry i, an appearance or the presence at the
      stat. */
  predicate NextRemoval(history: seq<Edge>, i: nat, j: nat) {
    i < j < |history| && history[i] == Start && history[j] == Stop && forall k | i < k < j :: history[k] == Start
  }

  /** The interval from one appearance of the marker, or its presence at the stat, to the removal that came next, by the
      clock of the callbacks that reported the two. */
  ghost predicate MarkerInterval(s: M.System, made: seq<P.Call>, from: int, to: int) {
    exists i: nat, j: nat ::
      NextRemoval(History(s), i, j) && j < |made| && made[i] == P.Call(Start, from) && made[j] == P.Call(Stop, to)
  }

  lemma CallsAreHistory(s: M.System)
    requires M.NothingLost(s) && s.phase.Serving?
    ensures s.calls <= History(s)
  {
  }

  /** Such intervals are the spans of the callbacks. */
  lemma SpansAreMarkerIntervals(s: M.System, made: seq<P.Call>, from: int, to: int)
    requires s.calls <= History(s) && Fed(s.calls, made)
    ensures P.Span(made, from, to) <==> MarkerInterval(s, made, from, to)
  {
    assert forall i | 0 <= i < |made| :: History(s)[i] == made[i].edge;
    if P.Span(made, from, to) {
      var i: nat, j: nat :| P.Paired(made, i, j) && made[i].now == from && made[j].now == to;
      assert NextRemoval(History(s), i, j);
    }
    if MarkerInterval(s, made, from, to) {
      var i: nat, j: nat :|
        NextRemoval(History(s), i, j) && j < |made| && made[i] == P.Call(Start, from) && made[j] == P.Call(Stop, to);
      assert P.Paired(made, i, j);
    }
  }

  /** After the first two, callbacks alternate. */
  lemma CallsAlternate(s: M.System, i: nat)
    requires M.NothingLost(s) && s.phase.Serving? && 2 <= i < |s.calls|
    ensures s.calls[i] != s.calls[i - 1]
  {
    hide M.Callbacks, M.Fold, M.NothingLost;
    M.CallbackIsNews(s, i);
    LastOfFold(s.calls, i);
  }

  lemma FirstTwoStarts(s: M.System)
    requires M.NothingLost(s) && s.phase.Serving? && |s.calls| > 1
    ensures AppearedInBetween(s) <==> s.calls[0].Start? && s.calls[1].Start?
  {
    TwoStartsExactly(s);
    hide M.NothingLost, AppearedInBetween;
    forall i | 1 <= i < |s.calls| - 1 ensures !(s.calls[i].Start? && s.calls[i + 1].Start?) {
      CallsAlternate(s, i + 1);
    }
  }

  /** The callbacks slip exactly when the marker appeared between watch and stat and five of them have been made: the
      two reports of that start, a stop, a start and a stop. */
  lemma CallsSlipExactly(s: M.System, made: seq<P.Call>)
    requires M.NothingLost(s) && s.phase.Serving? && Fed(s.calls, made)
    ensures P.Slips(made) <==> AppearedInBetween(s) && |s.calls| >= 5
  {
    if |s.calls| > 1 { FirstTwoStarts(s); }
    forall i | 2 <= i < |s.calls| ensures s.calls[i] != s.calls[i - 1] {
      CallsAlternate(s, i);
    }
    hide M.NothingLost, AppearedInBetween;
    if AppearedInBetween(s) && |s.calls| >= 5 {
      assert s.calls[2].Stop? && s.calls[3].Start? && s.calls[4].Stop?;
      assert P.TwoStarts(made, 0) && made[2].edge.Stop? && made[4].edge.Stop?;
      assert P.TwoStopsFrom(made, 2);
    }
    if P.Slips(made) {
      var i: nat :| P.TwoStarts(made, i) && P.TwoStopsFrom(made, i + 2);
      var j, k :| i + 2 <= j < k < |made| && made[j].edge.Stop? && made[k].edge.Stop?;
      assert i == 0 && s.calls[k] != s.calls[k - 1] && k >= 4;
    }
  }

  /** Whatever the clock and the workers do with the callbacks made so far, every interval published is the marker's. */
  ghost predicate PublishesMarkerIntervals(s: M.System) {
    forall steps, e | E.Runs(E.INITIAL, steps) && Fed(s.calls, P.Made(steps))
                      && e in E.Run(E.INITIAL, steps).log && e.Sent? ::
      MarkerInterval(s, P.Made(steps), e.from, e.to)
  }

  /** The callbacks, a second apart. */
  function Clocked(calls: seq<Edge>): (made: seq<P.Call>)
    ensures P.DistinctTimes(made) && Fed(calls, made)
  {
    seq(|calls|, i requires 0 <= i < |calls| => P.Call(calls[i], 10 + i))
  }

  /** From end to end, whatever the interleaving of detector, kernel and daemon: every interval that callbacks and
      workers can publish runs from one appearance of the marker to the removal that came next, exactly unless the
      marker appeared between watch and stat and five callbacks have been made. */
  lemma PublishedIntervalsAreTheMarkers(leftBehind: bool, markerSteps: seq<M.Step>)
    requires M.Runs(M.Booted(leftBehind), markerSteps)
    requires M.Run(M.Booted(leftBehind), markerSteps).phase.Serving?
    ensures var s := M.Run(M.Booted(leftBehind), markerSteps);
            PublishesMarkerIntervals(s) <==> !(AppearedInBetween(s) && |s.calls| >= 5)
  {
    var s := M.Run(M.Booted(leftBehind), markerSteps);
    BootedLosesNothing(leftBehind);
    M.RunLosesNothing(M.Booted(leftBehind), markerSteps);
    CallsAreHistory(s);
    hide M.Run, M.Runs, M.NothingLost, AppearedInBetween, History;
    if AppearedInBetween(s) && |s.calls| >= 5 {
      CallsSlipExactly(s, Clocked(s.calls));
      SlippingPublishes(s);
    } else {
      HarmlessPublishes(s);
    }
  }

  lemma SlippingPublishes(s: M.System)
    requires s.calls <= History(s) && P.Slips(Clocked(s.calls))
    ensures !PublishesMarkerIntervals(s)
  {
    hide Clocked, MarkerInterval, P.Slips, P.Span, E.Run, E.Runs, P.Made, History, P.DistinctTimes;
    var steps, e := P.SlippingRun(Clocked(s.calls));
    SpansAreMarkerIntervals(s, P.Made(steps), e.from, e.to);
  }

  lemma HarmlessPublishes(s: M.System)
    requires M.NothingLost(s) && s.phase.Serving? && s.calls <= History(s)
    requires !(AppearedInBetween(s) && |s.calls| >= 5)
    ensures PublishesMarkerIntervals(s)
  {
    hide MarkerInterval, P.Slips, P.Span, E.Run, E.Runs, P.Made, M.NothingLost, History, AppearedInBetween;
    forall steps, e | E.Runs(E.INITIAL, steps) && Fed(s.calls, P.Made(steps))
                      && e in E.Run(E.INITIAL, steps).log && e.Sent?
      ensures MarkerInterval(s, P.Made(steps), e.from, e.to)
    {
      CallsSlipExactly(s, P.Made(steps));
      P.SpansUnlessSlipping(P.Made(steps));
      SpansAreMarkerIntervals(s, P.Made(steps), e.from, e.to);
    }
  }

  lemma BootedLosesNothing(leftBehind: bool)
    ensures M.NothingLost(M.Booted(leftBehind))
  {
  }

  /** And which of them are: if the marker did not appear in between, the interval from a start to the stop after it is
      published, or about to be, exactly when the start finds a free slot and the stop a worker. */
  lemma IntervalPublishedExactly(s: M.System, before: seq<E.Step>, from: int, work: seq<E.Step>, to: int, created: bool,
                                 later: seq<E.Step>)
    requires M.NothingLost(s) && s.phase.Serving? && !AppearedInBetween(s)
    requires Fed(s.calls, P.Made(P.Steps(before, from, work, to, created, later)))
    requires P.OneMotion(before, from, work, to, created, later)
    ensures P.Reported(E.Run(E.INITIAL, P.Steps(before, from, work, to, created, later)), from, to)
       <==> E.Find(E.Run(E.INITIAL, before).slots, E.Available) >= 0 && created
  {
    TwoStartsExactly(s);
    MadeBefore(before, from, work, to, created, later);
    hide M.NothingLost, AppearedInBetween, P.Made, E.Run, E.Runs, E.Find, P.Steps, P.Reported;
    var made := P.Made(P.Steps(before, from, work, to, created, later));
    assert forall i | 0 <= i < |made| :: made[i].edge == s.calls[i];
    assert forall i: nat :: !P.TwoStarts(made, i);
    P.BeforeAStart(P.Made(before), from, made);
    P.NothingWaitsAfter(before);
    P.ReportedExactly(before, from, work, to, created, later);
  }

  /** The callbacks up to the start, as a part of all. */
  lemma MadeBefore(before: seq<E.Step>, from: int, work: seq<E.Step>, to: int, created: bool, later: seq<E.Step>)
    ensures P.Made(before) + [P.Call(Start, from)] <= P.Made(P.Steps(before, from, work, to, created, later))
  {
    var start, stop := [E.MotionStart(from)], [E.MotionStop(to, created)];
    P.MadeOne(start[0]);
    P.MadeConcat(before, start);
    P.MadeConcat(before + start, work);
    P.MadeConcat(before + start + work, stop);
    P.MadeConcat(before + start + work + stop, later);
  }

  // ---------------------------------------------------------------------------------------------------------
  // The exception

  /** Motion starts between watch and stat, stops, starts and stops again, each change being read at once. */
  const STARTED_TWICE_THEN_ONCE: seq<M.Step> :=
    M.STARTED_TWICE + [M.Compare(Look(false, 20)), M.Read(1)] + [M.Compare(Look(true, 20))]
    + [M.Compare(Look(true, 21)), M.Read(1)] + [M.Compare(Look(false, 30)), M.Read(1)]

  lemma StartedTwiceThenOnce()
    ensures M.Runs(M.Booted(false), STARTED_TWICE_THEN_ONCE)
    ensures var s := M.Run(M.Booted(false), STARTED_TWICE_THEN_ONCE);
            s.phase.Serving? && s.calls == [Start, Start, Stop, Start, Stop]
  {
    hide M.Run, M.Runs;
    var s0, r0 := M.Booted(false), M.STARTED_TWICE;
    M.StartedTwice();
    var s1 := M.Run(s0, r0);
    M.EdgeDelivered(s1, Look(false, 20));
    var r1, s2 := [M.Compare(Look(false, 20)), M.Read(1)], M.Run(s1, [M.Compare(Look(false, 20)), M.Read(1)]);
    M.RunConcat(s0, r0, r1);
    M.NoEdge(s2, Look(true, 20));
    var r2, s3 := [M.Compare(Look(true, 20))], M.Run(s2, [M.Compare(Look(true, 20))]);
    M.RunConcat(s0, r0 + r1, r2);
    M.EdgeDelivered(s3, Look(true, 21));
    var r3, s4 := [M.Compare(Look(true, 21)), M.Read(1)], M.Run(s3, [M.Compare(Look(true, 21)), M.Read(1)]);
    M.RunConcat(s0, r0 + r1 + r2, r3);
    M.EdgeDelivered(s4, Look(false, 30));
    var r4 := [M.Compare(Look(false, 30)), M.Read(1)];
    M.RunConcat(s0, r0 + r1 + r2 + r3, r4);
  }

  /** Its callbacks can publish an interval that is not the marker's: from the start that was reported twice, 11, to the
      second stop, 21. */
  lemma AppearanceInBetweenSlips()
    ensures M.Runs(M.Booted(false), STARTED_TWICE_THEN_ONCE) && E.Runs(E.INITIAL, E.DOUBLE_START)
    ensures var s, made := M.Run(M.Booted(false), STARTED_TWICE_THEN_ONCE), P.Made(E.DOUBLE_START);
            && Fed(s.calls, made)
            && E.Sent(1, 11, 21) in E.Run(E.INITIAL, E.DOUBLE_START).log
            && !MarkerInterval(s, made, 11, 21)
  {
    hide M.Run, M.Runs, E.Run, E.Runs, History, MarkerInterval, M.NothingLost, P.Made, P.Span;
    StartedTwiceThenOnce();
    E.DoubleStartSlips();
    MadeOfDoubleStart();
    var s, made := M.Run(M.Booted(false), STARTED_TWICE_THEN_ONCE), P.Made(E.DOUBLE_START);
    BootedLosesNothing(false);
    M.RunLosesNothing(M.Booted(false), STARTED_TWICE_THEN_ONCE);
    CallsAreHistory(s);
    P.NotASpan(made, 1, 2, 4);
    SpansAreMarkerIntervals(s, made, 11, 21);
  }

  lemma MadeOfDoubleStart()
    ensures P.Made(E.DOUBLE_START)
         == [P.Call(Start, 10), P.Call(Start, 11), P.Call(Stop, 12), P.Call(Start, 20), P.Call(Stop, 21)]
  {
    var bare := [P.Call(Start, 10), P.Call(Start, 11), P.Call(Stop, 12), P.Call(Start, 20), P.Call(Stop, 21)];
    P.BareMakes(bare);
    P.MadeConcat(P.Bare(bare), [E.Publish(1)]);
    P.MadeOne(E.Publish(1));
    assert E.DOUBLE_START == P.Bare(bare) + [E.Publish(1)];
  }
}
