/** How motion travels from the detector to the MQTT daemon: the detector creates and removes a marker file, the kernel
    queues a directory event for each change, and the daemon's inotify thread turns a start-up stat and the queued
    events into motion callbacks. Detector, kernel and daemon run side by side in any interleaving. */
module MotionMarker {
  import opened Arithmetic
  import opened MotionDetector

  const MOTION_FILE := "motion_alarm"
  const IN_CREATE: nat := 0x100
  const IN_DELETE: nat := 0x200

  /** mask & bit, for a power of two. */
  predicate Has(mask: nat, bit: nat)
    requires bit > 0
  {
    mask / bit % 2 == 1
  }

  /** A queued event; an event about the directory itself has an empty name. */
  datatype Event = Event(mask: nat, name: string)

  /** The event the kernel queues when the marker is created or removed. */
  function MarkerEvent(e: Edge): Event {
    Event(if e.Start? then IN_CREATE else IN_DELETE, MOTION_FILE)
  }

  function CallbackOf(e: Event): seq<Edge> {
    if e.name != MOTION_FILE then []
    else if Has(e.mask, IN_CREATE) then [Start]
    else if Has(e.mask, IN_DELETE) then [Stop]
    else []
  }

  /** The callbacks the daemon makes for some events. */
  function Callbacks(events: seq<Event>): seq<Edge> {
    if events == [] then [] else Callbacks(events[..|events| - 1]) + CallbackOf(events[|events| - 1])
  }

  lemma CallbacksAppend(events: seq<Event>, e: Event)
    ensures Callbacks(events + [e]) == Callbacks(events) + CallbackOf(e)
  {
    hide CallbackOf;
    assert (events + [e])[..|events|] == events;
  }

  lemma Joined(a: seq<Edge>, b: seq<Edge>, c: seq<Edge>)
    ensures a + b + c == a + (b + c)
  {
  }

  lemma {:induction false} CallbacksSplit(a: seq<Event>, b: seq<Event>)
    ensures Callbacks(a + b) == Callbacks(a) + Callbacks(b)
    decreases |b|
  {
    hide CallbackOf;
    if b == [] {
      assert a + b == a && Callbacks(a) + [] == Callbacks(a);
    } else {
      var front, last := b[..|b| - 1], b[|b| - 1];
      CallbacksSplit(a, front);
      assert b == front + [last] && a + b == a + front + [last];
      hide Callbacks;
      CallbacksAppend(a + front, last);
      CallbacksAppend(front, last);
      Joined(Callbacks(a), Callbacks(front), CallbackOf(last));
    }
  }

  /** Of the marker's events those that create it are starts and those that only delete it are stops, whatever other bits
      are set; events of other files and of the directory itself are neither. */
  lemma MaskDecides(high: nat, deleted: bool, created: bool, low: nat, name: string)
    requires low < 0x100
    ensures var mask := 0x400 * high + (if deleted then 0x200 else 0) + (if created then 0x100 else 0) + low;
            CallbackOf(Event(mask, name))
            == if name != "motion_alarm" then [] else if created then [Start] else if deleted then [Stop] else []
  {
    var d, c := if deleted then 1 else 0, if created then 1 else 0;
    var mask := 0x400 * high + (if deleted then 0x200 else 0) + (if created then 0x100 else 0) + low;
    TwoBits(mask, high, d, c, low);
    hide Has;
  }

  lemma TwoBits(mask: nat, high: nat, d: nat, c: nat, low: nat)
    requires d < 2 && c < 2 && low < 0x100 && mask == 0x400 * high + 0x200 * d + 0x100 * c + low
    ensures (Has(mask, IN_CREATE) <==> c == 1) && (Has(mask, IN_DELETE) <==> d == 1)
  {
    DivModUnique(mask, 0x100, 4 * high + 2 * d + c, low);
    DivModUnique(mask, 0x200, 2 * high + d, 0x100 * c + low);
    DivModUnique(4 * high + 2 * d + c, 2, 2 * high + d, c);
    DivModUnique(2 * high + d, 2, high, d);
  }

  class Daemon {
    var calls: seq<Edge>

    constructor ()
      ensures calls == []
    {
      calls := [];
    }

    /** Recover the current state at start-up. */
    method Recover(markerExists: bool)
      modifies this
      ensures calls == old(calls) + if markerExists then [Start] else []
    {
      if markerExists {
        calls := calls + [Start];
      }
    }

    /** Walk one batch of events as read from the descriptor. */
    method Deliver(batch: seq<Event>)
      modifies this
      ensures calls == old(calls) + Callbacks(batch)
    {
      var i := 0;
      assert Callbacks(batch[..0]) == [];
      hide Callbacks, Has;
      while i < |batch|
        invariant 0 <= i <= |batch|
        invariant calls == old(calls) + Callbacks(batch[..i])
      {
        var e := batch[i];
        CallbacksAppend(batch[..i], e);
        assert batch[..i + 1] == batch[..i] + [e];
        if |e.name| > 0 && e.name == MOTION_FILE {
          if Has(e.mask, IN_CREATE) {
            calls := calls + [Start];
          } else if Has(e.mask, IN_DELETE) {
            calls := calls + [Stop];
          }
        }
        i := i + 1;
      }
      assert batch[..|batch|] == batch;
    }
  }

  // ---------------------------------------------------------------------------------------------------------
  // The three parties as one state machine

  datatype Phase = Unwatched | Watched | Serving

  /** `queue` holds the undelivered events, `calls` the callbacks made. The remaining fields only record history: the
      marker's changes since the watch was added, whether it was present at the watch and at the stat, and whether the
      detector has reported motion at all. */
  datatype System = System(debounce: Debounce, alive: bool, marker: bool,
                           queue: seq<Event>, phase: Phase, calls: seq<Edge>,
                           changes: seq<Edge>, atWatch: bool, atStat: bool, started: bool)

  datatype Step =
    | Compare(look: Look)       // the detector compares two frames
    | Quit                      // the detector ends
    | Foreign(event: Event)     // something else happens in the directory
    | AddWatch
    | Stat
    | Read(count: nat)          // one batch of `count` events

  /** The marker file created or removed. Creating a file that exists, or removing one that does not, changes nothing
      and queues no event. */
  function Touch(s: System, present: bool): System {
    if s.marker == present then s
    else
      var e := if present then Start else Stop;
      if s.phase.Unwatched? then s.(marker := present)
      else s.(marker := present, queue := s.queue + [MarkerEvent(e)], changes := s.changes + [e])
  }

  predicate Enabled(s: System, step: Step) {
    match step
    case Compare(_) => s.alive
    case Quit => s.alive
    case Foreign(e) => e.name != MOTION_FILE
    case AddWatch => s.phase.Unwatched?
    case Stat => s.phase.Watched?
    case Read(count) => s.phase.Serving? && 0 < count <= |s.queue|
  }

  function After(s: System, step: Step): System
    requires Enabled(s, step)
  {
    match step
    case Compare(look) =>
      var d := Observe(s.debounce, look);
      var s1 := s.(debounce := d, started := s.started || d.motion);
      if d.motion == s.debounce.motion then s1 else Touch(s1, d.motion)
    case Quit =>
      var s1 := s.(alive := false, debounce := s.debounce.(motion := false));
      if s.debounce.motion then Touch(s1, false) else s1
    case Foreign(e) => if s.phase.Unwatched? then s else s.(queue := s.queue + [e])
    case AddWatch => s.(phase := Watched, atWatch := s.marker)
    case Stat =>
      s.(phase := Serving, atStat := s.marker, calls := s.calls + if s.marker then [Start] else [])
    case Read(count) =>
      s.(queue := s.queue[count..], calls := s.calls + Callbacks(s.queue[..count]))
  }

  /** Both programs just started; a marker may have been left behind by an earlier run. */
  function Booted(leftBehind: bool): System {
    System(AT_REST, true, leftBehind, [], Unwatched, [], [], false, false, false)
  }

  predicate Runs(s: System, steps: seq<Step>)
    decreases |steps|
  {
    steps == [] || (Enabled(s, steps[0]) && Runs(After(s, steps[0]), steps[1..]))
  }

  function Run(s: System, steps: seq<Step>): System
    requires Runs(s, steps)
    decreases |steps|
  {
    if steps == [] then s else Run(After(s, steps[0]), steps[1..])
  }

  /** The presence that a sequence of changes leads to. */
  function Fold(present: bool, changes: seq<Edge>): bool {
    if changes == [] then present else changes[|changes| - 1].Start?
  }

  /** Every change really changes something. */
  predicate Effective(present: bool, changes: seq<Edge>) {
    forall i | 0 <= i < |changes| :: changes[i].Start? != Fold(present, changes[..i])
  }

  lemma EffectiveAppend(present: bool, changes: seq<Edge>, e: Edge)
    requires Effective(present, changes) && e.Start? != Fold(present, changes)
    ensures Effective(present, changes + [e]) && Fold(present, changes + [e]) == e.Start?
  {
    forall i | 0 <= i <= |changes| ensures (changes + [e])[..i] == changes[..i] {}
  }

  /** What the start-up stat contributes. */
  function Recovered(s: System): seq<Edge> {
    if s.phase.Serving? && s.atStat then [Start] else []
  }

  /** The protocol's invariant: since the watch, every change of the marker is in the queue or has been delivered, in
      order and behind what the stat contributed. */
  ghost predicate NothingLost(s: System) {
    if s.phase.Unwatched? then s.queue == [] && s.calls == [] && s.changes == []
    else
      && s.calls + Callbacks(s.queue) == Recovered(s) + s.changes
      && (s.phase.Watched? ==> s.calls == [])
      && s.marker == Fold(s.atWatch, s.changes)
      && Effective(s.atWatch, s.changes)
      && (s.phase.Serving? ==> |s.calls| >= |Recovered(s)|)
      && (s.phase.Serving? && s.atStat != s.atWatch ==> s.changes != [])
  }

  lemma MarkerEventCalls(queue: seq<Event>, e: Edge)
    ensures Callbacks(queue + [MarkerEvent(e)]) == Callbacks(queue) + [e]
  {
    hide Callbacks;
    CallbacksAppend(queue, MarkerEvent(e));
    assert Has(IN_CREATE, IN_CREATE) && Has(IN_DELETE, IN_DELETE) && !Has(IN_DELETE, IN_CREATE);
  }

  lemma TouchLosesNothing(s: System, present: bool)
    requires NothingLost(s)
    ensures NothingLost(Touch(s, present))
  {
    hide Callbacks, MarkerEvent, Effective, Fold;
    if s.marker != present && !s.phase.Unwatched? {
      var e := if present then Start else Stop;
      MarkerEventCalls(s.queue, e);
      EffectiveAppend(s.atWatch, s.changes, e);
      assert s.calls + (Callbacks(s.queue) + [e]) == (s.calls + Callbacks(s.queue)) + [e];
      assert (Recovered(s) + s.changes) + [e] == Recovered(s) + (s.changes + [e]);
    }
  }

  lemma ForeignLosesNothing(s: System, e: Event)
    requires NothingLost(s) && e.name != MOTION_FILE
    ensures NothingLost(After(s, Foreign(e)))
  {
    hide Callbacks, Effective, Fold;
    CallbacksAppend(s.queue, e);
    assert Callbacks(s.queue) + [] == Callbacks(s.queue);
  }

  lemma ReadLosesNothing(s: System, count: nat)
    requires NothingLost(s) && s.phase.Serving? && 0 < count <= |s.queue|
    ensures NothingLost(After(s, Read(count)))
  {
    hide Callbacks, Effective, Fold;
    var batch, rest := s.queue[..count], s.queue[count..];
    assert s.queue == batch + rest;
    CallbacksSplit(batch, rest);
    assert (s.calls + Callbacks(batch)) + Callbacks(rest) == s.calls + (Callbacks(batch) + Callbacks(rest));
  }

  lemma WatchLosesNothing(s: System)
    requires NothingLost(s) && s.phase.Unwatched?
    ensures NothingLost(After(s, AddWatch))
  {
    assert Callbacks([]) == [];
  }

  lemma StatLosesNothing(s: System)
    requires NothingLost(s) && s.phase.Watched?
    ensures NothingLost(After(s, Stat))
  {
    assert s.changes == [] ==> s.marker == s.atWatch;
    hide Callbacks, Effective, Fold;
    EmptyInFront(if s.marker then [Start] else [], Callbacks(s.queue), s.changes);
  }

  lemma EmptyInFront(first: seq<Edge>, queued: seq<Edge>, changes: seq<Edge>)
    ensures [] + queued == [] + changes ==> ([] + first) + queued == first + changes
    ensures [] + first == first
  {
    assert [] + queued == queued && [] + changes == changes;
  }

  predicate OfDetector(step: Step) {
    step.Compare? || step.Quit?
  }

  lemma DetectorLosesNothing(s: System, step: Step)
    requires NothingLost(s) && Enabled(s, step) && OfDetector(step)
    ensures NothingLost(After(s, step))
  {
    hide Touch, Callbacks, Effective;
    match step
    case Compare(look) =>
      var s1 := s.(debounce := Observe(s.debounce, look), started := s.started || Observe(s.debounce, look).motion);
      TouchLosesNothing(s1, s1.debounce.motion);
    case Quit =>
      TouchLosesNothing(s.(alive := false, debounce := s.debounce.(motion := false)), false);
  }

  lemma ObserverLosesNothing(s: System, step: Step)
    requires NothingLost(s) && Enabled(s, step) && !OfDetector(step)
    ensures NothingLost(After(s, step))
  {
    match step
    case Foreign(e) => ForeignLosesNothing(s, e);
    case AddWatch => WatchLosesNothing(s);
    case Stat => StatLosesNothing(s);
    case Read(count) => ReadLosesNothing(s, count);
  }

  lemma {:induction false} RunLosesNothing(s: System, steps: seq<Step>)
    requires NothingLost(s) && Runs(s, steps)
    ensures NothingLost(Run(s, steps))
    decreases |steps|
  {
    if steps != [] {
      if OfDetector(steps[0]) { DetectorLosesNothing(s, steps[0]); } else { ObserverLosesNothing(s, steps[0]); }
      RunLosesNothing(After(s, steps[0]), steps[1..]);
    }
  }

  // ---------------------------------------------------------------------------------------------------------
  // What follows for the daemon

  lemma FoldConcat(present: bool, a: seq<Edge>, b: seq<Edge>)
    ensures Fold(present, a + b) == Fold(Fold(present, a), b)
  {
  }

  /** In every interleaving, once the start-up stat is done, folding the undelivered marker events over the last
      delivered callback gives the marker's actual presence. */
  lemma UndeliveredEventsMakeUpTheDifference(leftBehind: bool, steps: seq<Step>)
    requires Runs(Booted(leftBehind), steps)
    ensures var s := Run(Booted(leftBehind), steps);
            s.phase.Serving? ==> Fold(Fold(false, s.calls), Callbacks(s.queue)) == s.marker
  {
    RunLosesNothing(Booted(leftBehind), steps);
    var s := Run(Booted(leftBehind), steps);
    if s.phase.Serving? {
      FoldConcat(false, s.calls, Callbacks(s.queue));
      FoldConcat(false, Recovered(s), s.changes);
    }
  }

  /** Draining the queue converges, whatever has happened before: one batch that empties it leaves the daemon with the
      marker's presence, and the callbacks made are the recovered one followed by every change since the watch. */
  lemma DrainingConverges(leftBehind: bool, steps: seq<Step>)
    requires Runs(Booted(leftBehind), steps)
    requires Run(Booted(leftBehind), steps).phase.Serving? && Run(Booted(leftBehind), steps).queue != []
    ensures var s := Run(Booted(leftBehind), steps);
            var s' := After(s, Read(|s.queue|));
            && s'.queue == [] && s'.marker == s.marker
            && Fold(false, s'.calls) == s.marker
            && s'.calls == Recovered(s) + s.changes
  {
    RunLosesNothing(Booted(leftBehind), steps);
    var s := Run(Booted(leftBehind), steps);
    assert s.queue[..|s.queue|] == s.queue;
    FoldConcat(false, Recovered(s), s.changes);
  }

  /** A callback that does not change the state the daemon has last reported. */
  ghost predicate Redundant(calls: seq<Edge>) {
    !Effective(false, calls)
  }

  /** The callback at position i tells the daemon something new, except that the first one after the stat does not when
      stat and watch have seen different states. */
  lemma CallbackIsNews(s: System, i: nat)
    requires NothingLost(s) && s.phase.Serving? && i < |s.calls|
    ensures i != |Recovered(s)| ==> s.calls[i].Start? != Fold(false, s.calls[..i])
    ensures i == |Recovered(s)| ==> (s.calls[i].Start? != Fold(false, s.calls[..i]) <==> s.atStat == s.atWatch)
  {
    hide Callbacks;
    var r, c := Recovered(s), s.calls;
    assert c == (r + s.changes)[..|c|];
    if i >= |r| {
      var j := i - |r|;
      assert c[i] == s.changes[j];
      assert s.changes[j].Start? != Fold(s.atWatch, s.changes[..j]);
      if j > 0 {
        assert c[..i][i - 1] == s.changes[..j][j - 1];
      }
    }
  }

  /** A redundant callback reaches the daemon exactly when the marker changed an odd number of times between the watch
      and the stat and at least one marker event has been delivered since. */
  lemma RedundantCallbacks(s: System)
    requires NothingLost(s) && s.phase.Serving?
    ensures Redundant(s.calls) <==> s.atStat != s.atWatch && |s.calls| > |Recovered(s)|
  {
    hide Callbacks, Fold, Recovered, NothingLost;
    forall i | 0 <= i < |s.calls|
      ensures i != |Recovered(s)| ==> s.calls[i].Start? != Fold(false, s.calls[..i])
      ensures i == |Recovered(s)| ==> (s.calls[i].Start? != Fold(false, s.calls[..i]) <==> s.atStat == s.atWatch)
    {
      CallbackIsNews(s, i);
    }
    if s.atStat != s.atWatch && |s.calls| > |Recovered(s)| {
      assert s.calls[|Recovered(s)|].Start? == Fold(false, s.calls[..|Recovered(s)|]);
    }
  }

  lemma RunOne(s: System, step: Step)
    requires Enabled(s, step)
    ensures Runs(s, [step]) && Run(s, [step]) == After(s, step)
  {
    assert [step][1..] == [];
  }

  lemma {:induction false} RunConcat(s: System, a: seq<Step>, b: seq<Step>)
    requires Runs(s, a) && Runs(Run(s, a), b)
    ensures Runs(s, a + b) && Run(s, a + b) == Run(Run(s, a), b)
    decreases |a|
  {
    hide After, Enabled;
    if a == [] {
      assert a + b == b;
    } else {
      RunConcat(After(s, a[0]), a[1..], b);
      assert (a + b)[1..] == a[1..] + b;
    }
  }

  lemma OneCallback(e: Edge)
    ensures Callbacks([MarkerEvent(e)]) == [e]
  {
    MarkerEventCalls([], e);
    assert [] + [MarkerEvent(e)] == [MarkerEvent(e)] && [] + [e] == [e];
  }

  const STARTED_TWICE: seq<Step> :=
    [Compare(Look(true, 10)), AddWatch] + [Compare(Look(true, 10)), Stat] + [Read(1)]

  /** A run with a redundant callback: motion starts between watch and stat, and both the stat and the event report
      it. */
  lemma StartedTwice()
    ensures Runs(Booted(false), STARTED_TWICE)
    ensures var s := Run(Booted(false), STARTED_TWICE);
            && s.phase.Serving? && s.atStat && !s.atWatch && Redundant(s.calls)
            && s.calls == [Start, Start] && s.queue == [] && s.alive && s.marker
            && s.debounce == Debounce(true, 2, 10)
  {
    hide Callbacks, MarkerEvent;
    var s0 := Booted(false);
    RunTwo(s0, Compare(Look(true, 10)), AddWatch);
    var s1 := After(After(s0, Compare(Look(true, 10))), AddWatch);
    assert s1 == System(Debounce(false, 1, 10), true, false, [], Watched, [], [], false, false, false);
    RunTwo(s1, Compare(Look(true, 10)), Stat);
    var s2 := After(After(s1, Compare(Look(true, 10))), Stat);
    assert s2.queue == [MarkerEvent(Start)] && s2.calls == [Start];
    OneCallback(Start);
    RunOne(s2, Read(1));
    RunConcat(s0, [Compare(Look(true, 10)), AddWatch], [Compare(Look(true, 10)), Stat]);
    RunConcat(s0, [Compare(Look(true, 10)), AddWatch] + [Compare(Look(true, 10)), Stat], [Read(1)]);
    assert s2.queue[..1] == [MarkerEvent(Start)] && s2.queue[1..] == [];
    assert [Start] + [Start] == [Start, Start];
    SecondStartIsNoNews();
  }

  lemma SecondStartIsNoNews()
    ensures Redundant([Start, Start])
  {
    assert Fold(false, [Start, Start][..1]) by { assert [Start, Start][..1] == [Start]; }
  }

  lemma RunTwo(s: System, a: Step, b: Step)
    requires Enabled(s, a) && Enabled(After(s, a), b)
    ensures Runs(s, [a, b]) && Run(s, [a, b]) == After(After(s, a), b)
  {
    hide After, Enabled;
    RunOne(After(s, a), b);
    assert [a, b][1..] == [b];
  }

  /** A serving daemon that has drained its queue, with the marker as the detector wants it. */
  predicate Settled(s: System) {
    s.phase.Serving? && s.alive && s.queue == [] && s.marker == s.debounce.motion
  }

  /** An edge of the detector's flag reaches such a daemon with one read. */
  lemma EdgeDelivered(s: System, look: Look)
    requires Settled(s) && Observe(s.debounce, look).motion != s.debounce.motion
    ensures Runs(s, [Compare(look), Read(1)])
    ensures var s' := Run(s, [Compare(look), Read(1)]);
            && Settled(s') && s'.debounce == Observe(s.debounce, look)
            && s'.calls == s.calls + [if s'.debounce.motion then Start else Stop]
  {
    hide Callbacks, MarkerEvent, Observe;
    var s1 := After(s, Compare(look));
    var e := if s1.debounce.motion then Start else Stop;
    assert s1.queue == [MarkerEvent(e)];
    assert s1.queue[..1] == [MarkerEvent(e)];
    OneCallback(e);
    RunTwo(s, Compare(look), Read(1));
  }

  lemma NoEdge(s: System, look: Look)
    requires Settled(s) && Observe(s.debounce, look).motion == s.debounce.motion
    ensures Runs(s, [Compare(look)])
    ensures var s' := Run(s, [Compare(look)]);
            Settled(s') && s'.debounce == Observe(s.debounce, look) && s'.calls == s.calls
  {
    hide Callbacks, Observe;
    RunOne(s, Compare(look));
  }

  /** The marker follows the detector's flag from its first start on; before that it is what was left behind. */
  ghost predicate MarkerFollows(s: System, leftBehind: bool) {
    && (s.debounce.motion ==> s.started)
    && s.marker == if s.started then s.debounce.motion else leftBehind
  }

  lemma StepFollowsDetector(s: System, step: Step, leftBehind: bool)
    requires MarkerFollows(s, leftBehind) && Enabled(s, step)
    ensures MarkerFollows(After(s, step), leftBehind)
  {
    hide Callbacks;
  }

  lemma {:induction false} MarkerFollowsDetector(s: System, steps: seq<Step>, leftBehind: bool)
    requires MarkerFollows(s, leftBehind) && Runs(s, steps)
    ensures MarkerFollows(Run(s, steps), leftBehind)
    decreases |steps|
  {
    hide After, MarkerFollows;
    if steps != [] {
      StepFollowsDetector(s, steps[0], leftBehind);
      MarkerFollowsDetector(After(s, steps[0]), steps[1..], leftBehind);
    }
  }

  /** End to end: in any run in which no stale marker was left behind, once the daemon has drained its queue the last
      state it has reported is the detector's own. */
  lemma DaemonReportsTheDetector(steps: seq<Step>)
    requires Runs(Booted(false), steps)
    requires Run(Booted(false), steps).phase.Serving? && Run(Booted(false), steps).queue == []
    ensures Fold(false, Run(Booted(false), steps).calls) == Run(Booted(false), steps).debounce.motion
  {
    UndeliveredEventsMakeUpTheDifference(false, steps);
    MarkerFollowsDetector(Booted(false), steps, false);
  }
}
