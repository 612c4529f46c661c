/** The three event slots of the MQTT daemon: a start callback claims a slot, a stop callback hands it to a worker
    thread, and the worker, after a delay, publishes the slot's interval and gives the slot back in three separate
    writes. Callbacks and workers run in any interleaving. */
module EventSlots {

  const SLOTS: nat := 3

  datatype Use = Available | Waiting | Running

  datatype Slot = Slot(running: Use, timeStart: int, timeStop: int)

  const FREE := Slot(Available, 0, 0)

  /** How far a worker has come. */
  datatype Stage = Asleep | Published | StartCleared | StopCleared | Gone

  datatype Worker = Worker(slot: nat, stage: Stage)

  /** The history of each slot: claimed by a start, stopped (with or without a worker having been created), its
      interval published, and released. */
  datatype Entry =
    | Claimed(slot: nat, time: int)
    | Stopped(slot: nat, time: int, created: bool)
    | Sent(slot: nat, from: int, to: int)
    | Released(slot: nat)

  datatype State = State(slots: seq<Slot>, workers: seq<Worker>, log: seq<Entry>)

  const INITIAL := State([FREE, FREE, FREE], [], [])

  /** The lowest slot in a given use, or -1. */
  function Find(slots: seq<Slot>, use: Use): (i: int)
    ensures -1 <= i < |slots|
    ensures i >= 0 ==> slots[i].running == use && forall j | 0 <= j < i :: slots[j].running != use
    ensures i == -1 ==> forall j | 0 <= j < |slots| :: slots[j].running != use
  {
    FindFrom(slots, use, 0)
  }

  function FindFrom(slots: seq<Slot>, use: Use, from: nat): (i: int)
    requires from <= |slots|
    requires forall j | 0 <= j < from :: slots[j].running != use
    ensures -1 <= i < |slots|
    ensures i >= 0 ==> slots[i].running == use && forall j | 0 <= j < i :: slots[j].running != use
    ensures i == -1 ==> forall j | 0 <= j < |slots| :: slots[j].running != use
    decreases |slots| - from
  {
    if from == |slots| then -1 else if slots[from].running == use then from else FindFrom(slots, use, from + 1)
  }

  datatype Step =
    | MotionStart(now: int)
    | MotionStop(now: int, created: bool)   // whether the worker thread could be created
    | Publish(w: nat)
    | ClearStart(w: nat)
    | ClearStop(w: nat)
    | Release(w: nat)

  /** A callback can come at any time with a clock that is never zero; a worker makes its steps in order. */
  predicate Enabled(s: State, step: Step) {
    match step
    case MotionStart(now) => now != 0
    case MotionStop(now, _) => now != 0
    case Publish(w) => w < |s.workers| && s.workers[w].stage == Asleep
    case ClearStart(w) => w < |s.workers| && s.workers[w].stage == Published
    case ClearStop(w) => w < |s.workers| && s.workers[w].stage == StartCleared
    case Release(w) => w < |s.workers| && s.workers[w].stage == StopCleared
  }

  /** The start callback claims the lowest free slot, if any. */
  function Started(s: State, now: int): (s': State)
    requires Shaped(s)
    ensures Shaped(s')
  {
    var i := Find(s.slots, Available);
    if i < 0 then s
    else s.(slots := s.slots[i := s.slots[i].(timeStart := now, running := Waiting)], log := s.log + [Claimed(i, now)])
  }

  /** The stop callback hands the lowest waiting slot to a worker; without a worker the slot is freed at once. */
  function Ended(s: State, now: int, created: bool): (s': State)
    requires Shaped(s)
    ensures Shaped(s')
  {
    var i := Find(s.slots, Waiting);
    if i < 0 then s
    else if s.slots[i].timeStart == 0 then s.(slots := s.slots[i := FREE])
    else if created then
      State(s.slots[i := Slot(Running, s.slots[i].timeStart, now)], s.workers + [Worker(i, Asleep)],
            s.log + [Stopped(i, now, true)])
    else s.(slots := s.slots[i := FREE], log := s.log + [Stopped(i, now, false)])
  }

  /** The last three writes of a worker, and the message before them, are separate steps. */
  function Worked(s: State, step: Step): (s': State)
    requires Shaped(s) && !step.MotionStart? && !step.MotionStop? && step.w < |s.workers|
    ensures Shaped(s')
  {
    var i := s.workers[step.w].slot;
    var slot := s.slots[i];
    match step
    case Publish(w) =>
      s.(workers := s.workers[w := Worker(i, Published)], log := s.log + [Sent(i, slot.timeStart, slot.timeStop)])
    case ClearStart(w) =>
      s.(workers := s.workers[w := Worker(i, StartCleared)], slots := s.slots[i := slot.(timeStart := 0)])
    case ClearStop(w) =>
      s.(workers := s.workers[w := Worker(i, StopCleared)], slots := s.slots[i := slot.(timeStop := 0)])
    case Release(w) =>
      State(s.slots[i := slot.(running := Available)], s.workers[w := Worker(i, Gone)], s.log + [Released(i)])
  }

  function After(s: State, step: Step): (s': State)
    requires Shaped(s) && Enabled(s, step)
    ensures Shaped(s')
  {
    match step
    case MotionStart(now) => Started(s, now)
    case MotionStop(now, created) => Ended(s, now, created)
    case _ => Worked(s, step)
  }

  predicate Shaped(s: State) {
    |s.slots| == SLOTS && forall w | 0 <= w < |s.workers| :: s.workers[w].slot < SLOTS
  }

  class FilesThreads {
    const slots: array<Slot>
    var workers: seq<Worker>
    var log: seq<Entry>

    ghost predicate Valid()
      reads this, slots
    {
      slots.Length == SLOTS && forall w | 0 <= w < |workers| :: workers[w].slot < SLOTS
    }

    ghost function View(): State
      reads this, slots
    {
      State(slots[..], workers, log)
    }

    constructor ()
      ensures Valid() && fresh(slots) && View() == INITIAL
    {
      slots := new Slot[SLOTS](_ => FREE);
      workers, log := [], [];
      new;
      assert slots[..] == [FREE, FREE, FREE];
    }

    method GetThreadIndex(use: Use) returns (ti: int)
      ensures ti == Find(slots[..], use)
    {
      var i := 0;
      while i < slots.Length
        invariant 0 <= i <= slots.Length
        invariant forall j | 0 <= j < i :: slots[j].running != use
        invariant Find(slots[..], use) == FindFrom(slots[..], use, i)
      {
        if use == slots[i].running {
          return i;
        }
        i := i + 1;
      }
      return -1;
    }

    method CallbackMotionStart(now: int)
      requires Valid() && now != 0
      modifies this, slots
      ensures Valid() && View() == After(old(View()), MotionStart(now))
    {
      var ti := GetThreadIndex(Available);
      if ti >= 0 {
        slots[ti] := slots[ti].(timeStart := now);
        slots[ti] := slots[ti].(running := Waiting);
        log := log + [Claimed(ti, now)];
      }
    }

    method CallbackMotionStop(now: int, created: bool)
      requires Valid() && now != 0
      modifies this, slots
      ensures Valid() && View() == After(old(View()), MotionStop(now, created))
    {
      var ti := GetThreadIndex(Waiting);
      if ti >= 0 {
        if slots[ti].timeStart != 0 {
          slots[ti] := slots[ti].(timeStop := now);
          slots[ti] := slots[ti].(running := Running);
          if created {
            workers := workers + [Worker(ti, Asleep)];
          } else {
            slots[ti] := FREE;
          }
          log := log + [Stopped(ti, now, created)];
        } else {
          slots[ti] := FREE;
        }
      }
    }

    /** One of the four steps a worker makes once its delay is over. */
    method WorkerStep(step: Step)
      requires Valid() && !step.MotionStart? && !step.MotionStop? && Enabled(View(), step)
      modifies this, slots
      ensures Valid() && View() == After(old(View()), step)
    {
      var i := workers[step.w].slot;
      match step {
        case Publish(w) =>
          log := log + [Sent(i, slots[i].timeStart, slots[i].timeStop)];
          workers := workers[w := Worker(i, Published)];
        case ClearStart(w) =>
          slots[i] := slots[i].(timeStart := 0);
          workers := workers[w := Worker(i, StartCleared)];
        case ClearStop(w) =>
          slots[i] := slots[i].(timeStop := 0);
          workers := workers[w := Worker(i, StopCleared)];
        case Release(w) =>
          slots[i] := slots[i].(running := Available);
          workers := workers[w := Worker(i, Gone)];
          log := log + [Released(i)];
      }
    }
  }

  // ---------------------------------------------------------------------------------------------------------
  // What the history says about a slot

  datatype SlotPhase = Idle | InUse(from: int) | Closed(from: int, to: int) | Reported

  /** Where a slot is in its cycle, read off the history alone. */
  function PhaseOf(log: seq<Entry>, slot: nat): SlotPhase {
    if log == [] then Idle
    else
      var e, before := log[|log| - 1], PhaseOf(log[..|log| - 1], slot);
      if e.slot != slot then before
      else
        match e
        case Claimed(_, t) => InUse(t)
        case Stopped(_, t, created) => if created && before.InUse? then Closed(before.from, t) else Idle
        case Sent(_, _, _) => Reported
        case Released(_) => Idle
  }

  /** An entry that fits the cycle claimed, stopped, sent, released; what is sent is the time of the claim and the time
      of the stop of the slot's current cycle. */
  predicate Fits(e: Entry, phase: SlotPhase) {
    match e
    case Claimed(_, _) => phase.Idle?
    case Stopped(_, _, _) => phase.InUse?
    case Sent(_, from, to) => phase == Closed(from, to)
    case Released(_) => phase.Reported?
  }

  predicate History(log: seq<Entry>) {
    forall p | 0 <= p < |log| :: log[p].slot < SLOTS && Fits(log[p], PhaseOf(log[..p], log[p].slot))
  }

  lemma HistoryAppend(log: seq<Entry>, e: Entry)
    requires History(log) && e.slot < SLOTS && Fits(e, PhaseOf(log, e.slot))
    ensures History(log + [e])
    ensures forall i: nat | i != e.slot :: PhaseOf(log + [e], i) == PhaseOf(log, i)
    ensures PhaseOf(log + [e], e.slot) ==
              match e
              case Claimed(_, t) => InUse(t)
              case Stopped(_, t, created) => if created then Closed(PhaseOf(log, e.slot).from, t) else Idle
              case Sent(_, _, _) => Reported
              case Released(_) => Idle
  {
    assert (log + [e])[..|log|] == log;
    forall p | 0 <= p < |log| + 1 ensures p <= |log| && (log + [e])[..p] == log[..p] {}
    assert log[..|log|] == log;
  }

  predicate Live(s: State, w: int, slot: nat) {
    0 <= w < |s.workers| && s.workers[w].slot == slot && s.workers[w].stage != Gone
  }

  /** Slot, history and workers agree: a free slot has both times zero and no worker, a waiting one carries the time
      of its claim and has no worker, and a running one has a worker and carries its interval until the worker clears
      it. */
  ghost predicate SlotAgrees(s: State, i: nat)
    requires Shaped(s) && i < SLOTS
  {
    var slot, phase := s.slots[i], PhaseOf(s.log, i);
    match slot.running
    case Available => slot == FREE && phase == Idle && forall w | 0 <= w < |s.workers| :: !Live(s, w, i)
    case Waiting =>
      && phase == InUse(slot.timeStart) && slot.timeStart != 0 && slot.timeStop == 0
      && forall w | 0 <= w < |s.workers| :: !Live(s, w, i)
    case Running =>
      && (exists w :: Live(s, w, i))
      && forall w | 0 <= w < |s.workers| && Live(s, w, i) ::
           match s.workers[w].stage
           case Asleep => phase == Closed(slot.timeStart, slot.timeStop)
           case Published => phase == Reported
           case StartCleared => phase == Reported && slot.timeStart == 0
           case StopCleared => phase == Reported && slot.timeStart == 0 && slot.timeStop == 0
           case Gone => true
  }

  ghost predicate Invariant(s: State) {
    && Shaped(s)
    && History(s.log)
    && (forall i: nat | i < SLOTS :: SlotAgrees(s, i))
    && WorkersApart(s)
  }

  /** No slot has two live workers. */
  ghost predicate WorkersApart(s: State) {
    forall v, w, i: nat | i < SLOTS && Live(s, v, i) && Live(s, w, i) :: v == w
  }

  /** Whatever does not touch a slot, its workers or its history leaves it in agreement. */
  lemma OthersAgree(s: State, s': State, i: nat)
    requires Shaped(s) && Shaped(s') && i < SLOTS && SlotAgrees(s, i)
    requires s'.slots[i] == s.slots[i] && PhaseOf(s'.log, i) == PhaseOf(s.log, i)
    requires |s.workers| <= |s'.workers|
    requires forall w | 0 <= w < |s.workers| && s.workers[w].slot == i :: s'.workers[w] == s.workers[w]
    requires forall w | 0 <= w < |s'.workers| && s'.workers[w].slot == i :: w < |s.workers| && s.workers[w].slot == i
    ensures SlotAgrees(s', i)
  {
    forall w | 0 <= w < |s'.workers| && Live(s', w, i) ensures Live(s, w, i) && s'.workers[w] == s.workers[w] {}
    if s.slots[i].running == Running {
      var w :| Live(s, w, i);
      assert Live(s', w, i);
    }
  }

  lemma StartKeepsSlot(s: State, now: int, j: nat)
    requires Invariant(s) && now != 0 && j < SLOTS
    ensures History(Started(s, now).log) && SlotAgrees(Started(s, now), j)
  {
    var s', i := Started(s, now), Find(s.slots, Available);
    assert SlotAgrees(s, j);
    if i >= 0 {
      assert SlotAgrees(s, i);
      HistoryAppend(s.log, Claimed(i, now));
      if j != i {
        OthersAgree(s, s', j);
      } else {
        forall w | 0 <= w < |s.workers| ensures !Live(s', w, i) { assert !Live(s, w, i); }
      }
    }
  }

  lemma StopKeepsSlot(s: State, now: int, created: bool, j: nat)
    requires Invariant(s) && now != 0 && j < SLOTS
    ensures History(Ended(s, now, created).log) && SlotAgrees(Ended(s, now, created), j)
  {
    var s', i := Ended(s, now, created), Find(s.slots, Waiting);
    assert SlotAgrees(s, j);
    if i >= 0 {
      assert SlotAgrees(s, i);
      HistoryAppend(s.log, Stopped(i, now, created));
      if j != i {
        OthersAgree(s, s', j);
      } else {
        forall w | 0 <= w < |s.workers| ensures !Live(s', w, i) { assert !Live(s, w, i); }
        if created { assert Live(s', |s.workers|, i); }
      }
    }
  }

  /** A callback creates at most one worker, for a slot that has none. */
  lemma CallbackKeepsWorkersApart(s: State, step: Step)
    requires Invariant(s) && (step.MotionStart? || step.MotionStop?) && Enabled(s, step)
    ensures WorkersApart(After(s, step))
  {
    var s' := After(s, step);
    var i := Find(s.slots, Waiting);
    assert i >= 0 ==> SlotAgrees(s, i);
    forall v, w, j: nat | j < SLOTS && Live(s', v, j) && Live(s', w, j) ensures v == w {
      assert v < |s.workers| ==> Live(s, v, j);
      assert w < |s.workers| ==> Live(s, w, j);
    }
  }

  lemma CallbackKeepsInvariant(s: State, step: Step)
    requires Invariant(s) && (step.MotionStart? || step.MotionStop?) && Enabled(s, step)
    ensures Invariant(After(s, step))
  {
    hide SlotAgrees, History, WorkersApart, Started, Ended;
    CallbackKeepsWorkersApart(s, step);
    forall j: nat | j < SLOTS
      ensures History(After(s, step).log) && SlotAgrees(After(s, step), j)
    {
      match step {
        case MotionStart(now) => StartKeepsSlot(s, now, j);
        case MotionStop(now, created) => StopKeepsSlot(s, now, created, j);
      }
    }
    assert SlotAgrees(After(s, step), 0);
  }

  predicate WorkerStepEnabled(s: State, step: Step) {
    !step.MotionStart? && !step.MotionStop? && Enabled(s, step)
  }

  /** What a worker finds in its slot, and that after its step the slot neither waits nor has an interval to send. */
  lemma WorkerKeepsOwnSlot(s: State, step: Step)
    requires Invariant(s) && WorkerStepEnabled(s, step)
    ensures var i := s.workers[step.w].slot;
            var s' := Worked(s, step);
            && s.slots[i].running == Running && s'.slots[i].running != Waiting
            && (step.Publish? ==> PhaseOf(s.log, i) == Closed(s.slots[i].timeStart, s.slots[i].timeStop))
            && SlotAgrees(s', i) && History(s'.log)
            && !PhaseOf(s'.log, i).Closed?
            && (forall j: nat | j != i :: PhaseOf(s'.log, j) == PhaseOf(s.log, j))
  {
    var s', w0, i := Worked(s, step), step.w, s.workers[step.w].slot;
    assert Live(s, w0, i) && SlotAgrees(s, i);
    forall w | 0 <= w < |s.workers| && Live(s', w, i) ensures w == w0 { assert Live(s, w, i); }
    match step {
      case Publish(_) =>
        HistoryAppend(s.log, Sent(i, s.slots[i].timeStart, s.slots[i].timeStop));
        assert Live(s', w0, i);
      case Release(_) =>
        HistoryAppend(s.log, Released(i));
        assert !Live(s', w0, i);
      case ClearStart(_) => assert Live(s', w0, i);
      case ClearStop(_) => assert Live(s', w0, i);
    }
  }

  lemma WorkerKeepsOtherSlot(s: State, step: Step, j: nat)
    requires Invariant(s) && WorkerStepEnabled(s, step) && j < SLOTS && j != s.workers[step.w].slot
    ensures SlotAgrees(Worked(s, step), j)
  {
    hide PhaseOf, SlotAgrees, History, WorkersApart;
    WorkerKeepsOwnSlot(s, step);
    assert SlotAgrees(s, j);
    OthersAgree(s, Worked(s, step), j);
  }

  lemma WorkerKeepsWorkersApart(s: State, step: Step)
    requires Shaped(s) && WorkersApart(s) && WorkerStepEnabled(s, step)
    ensures WorkersApart(Worked(s, step))
  {
    var s' := Worked(s, step);
    forall v, w, j: nat | j < SLOTS && Live(s', v, j) && Live(s', w, j) ensures v == w {
      assert Live(s, v, j) && Live(s, w, j);
    }
  }

  lemma WorkerKeepsInvariant(s: State, step: Step)
    requires Invariant(s) && WorkerStepEnabled(s, step)
    ensures Invariant(After(s, step))
  {
    hide SlotAgrees, History, WorkersApart, Worked, PhaseOf;
    WorkerKeepsOwnSlot(s, step);
    WorkerKeepsWorkersApart(s, step);
    forall j: nat | j < SLOTS ensures SlotAgrees(Worked(s, step), j) {
      if j != s.workers[step.w].slot { WorkerKeepsOtherSlot(s, step, j); }
    }
  }

  predicate Runs(s: State, steps: seq<Step>)
    requires Shaped(s)
    decreases |steps|
  {
    steps == [] || (Enabled(s, steps[0]) && Runs(After(s, steps[0]), steps[1..]))
  }

  function Run(s: State, steps: seq<Step>): (s': State)
    requires Shaped(s) && Runs(s, steps)
    ensures Shaped(s')
    decreases |steps|
  {
    if steps == [] then s else Run(After(s, steps[0]), steps[1..])
  }

  /** In every interleaving of callbacks and workers: free slots are clean, a running slot has exactly one live worker,
      and each slot goes through claimed, stopped, sent and released in turn, what is sent being the start and stop of
      that very cycle, whatever other callbacks and workers have done in between. */
  lemma {:induction false} RunKeepsInvariant(s: State, steps: seq<Step>)
    requires Invariant(s) && Runs(s, steps)
    ensures Invariant(Run(s, steps))
    decreases |steps|
  {
    if steps != [] {
      if steps[0].MotionStart? || steps[0].MotionStop? {
        CallbackKeepsInvariant(s, steps[0]);
      } else {
        WorkerKeepsInvariant(s, steps[0]);
      }
      RunKeepsInvariant(After(s, steps[0]), steps[1..]);
    }
  }

  lemma InitialInvariant()
    ensures Invariant(INITIAL)
  {
    assert forall i: nat | i < SLOTS :: INITIAL.slots[i] == FREE;
  }

  /** A stop never finds a waiting slot whose start time is zero. */
  lemma ZeroStartUnreachable(steps: seq<Step>)
    requires Runs(INITIAL, steps)
    ensures var s := Run(INITIAL, steps);
            var i := Find(s.slots, Waiting);
            i >= 0 ==> s.slots[i].timeStart != 0
  {
    InitialInvariant();
    RunKeepsInvariant(INITIAL, steps);
    var s := Run(INITIAL, steps);
    var i := Find(s.slots, Waiting);
    if i >= 0 { assert SlotAgrees(s, i); }
  }

  lemma {:induction false} RunConcat(s: State, a: seq<Step>, b: seq<Step>)
    requires Shaped(s)
    ensures Runs(s, a + b) <==> Runs(s, a) && Runs(Run(s, a), b)
    ensures Runs(s, a + b) ==> Run(s, a + b) == Run(Run(s, a), b)
    decreases |a|
  {
    hide After, Enabled;
    if a == [] {
      assert a + b == b;
    } else {
      assert (a + b)[1..] == a[1..] + b;
      if Enabled(s, a[0]) { RunConcat(After(s, a[0]), a[1..], b); }
    }
  }

  lemma RunOne(s: State, step: Step)
    requires Shaped(s) && Enabled(s, step)
    ensures Runs(s, [step]) && Run(s, [step]) == After(s, step)
  {
    hide After, Enabled;
    assert [step][1..] == [];
  }

  /** Nothing is ever taken out of the history. */
  lemma {:induction false} LogGrows(s: State, steps: seq<Step>)
    requires Shaped(s) && Runs(s, steps)
    ensures s.log <= Run(s, steps).log
    decreases |steps|
  {
    if steps != [] {
      assert s.log <= After(s, steps[0]).log;
      hide After, Enabled;
      LogGrows(After(s, steps[0]), steps[1..]);
    }
  }

  lemma PhaseAfter(log: seq<Entry>, n: nat, slot: nat)
    requires History(log) && n < |log|
    ensures log[n].slot != slot ==> PhaseOf(log[..n + 1], slot) == PhaseOf(log[..n], slot)
    ensures Fits(log[n], PhaseOf(log[..n], log[n].slot))
    ensures log[n].slot == slot && log[n].Stopped? && log[n].created ==>
              PhaseOf(log[..n + 1], slot) == Closed(PhaseOf(log[..n], slot).from, log[n].time)
  {
    assert log[..n + 1][..n] == log[..n];
  }

  /** Up to position n of the history, the interval closed by the stop at p has been sent, or is still the slot's. */
  lemma {:induction false} ClosedUpTo(log: seq<Entry>, p: nat, n: nat)
    requires History(log) && p < n <= |log| && log[p].Stopped? && log[p].created
    ensures PhaseOf(log[..p], log[p].slot).InUse?
    ensures var slot, from, to := log[p].slot, PhaseOf(log[..p], log[p].slot).from, log[p].time;
            || PhaseOf(log[..n], slot) == Closed(from, to)
            || exists q :: p < q < n && log[q] == Sent(slot, from, to)
    decreases n
  {
    hide PhaseOf, History;
    PhaseAfter(log, p, log[p].slot);
    if p + 1 < n {
      ClosedUpTo(log, p, n - 1);
      PhaseAfter(log, n - 1, log[p].slot);
    }
  }

  /** The interval closed by a stop that found a worker is sent later on, or is still the slot's own. */
  lemma NothingClosedIsLost(log: seq<Entry>, p: nat)
    requires History(log) && p < |log| && log[p].Stopped? && log[p].created
    ensures PhaseOf(log[..p], log[p].slot).InUse?
    ensures var slot, from, to := log[p].slot, PhaseOf(log[..p], log[p].slot).from, log[p].time;
            || PhaseOf(log, slot) == Closed(from, to)
            || exists q :: p < q < |log| && log[q] == Sent(slot, from, to)
  {
    ClosedUpTo(log, p, |log|);
    assert log[..|log|] == log;
  }

  /** A slot whose interval is still its own runs and has a worker that will send just that. */
  lemma ClosedHasWorker(s: State, slot: nat) returns (w: nat)
    requires Invariant(s) && slot < SLOTS && PhaseOf(s.log, slot).Closed?
    ensures Live(s, w, slot) && s.workers[w].stage == Asleep
    ensures After(s, Publish(w)).log == s.log + [Sent(slot, PhaseOf(s.log, slot).from, PhaseOf(s.log, slot).to)]
  {
    assert SlotAgrees(s, slot);
    w :| Live(s, w, slot);
  }

  // ---------------------------------------------------------------------------------------------------------
  // Which start a stop is paired with

  predicate OnlyWork(steps: seq<Step>) {
    forall i | 0 <= i < |steps| :: !steps[i].MotionStart? && !steps[i].MotionStop?
  }

  lemma WorkerLeavesWaiting(s: State, step: Step, i: nat)
    requires Invariant(s) && WorkerStepEnabled(s, step) && i < SLOTS
    ensures Worked(s, step).slots[i].running == Waiting <==> s.slots[i].running == Waiting
    ensures s.slots[i].running == Waiting ==> Worked(s, step).slots[i] == s.slots[i]
  {
    WorkerKeepsOwnSlot(s, step);
  }

  /** However long the workers run on their own, the same slots wait. */
  lemma {:induction false} WorkLeavesWaiting(s: State, work: seq<Step>)
    requires Invariant(s) && OnlyWork(work) && Runs(s, work)
    ensures Invariant(Run(s, work))
    ensures forall i | 0 <= i < SLOTS :: Run(s, work).slots[i].running == Waiting <==> s.slots[i].running == Waiting
    ensures forall i | 0 <= i < SLOTS && s.slots[i].running == Waiting :: Run(s, work).slots[i] == s.slots[i]
    decreases |work|
  {
    if work != [] {
      assert WorkerStepEnabled(s, work[0]);
      WorkerKeepsInvariant(s, work[0]);
      hide SlotAgrees, History, WorkersApart;
      var s1 := After(s, work[0]);
      WorkLeavesWaiting(s1, work[1..]);
      forall i | 0 <= i < SLOTS
        ensures s1.slots[i].running == Waiting <==> s.slots[i].running == Waiting
        ensures s.slots[i].running == Waiting ==> s1.slots[i] == s.slots[i]
      {
        WorkerLeavesWaiting(s, work[0], i);
      }
    }
  }

  /** A stop hands on the lowest waiting slot. */
  lemma StopTakesLowestWaiting(s: State, i: nat, stopped: int, created: bool)
    requires Invariant(s) && stopped != 0 && i < SLOTS && s.slots[i].running == Waiting
    ensures Ended(s, stopped, created).log == s.log + [Stopped(i, stopped, created)]
       <==> forall j | 0 <= j < i :: s.slots[j].running != Waiting
  {
    var lowest := Find(s.slots, Waiting);
    assert 0 <= lowest <= i && SlotAgrees(s, lowest);
    assert Ended(s, stopped, created).log == s.log + [Stopped(lowest, stopped, created)];
    assert (s.log + [Stopped(lowest, stopped, created)])[|s.log|] == Stopped(lowest, stopped, created);
  }

  /** A stop that follows an accepted start, with any steps of workers between them, closes that start's slot exactly
      when no lower slot was waiting already. */
  lemma StopClosesLatestStart(s: State, started: int, work: seq<Step>, stopped: int, created: bool)
    requires Invariant(s) && started != 0 && stopped != 0 && Find(s.slots, Available) >= 0
    requires OnlyWork(work) && Runs(Started(s, started), work)
    ensures var s1 := Run(Started(s, started), work);
            var claimed := Find(s.slots, Available);
            Ended(s1, stopped, created).log == s1.log + [Stopped(claimed, stopped, created)]
            <==> forall j | 0 <= j < claimed :: s.slots[j].running != Waiting
  {
    var claimed := Find(s.slots, Available);
    var s0 := Started(s, started);
    CallbackKeepsInvariant(s, MotionStart(started));
    assert s0 == After(s, MotionStart(started)) && s0.slots[claimed].running == Waiting;
    WorkLeavesWaiting(s0, work);
    StopTakesLowestWaiting(Run(s0, work), claimed, stopped, created);
    forall j | 0 <= j < claimed ensures s0.slots[j] == s.slots[j] {}
  }

  lemma FindIs(slots: seq<Slot>, use: Use, i: nat)
    requires i < |slots| && slots[i].running == use && forall j | 0 <= j < i :: slots[j].running != use
    ensures Find(slots, use) == i
  {
  }

  /** Two starts, a stop, a start, a stop, and the second worker's message. */
  const DOUBLE_START: seq<Step> :=
    [MotionStart(10), MotionStart(11), MotionStop(12, true), MotionStart(20), MotionStop(21, true), Publish(1)]

  lemma RunStep(s: State, step: Step, rest: seq<Step>, steps: seq<Step>)
    requires Shaped(s) && Enabled(s, step) && Runs(After(s, step), rest)
    requires steps != [] && steps[0] == step && steps[1..] == rest
    ensures Runs(s, steps) && Run(s, steps) == Run(After(s, step), rest)
  {
  }

  /** Two starts in a row make the pairing slip: the second stop closes the slot of the second start, although a stop
      and another start have come in between, and the interval sent is 11 to 21. */
  lemma DoubleStartSlips()
    ensures Runs(INITIAL, DOUBLE_START) && Sent(1, 11, 21) in Run(INITIAL, DOUBLE_START).log
  {
    FirstThreeOfDoubleStart();
    var d := DOUBLE_START;
    var s3 := State([Slot(Running, 10, 12), Slot(Waiting, 11, 0), FREE], [Worker(0, Asleep)],
                    [Claimed(0, 10), Claimed(1, 11), Stopped(0, 12, true)]);
    FindIs(s3.slots, Available, 2);
    var s4 := Started(s3, 20);
    assert s4.slots == [Slot(Running, 10, 12), Slot(Waiting, 11, 0), Slot(Waiting, 20, 0)];
    FindIs(s4.slots, Waiting, 1);
    var s5 := Ended(s4, 21, true);
    assert s5.slots[1] == Slot(Running, 11, 21) && s5.workers == [Worker(0, Asleep), Worker(1, Asleep)];
    var s6 := Worked(s5, Publish(1));
    assert s6.log[|s5.log|] == Sent(1, 11, 21);
    hide Started, Ended, Worked;
    assert d[3..][1..] == d[4..] && d[4..][1..] == d[5..] && d[5..][1..] == [];
    RunStep(s5, Publish(1), [], d[5..]);
    RunStep(s4, MotionStop(21, true), d[5..], d[4..]);
    RunStep(s3, MotionStart(20), d[4..], d[3..]);
    DoubleStartThrough(s3);
  }

  lemma FirstThreeOfDoubleStart()
    ensures var s := Ended(Started(Started(INITIAL, 10), 11), 12, true);
            s == State([Slot(Running, 10, 12), Slot(Waiting, 11, 0), FREE], [Worker(0, Asleep)],
                       [Claimed(0, 10), Claimed(1, 11), Stopped(0, 12, true)])
  {
    FindIs(INITIAL.slots, Available, 0);
    var s1 := Started(INITIAL, 10);
    assert s1 == State([Slot(Waiting, 10, 0), FREE, FREE], [], [Claimed(0, 10)]);
    FindIs(s1.slots, Available, 1);
    var s2 := Started(s1, 11);
    assert s2 == State([Slot(Waiting, 10, 0), Slot(Waiting, 11, 0), FREE], [], [Claimed(0, 10), Claimed(1, 11)]);
    FindIs(s2.slots, Waiting, 0);
  }

  lemma DoubleStartThrough(s3: State)
    requires s3 == Ended(Started(Started(INITIAL, 10), 11), 12, true) && Runs(s3, DOUBLE_START[3..])
    ensures Runs(INITIAL, DOUBLE_START) && Run(INITIAL, DOUBLE_START) == Run(s3, DOUBLE_START[3..])
  {
    hide Started, Ended;
    var d := DOUBLE_START;
    assert d[1..][1..] == d[2..] && d[2..][1..] == d[3..];
    var s1 := Started(INITIAL, 10);
    var s2 := Started(s1, 11);
    RunStep(s2, MotionStop(12, true), d[3..], d[2..]);
    RunStep(s1, MotionStart(11), d[2..], d[1..]);
    RunStep(INITIAL, MotionStart(10), d[1..], d);
  }
}
