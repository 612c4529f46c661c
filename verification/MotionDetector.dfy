/** The motion detector thread of campipe: it holds video frames on loan from the hardware, compares each with the one
    before, and turns the raw result into clean start and stop edges of a marker file. */
module MotionDetector {

  const START_TICKS: nat := 2
  const STOP_QUIET_S: int := 3

  datatype Edge = Start | Stop

  // ---------------------------------------------------------------------------------------------------------
  // Debouncing

  /** One comparison: whether it showed motion, and the clock when it was made. */
  datatype Look = Look(moved: bool, now: int)

  datatype Debounce = Debounce(motion: bool, onTicks: nat, lastMove: int)

  const AT_REST := Debounce(false, 0, 0)

  function Observe(d: Debounce, look: Look): Debounce {
    if look.moved then
      if d.motion then d.(lastMove := look.now)
      else if d.onTicks + 1 >= START_TICKS then Debounce(true, d.onTicks + 1, look.now)
      else Debounce(false, d.onTicks + 1, look.now)
    else if d.motion && look.now - d.lastMove >= STOP_QUIET_S then Debounce(false, 0, d.lastMove)
    else d.(onTicks := 0)
  }

  function ObserveAll(d: Debounce, looks: seq<Look>): Debounce
    decreases |looks|
  {
    if looks == [] then d else ObserveAll(Observe(d, looks[0]), looks[1..])
  }

  /** The debouncer after some comparisons. */
  function Debounced(looks: seq<Look>): Debounce {
    ObserveAll(AT_REST, looks)
  }

  lemma {:induction false} ObserveAllAppend(d: Debounce, looks: seq<Look>, look: Look)
    ensures ObserveAll(d, looks + [look]) == Observe(ObserveAll(d, looks), look)
    decreases |looks|
  {
    if looks == [] {
      assert (looks + [look])[1..] == [];
    } else {
      assert (looks + [look])[1..] == looks[1..] + [look];
      ObserveAllAppend(Observe(d, looks[0]), looks[1..], look);
    }
  }

  lemma DebouncedStep(looks: seq<Look>, k: nat)
    requires k < |looks|
    ensures Debounced(looks[..k + 1]) == Observe(Debounced(looks[..k]), looks[k])
  {
    assert looks[..k + 1] == looks[..k] + [looks[k]];
    ObserveAllAppend(AT_REST, looks[..k], looks[k]);
  }

  /** The last comparison before the k-th that showed motion. */
  function LastMoved(looks: seq<Look>, k: nat): (j: int)
    requires k <= |looks|
    ensures -1 <= j < k
    ensures j >= 0 ==> looks[j].moved
    ensures forall i | j < i < k :: !looks[i].moved
  {
    if k == 0 then -1 else if looks[k - 1].moved then k - 1 else LastMoved(looks, k - 1)
  }

  /** What the three variables remember about the comparisons so far. */
  lemma {:induction false} DebounceRemembers(looks: seq<Look>, k: nat)
    requires k <= |looks|
    ensures var d := Debounced(looks[..k]);
            && (!d.motion ==> d.onTicks == if k > 0 && looks[k - 1].moved then 1 else 0)
            && (d.motion ==> LastMoved(looks, k) >= 0)
            && (LastMoved(looks, k) >= 0 ==> d.lastMove == looks[LastMoved(looks, k)].now)
  {
    if k > 0 {
      DebounceRemembers(looks, k - 1);
      DebouncedStep(looks, k - 1);
    }
  }

  /** Motion starts in exactly those comparisons that show motion right after one that did. */
  lemma StartsAfterTwoMoves(looks: seq<Look>, k: nat)
    requires k < |looks| && !Debounced(looks[..k]).motion
    ensures Debounced(looks[..k + 1]).motion <==> k > 0 && looks[k - 1].moved && looks[k].moved
  {
    DebounceRemembers(looks, k);
    DebouncedStep(looks, k);
  }

  /** Motion stops in exactly those still comparisons that come at least three seconds after the last move. */
  lemma StopsAfterThreeQuietSeconds(looks: seq<Look>, k: nat)
    requires k < |looks| && Debounced(looks[..k]).motion
    ensures 0 <= LastMoved(looks, k)
    ensures !Debounced(looks[..k + 1]).motion
       <==> !looks[k].moved && looks[k].now - looks[LastMoved(looks, k)].now >= 3
  {
    DebounceRemembers(looks, k);
    DebouncedStep(looks, k);
  }

  // ---------------------------------------------------------------------------------------------------------
  // The loop, with the frames it borrows and the marker it maintains

  /** What one pass of the loop finds: no frame within the time-out, or a frame (identified by `id`), whether the
      engine compared it, the areas of the changed regions, and the clock. */
  datatype Pass = NoFrame | Frame(id: nat, compared: bool, areas: seq<nat>, now: int)

  function Sum(areas: seq<nat>): nat {
    if areas == [] then 0 else Sum(areas[..|areas| - 1]) + areas[|areas| - 1]
  }

  const WRAP32: nat := 0x1_0000_0000

  /** An unsigned 32-bit number read as a signed one. */
  function Signed32(u: nat): int {
    if u < WRAP32 / 2 then u else u - WRAP32
  }

  /** The areas are added up in 32 unsigned bits and compared as a signed number. */
  predicate Moved(p: Pass, minArea: int)
    requires p.Frame?
  {
    p.compared && |p.areas| > 0 && Signed32(Sum(p.areas) % WRAP32) >= minArea
  }

  /** `held` are the frames on loan, `peak` the most there have ever been at one time. */
  datatype State = State(havePrev: bool, prev: nat, held: multiset<nat>, peak: nat,
                         debounce: Debounce, marker: bool, edges: seq<Edge>)

  function Max(a: nat, b: nat): nat {
    if a >= b then a else b
  }

  /** One comparison debounced, and the marker file created or removed accordingly. */
  function Noted(s: State, look: Look): State {
    var d := Observe(s.debounce, look);
    if d.motion == s.debounce.motion then s.(debounce := d)
    else s.(debounce := d, marker := d.motion, edges := s.edges + [if d.motion then Start else Stop])
  }

  lemma NotedFrame(s: State, held: multiset<nat>, peak: nat, look: Look)
    ensures Noted(s.(held := held, peak := peak), look) == Noted(s, look).(held := held, peak := peak)
    ensures Noted(s, look).havePrev == s.havePrev
  {
  }

  function After(s: State, p: Pass, minArea: int): State {
    if p.NoFrame? then s
    else
      var held := s.held + multiset{p.id};
      var peak := Max(s.peak, |held|);
      if !s.havePrev then s.(havePrev := true, prev := p.id, held := held, peak := peak)
      else
        Noted(s, Look(Moved(p, minArea), p.now)).(prev := p.id, held := held - multiset{s.prev}, peak := peak)
  }

  function Run(s: State, passes: seq<Pass>, minArea: int): State
    decreases |passes|
  {
    if passes == [] then s else Run(After(s, passes[0], minArea), passes[1..], minArea)
  }

  function Exited(s: State): State {
    var held := if s.havePrev then s.held - multiset{s.prev} else s.held;
    if s.debounce.motion then s.(held := held, marker := false, edges := s.edges + [Stop]) else s.(held := held)
  }

  class Thread {
    const minArea: int
    var havePrev: bool
    var prev: nat
    var motion: bool
    var onTicks: nat
    var lastMove: int
    var held: multiset<nat>
    var peak: nat
    var marker: bool
    var edges: seq<Edge>

    ghost function View(): State
      reads this
    {
      State(havePrev, prev, held, peak, Debounce(motion, onTicks, lastMove), marker, edges)
    }

    constructor (minArea: int, marker: bool)
      ensures this.minArea == minArea && View() == Initial(marker)
    {
      this.minArea := minArea;
      havePrev, prev, motion, onTicks, lastMove := false, 0, false, 0, 0;
      held, peak, this.marker, edges := multiset{}, 0, marker, [];
    }

    /** Motion in one compared frame. */
    method Compare(p: Pass) returns (moved: bool)
      requires p.Frame?
      ensures moved == Moved(p, minArea)
    {
      moved := false;
      if p.compared {
        var area := 0;
        var i := 0;
        while i < |p.areas|
          invariant 0 <= i <= |p.areas| && area == Sum(p.areas[..i]) % WRAP32
        {
          assert p.areas[..i + 1][..i] == p.areas[..i];
          area := (area + p.areas[i]) % WRAP32;
          i := i + 1;
        }
        assert p.areas[..|p.areas|] == p.areas;
        moved := |p.areas| > 0 && Signed32(area) >= minArea;
      }
    }

    /** The debouncing half of a pass: one comparison moves the flag and the marker. */
    method Settle(moved: bool, now: int)
      modifies this`motion, this`onTicks, this`lastMove, this`marker, this`edges
      ensures View() == Noted(old(View()), Look(moved, now))
    {
      if moved {
        lastMove := now;
        if !motion {
          onTicks := onTicks + 1;
          if onTicks >= START_TICKS {
            marker := true;
            motion := true;
            edges := edges + [Start];
          }
        }
      } else {
        onTicks := 0;
        if motion && now - lastMove >= STOP_QUIET_S {
          marker := false;
          motion := false;
          edges := edges + [Stop];
        }
      }
    }

    /** One pass of the loop. */
    method Tick(p: Pass)
      modifies this
      ensures View() == After(old(View()), p, minArea)
    {
      hide Observe, Moved, Noted;
      ghost var s := View();
      if p.NoFrame? {
        return;
      }
      held := held + multiset{p.id};
      peak := Max(peak, |held|);
      if !havePrev {
        prev := p.id;
        havePrev := true;
        return;
      }
      var moved := Compare(p);
      NotedFrame(s, held, peak, Look(moved, p.now));
      Settle(moved, p.now);
      held := held - multiset{prev};
      prev := p.id;
    }

    /** The thread from its first pass until it is told to stop. */
    method Detect(passes: seq<Pass>)
      modifies this
      ensures View() == Exited(Run(old(View()), passes, minArea))
    {
      var i := 0;
      while i < |passes|
        invariant 0 <= i <= |passes|
        invariant Run(old(View()), passes, minArea) == Run(View(), passes[i..], minArea)
      {
        Tick(passes[i]);
        i := i + 1;
      }
      if havePrev {
        held := held - multiset{prev};
      }
      if motion {
        marker := false;
        edges := edges + [Stop];
      }
    }
  }

  function Initial(marker: bool): State {
    State(false, 0, multiset{}, 0, AT_REST, marker, [])
  }

  /** The comparisons that some passes amount to, from a given state on: every frame but the very first. */
  function Looks(havePrev: bool, passes: seq<Pass>, minArea: int): seq<Look>
    decreases |passes|
  {
    if passes == [] then []
    else if passes[0].NoFrame? then Looks(havePrev, passes[1..], minArea)
    else if !havePrev then Looks(true, passes[1..], minArea)
    else [Look(Moved(passes[0], minArea), passes[0].now)] + Looks(true, passes[1..], minArea)
  }

  /** The debouncer of a run sees exactly the comparisons of its passes. */
  lemma {:induction false} RunDebounces(s: State, passes: seq<Pass>, minArea: int)
    ensures Run(s, passes, minArea).debounce == ObserveAll(s.debounce, Looks(s.havePrev, passes, minArea))
    decreases |passes|
  {
    if passes != [] {
      RunDebounces(After(s, passes[0], minArea), passes[1..], minArea);
      if passes[0].Frame? && s.havePrev {
        var look, later := Look(Moved(passes[0], minArea), passes[0].now), Looks(true, passes[1..], minArea);
        assert ([look] + later)[1..] == later;
      }
    }
  }

  /** Edges alternate, beginning with a start. */
  predicate Alternating(edges: seq<Edge>) {
    forall i | 0 <= i < |edges| :: edges[i] == if i % 2 == 0 then Start else Stop
  }

  /** At the head of the loop: exactly the reference frame is on loan, no more than two ever were; the edges alternate
      up to the motion flag; and the marker is what the last edge made it, or what it was before the first. */
  ghost predicate AtLoopHead(s: State, markerBefore: bool) {
    && s.held == (if s.havePrev then multiset{s.prev} else multiset{})
    && s.peak <= 2
    && Alternating(s.edges)
    && (s.debounce.motion <==> |s.edges| % 2 == 1)
    && s.marker == (if s.edges == [] then markerBefore else s.debounce.motion)
  }

  lemma PassKeepsLoopHead(s: State, p: Pass, minArea: int, markerBefore: bool)
    requires AtLoopHead(s, markerBefore)
    ensures AtLoopHead(After(s, p, minArea), markerBefore)
  {
    if p.Frame? && s.havePrev {
      NotedKeepsEdges(s, Look(Moved(p, minArea), p.now), markerBefore);
    }
  }

  lemma NotedKeepsEdges(s: State, look: Look, markerBefore: bool)
    requires AtLoopHead(s, markerBefore)
    ensures AtLoopHead(Noted(s, look), markerBefore)
  {
    hide Observe;
  }

  lemma {:induction false} LoopHeadHolds(s: State, passes: seq<Pass>, minArea: int, markerBefore: bool)
    requires AtLoopHead(s, markerBefore)
    ensures AtLoopHead(Run(s, passes, minArea), markerBefore)
    decreases |passes|
  {
    hide After, AtLoopHead;
    if passes != [] {
      PassKeepsLoopHead(s, passes[0], minArea, markerBefore);
      LoopHeadHolds(After(s, passes[0], minArea), passes[1..], minArea, markerBefore);
    }
  }

  /** A whole run: every frame borrowed is given back, and a marker the detector has ever touched is gone. */
  lemma DetectorLeavesNothingBehind(passes: seq<Pass>, minArea: int, markerBefore: bool)
    ensures var s := Exited(Run(Initial(markerBefore), passes, minArea));
            && s.held == multiset{}
            && s.peak <= 2
            && Alternating(s.edges) && |s.edges| % 2 == 0
            && s.marker == (markerBefore && s.edges == [])
  {
    LoopHeadHolds(Initial(markerBefore), passes, minArea, markerBefore);
  }

  // ---------------------------------------------------------------------------------------------------------
  // What counts as motion

  lemma {:induction false} SumConcat(a: seq<nat>, b: seq<nat>)
    ensures Sum(a + b) == Sum(a) + Sum(b)
  {
    if b == [] {
      assert a + b == a;
    } else {
      assert (a + b)[..|a + b| - 1] == a + b[..|b| - 1];
      SumConcat(a, b[..|b| - 1]);
    }
  }

  lemma SumOne(a: nat)
    ensures Sum([a]) == a
  {
    assert [a][..0] == [];
  }

  /** One region is motion exactly when it reaches the minimum. */
  lemma SingleRegion(p: Pass, minArea: int, a: nat)
    requires p.Frame? && p.compared && p.areas == [a] && a < WRAP32 / 2
    ensures Moved(p, minArea) <==> a >= minArea
  {
    SumOne(a);
  }

  /** A total that fits 31 bits is compared as it is. */
  lemma MovedBySmallTotal(p: Pass, minArea: int)
    requires p.Frame? && Sum(p.areas) < WRAP32 / 2
    ensures Moved(p, minArea) <==> p.compared && p.areas != [] && Sum(p.areas) >= minArea
  {
    hide Sum;
  }

  lemma SumOfTwo(a: nat, b: nat)
    ensures Sum([a, b]) == a + b
  {
    SumConcat([a], [b]);
    SumOne(a);
    SumOne(b);
    assert [a] + [b] == [a, b];
  }

  /** Several regions count as ones of their added areas. */
  lemma RegionsAddUp(p: Pass, minArea: int, front: seq<nat>, back: seq<nat>)
    requires p.Frame? && p.areas == front + back && front != [] && back != []
    ensures Moved(p, minArea) == Moved(p.(areas := [Sum(front), Sum(back)]), minArea)
  {
    SumConcat(front, back);
    SumOfTwo(Sum(front), Sum(back));
    hide Sum, Signed32;
  }

  /** Neither a failed comparison nor one without regions is motion, whatever the minimum. */
  lemma NoRegionsNoMotion(p: Pass, minArea: int)
    requires p.Frame? && (!p.compared || p.areas == [])
    ensures !Moved(p, minArea)
  {
  }

  /** Regions as many or more, and each as large or larger. */
  predicate AtLeastAsLarge(more: seq<nat>, areas: seq<nat>) {
    |more| >= |areas| && forall i | 0 <= i < |areas| :: more[i] >= areas[i]
  }

  lemma {:induction false} SumGrows(more: seq<nat>, areas: seq<nat>)
    requires AtLeastAsLarge(more, areas)
    ensures Sum(more) >= Sum(areas)
  {
    if more != [] {
      var n := |more| - 1;
      if |areas| == |more| { SumGrows(more[..n], areas[..n]); } else { SumGrows(more[..n], areas); }
    }
  }

  /** A further or a larger region never turns motion into stillness, as long as the total fits 31 bits. */
  lemma MoreMotionIsMotion(p: Pass, more: seq<nat>, minArea: int)
    requires p.Frame? && Moved(p, minArea) && AtLeastAsLarge(more, p.areas) && Sum(more) < WRAP32 / 2
    ensures Moved(p.(areas := more), minArea)
  {
    SumGrows(more, p.areas);
  }

  /** At 31 bits it does: the total is read as a negative number then. */
  lemma HugeTotalIsStillness(p: Pass, minArea: nat)
    requires p.Frame? && p.areas != [] && WRAP32 / 2 <= Sum(p.areas) < WRAP32
    ensures !Moved(p, minArea)
  {
  }

  lemma {:induction false} SumOfPermuted(a: seq<nat>, b: seq<nat>)
    requires multiset(a) == multiset(b)
    ensures |a| == |b| && Sum(a) == Sum(b)
    decreases |a|
  {
    assert |multiset(a)| == |a| && |multiset(b)| == |b|;
    if a != [] {
      var n, x := |a| - 1, a[|a| - 1];
      assert x in multiset(a);
      var i :| 0 <= i < |b| && b[i] == x;
      TakenOut(a, n);
      TakenOut(b, i);
      assert a[..n] + a[n + 1..] == a[..n];
      SumOfPermuted(a[..n], b[..i] + b[i + 1..]);
    }
  }

  /** A region taken out of the list. */
  lemma TakenOut(a: seq<nat>, i: nat)
    requires i < |a|
    ensures multiset(a[..i] + a[i + 1..]) == multiset(a) - multiset{a[i]}
    ensures Sum(a) == Sum(a[..i] + a[i + 1..]) + a[i]
  {
    hide Sum;
    assert a == a[..i] + [a[i]] + a[i + 1..];
    SumConcat(a[..i] + [a[i]], a[i + 1..]);
    SumConcat(a[..i], [a[i]]);
    SumConcat(a[..i], a[i + 1..]);
    SumOne(a[i]);
  }

  /** The order of the regions does not matter. */
  lemma RegionsInAnyOrder(p: Pass, areas: seq<nat>, minArea: int)
    requires p.Frame? && multiset(areas) == multiset(p.areas)
    ensures Moved(p.(areas := areas), minArea) == Moved(p, minArea)
  {
    SumOfPermuted(areas, p.areas);
  }

  /** A comparison that shows a region of at least the minimum, all regions together fitting 31 bits. */
  predicate ShowsRegion(p: Pass, minArea: int) {
    p.Frame? && p.compared && Sum(p.areas) < WRAP32 / 2 && exists i :: 0 <= i < |p.areas| && p.areas[i] >= minArea
  }

  lemma RegionIsMotion(p: Pass, minArea: int)
    requires ShowsRegion(p, minArea)
    ensures Moved(p, minArea)
  {
    var i :| 0 <= i < |p.areas| && p.areas[i] >= minArea;
    TakenOut(p.areas, i);
    hide Sum, Moved;
    MovedBySmallTotal(p, minArea);
  }

  /** From rest, two successive frames that each show such a region start motion and create the marker. */
  lemma TwoRegionsStartMotion(s: State, p: Pass, p': Pass, minArea: int)
    requires s.havePrev && !s.debounce.motion && ShowsRegion(p, minArea) && ShowsRegion(p', minArea)
    requires s.debounce.onTicks == 0
    ensures var s' := After(After(s, p, minArea), p', minArea);
            s'.debounce.motion && s'.marker && s'.edges == s.edges + [Start]
  {
    RegionIsMotion(p, minArea);
    RegionIsMotion(p', minArea);
    hide Moved, ShowsRegion;
  }

  /** Regions that add up to less than the minimum. */
  predicate Flicker(p: Pass, minArea: int) {
    p.Frame? ==> Sum(p.areas) < WRAP32 / 2 && Sum(p.areas) < minArea
  }

  /** A run that shows nothing but flicker leaves the marker alone, however long. */
  lemma {:induction false} FlickerIsIgnored(s: State, passes: seq<Pass>, minArea: int)
    requires !s.debounce.motion && forall i | 0 <= i < |passes| :: Flicker(passes[i], minArea)
    ensures var s' := Run(s, passes, minArea); !s'.debounce.motion && s'.marker == s.marker && s'.edges == s.edges
    decreases |passes|
  {
    if passes != [] {
      assert Flicker(passes[0], minArea);
      assert passes[0].Frame? ==> !Moved(passes[0], minArea);
      hide Moved, Flicker;
      FlickerIsIgnored(After(s, passes[0], minArea), passes[1..], minArea);
    }
  }
}
