/** The frame table that the camera process writes and h264grabber follows.

    Another process stores one record per frame in a circular table of `size` slots; the grabber scans the table
    once for the newest record and then walks it slot by slot, copying a frame out as soon as its successor has
    appeared. `kind` selects between the video loop (16-bit frame counter) and the audio loop (32-bit time stamp),
    which share everything except the field they compare and the comparison itself. */
module FrameRing {
  import opened Arithmetic

  datatype Kind = Video | Audio

  /** One table record: the start byte (1 once written), the counter or time stamp, and where the frame lies. */
  datatype Record = Record(start: int, tag: nat, offset: nat, length: nat)

  const NEVER_WRITTEN := Record(0, 0, 0, 0)
  const WRAP16: nat := 0x1_0000
  const WRAP32: nat := 0x1_0000_0000
  const MISSES_ALLOWED: nat := 10

  // ---------------------------------------------------------------------------------------------------------
  // The table as the writer leaves it

  /** A writer's whole life: `stream(k)` is the record of frame k. */
  type Stream = nat -> Record

  /** The slot after `slot` in the circle. */
  function NextSlot(slot: int, size: nat): int {
    if slot == size - 1 then 0 else slot + 1
  }

  /** The slot of frame k: the writer starts at slot 0 and rewinds after the last one. */
  ghost function SlotOf(k: nat, size: nat): (slot: nat)
    requires size > 0
    ensures slot < size
  {
    if k == 0 then 0 else NextSlot(SlotOf(k - 1, size), size)
  }

  /** Frame k goes to slot k modulo the table size. */
  lemma {:induction false} SlotIsModulo(k: nat, size: nat)
    requires size > 0
    ensures SlotOf(k, size) == k % size
  {
    if k == 0 {
      DivModUnique(0, size, 0, 0);
    } else {
      SlotIsModulo(k - 1, size);
      var q, r := (k - 1) / size, (k - 1) % size;
      assert k == size * q + r + 1;
      if r == size - 1 {
        assert k == size * (q + 1);
        DivModUnique(k, size, q + 1, 0);
      } else {
        DivModUnique(k, size, q, r + 1);
      }
    }
  }

  /** Going d <= size frames ahead goes d slots ahead, around the circle. */
  lemma {:induction false} SlotAhead(k: nat, d: nat, size: nat)
    requires size > 0 && d <= size
    ensures SlotOf(k + d, size)
         == if SlotOf(k, size) + d < size then SlotOf(k, size) + d else SlotOf(k, size) + d - size
  {
    if d > 0 {
      SlotAhead(k, d - 1, size);
    }
  }

  /** The table after frames 0..n-1. */
  ghost function Table(stream: Stream, n: nat, size: nat): (t: seq<Record>)
    requires size > 0
    ensures |t| == size
  {
    if n == 0 then seq(size, _ => NEVER_WRITTEN)
    else Table(stream, n - 1, size)[SlotOf(n - 1, size) := stream(n - 1)]
  }

  /** The newest of the frames 0..n-1 whose slot is `slot`. */
  ghost function Holder(n: nat, size: nat, slot: nat): (k: nat)
    requires size > 0 && slot < size && slot < n
    ensures k < n <= k + size && SlotOf(k, size) == slot
  {
    if n <= size then
      SlotAhead(0, slot, size); slot
    else
      var last := SlotOf(n - 1, size);
      var back := if slot <= last then last - slot else last - slot + size;
      SlotAhead(n - 1 - back, back, size); n - 1 - back
  }

  /** Two frames less than a whole table apart sit in the same slot only when they are the same frame. */
  lemma {:induction false} SameSlot(a: nat, b: nat, size: nat)
    requires size > 0 && SlotOf(a, size) == SlotOf(b, size) && a < b + size && b < a + size
    ensures a == b
  {
    if a <= b { SlotAhead(a, b - a, size); } else { SlotAhead(b, a - b, size); }
  }

  /** What a slot holds: nothing before its first frame, and afterwards the newest frame that belongs there. */
  lemma {:induction false} TableHolds(stream: Stream, n: nat, size: nat, slot: nat)
    requires size > 0 && slot < size
    ensures slot >= n ==> Table(stream, n, size)[slot] == NEVER_WRITTEN
    ensures slot < n ==> Table(stream, n, size)[slot] == stream(Holder(n, size, slot))
  {
    if n > 0 {
      TableHolds(stream, n - 1, size, slot);
      if n <= size { SlotAhead(0, n - 1, size); }
      if slot < n {
        var k := Holder(n, size, slot);
        if SlotOf(n - 1, size) == slot {
          SameSlot(k, n - 1, size);
        } else if slot < n - 1 {
          SameSlot(k, Holder(n - 1, size, slot), size);
        }
      }
    }
  }

  /** A frame is still in its slot exactly when fewer than `size` newer frames have been written. */
  lemma HolderExact(n: nat, size: nat, k: nat)
    requires size > 0 && k < n
    ensures SlotOf(k, size) < n
    ensures Holder(n, size, SlotOf(k, size)) == k <==> n <= k + size
  {
    if n <= size { SlotAhead(0, k, size); }
    var h := Holder(n, size, SlotOf(k, size));
    if n <= k + size {
      SameSlot(h, k, size);
    }
  }

  // ---------------------------------------------------------------------------------------------------------
  // The two acceptance tests

  /** The successor test of each loop, as written: two windows for the counter, a two-branch difference for the
      time stamp. */
  predicate Accepts(kind: Kind, next: int, cur: int) {
    match kind
    case Video =>
      (0 < next - cur && next - cur <= 10) || (0 < next + 65536 - cur && next + 65536 - cur <= 10)
    case Audio =>
      var diff := if next >= cur then next - cur else next + (0xffff_ffff - cur + 1);
      0 <= diff && diff <= 2 * 128
  }

  /** On 16-bit counters the two windows are one: the distance modulo 65536 lies in 1..10. */
  lemma AcceptsVideoIsModular(next: int, cur: int)
    requires 0 <= next < WRAP16 && 0 <= cur < WRAP16
    ensures Accepts(Video, next, cur) <==> 1 <= (next - cur) % WRAP16 <= 10
  {
    if next >= cur {
      DivModUnique(next - cur, WRAP16, 0, next - cur);
    } else {
      DivModUnique(next - cur, WRAP16, -1, next - cur + WRAP16);
    }
  }

  /** On 32-bit time stamps the two branches are subtraction modulo 2^32. */
  lemma AcceptsAudioIsModular(next: int, cur: int)
    requires 0 <= next < WRAP32 && 0 <= cur < WRAP32
    ensures Accepts(Audio, next, cur) <==> (next - cur) % WRAP32 <= 256
  {
    if next >= cur {
      DivModUnique(next - cur, WRAP32, 0, next - cur);
    } else {
      DivModUnique(next - cur, WRAP32, -1, next - cur + WRAP32);
    }
  }

  /** What the follower relies on: every frame is accepted after its predecessor, and the frame that still occupies
      the successor's slot one lap earlier is not. */
  ghost predicate Orderly(kind: Kind, stream: Stream, size: nat) {
    && size > 0
    && (forall k: nat :: stream(k).start == 1)
    && (forall k: nat, next: nat | next == k + 1 :: Accepts(kind, stream(next).tag, stream(k).tag))
    && (forall k: nat, past: nat | past + size == k + 1 :: !Accepts(kind, stream(past).tag, stream(k).tag))
  }

  /** The video writer: frame k carries k modulo 65536. */
  ghost predicate CountsFrames(stream: Stream) {
    forall k: nat :: stream(k).start == 1 && stream(k).tag == k % WRAP16
  }

  /** Counting frames keeps the table orderly for exactly the sizes up to 65526. */
  lemma VideoOrderly(stream: Stream, size: nat)
    requires CountsFrames(stream) && 0 < size <= WRAP16
    ensures Orderly(Video, stream, size) <==> size <= 65526
  {
    hide Accepts;
    forall k: nat, next: nat | next == k + 1
      ensures Accepts(Video, stream(next).tag, stream(k).tag)
    {
      AcceptsVideoIsModular(stream(next).tag, stream(k).tag);
      ModOfDifference(next, k, WRAP16);
    }
    forall k: nat, past: nat | past + size == k + 1
      ensures Accepts(Video, stream(past).tag, stream(k).tag) <==> size > 65526
    {
      AcceptsVideoIsModular(stream(past).tag, stream(k).tag);
      ModOfDifference(past, k, WRAP16);
    }
    if size > 65526 {
      assert Accepts(Video, stream(0).tag, stream(size - 1).tag);
    }
  }

  // ---------------------------------------------------------------------------------------------------------
  // Scanning for the newest record

  /** The best tag a scan starts from: -1 for counters, 0 for time stamps. */
  function ScanStart(kind: Kind): int {
    if kind.Video? then -1 else 0
  }

  predicate Written(r: Record) {
    r.start == 1
  }

  /** The slots of a table read as a rotation of one strictly increasing run: the written slots before `p` hold the
      upper part of the run, those from `p` on the lower part. */
  ghost predicate Rotated(t: seq<Record>, p: nat) {
    && p <= |t|
    && (forall i, j | 0 <= i < j < |t| && Written(t[i]) && Written(t[j]) ::
          if i < p <= j then t[j].tag < t[i].tag else t[i].tag < t[j].tag)
  }

  /** `at` is the slot of the record with the largest tag, or -1 when nothing has been written. */
  ghost predicate IsNewest(t: seq<Record>, at: int) {
    && -1 <= at < |t|
    && (at == -1 ==> forall i | 0 <= i < |t| :: !Written(t[i]))
    && (at >= 0 ==> Written(t[at]) && forall i | 0 <= i < |t| && Written(t[i]) :: t[i].tag <= t[at].tag)
  }

  /** State of the follower between two steps of its loop. */
  datatype Phase = Polling | Copying(next: int) | Lost

  class Grabber {
    const kind: Kind
    const table: array<Record>
    var currentFrame: int
    var currentTag: int
    var misses: nat
    var phase: Phase
    var out: seq<Record>

    constructor (kind: Kind, table: array<Record>)
      requires table.Length > 0
      ensures this.kind == kind && this.table == table
      ensures currentFrame == -1 && misses == 0 && phase == Lost && out == []
    {
      this.kind, this.table := kind, table;
      currentFrame, currentTag, misses, phase, out := -1, -1, 0, Lost, [];
    }

    /** The scan at the head of the outer loop. It takes the first descent for the end of the run, and `misses` is
        not reset. */
    method Scan()
      requires table.Length > 0
      modifies this
      ensures (currentFrame, currentTag) == NewestFound(table[..], 0, ScanStart(kind), -1)
      ensures phase == if currentFrame == -1 then Lost else Polling
      ensures misses == old(misses) && out == old(out)
    {
      currentFrame := -1;
      currentTag := ScanStart(kind);
      var i := 0;
      while i < table.Length
        invariant 0 <= i <= table.Length
        invariant NewestFound(table[..], 0, ScanStart(kind), -1)
               == NewestFound(table[..], i, currentTag, currentFrame)
        invariant misses == old(misses) && out == old(out)
      {
        if table[i].start == 1 {
          if table[i].tag > currentTag {
            currentTag := table[i].tag;
            currentFrame := i;
          } else {
            break;
          }
        }
        i := i + 1;
      }
      phase := if currentFrame == -1 then Lost else Polling;
    }

    /** First half of one turn of the inner loop: look at the record in the following slot. */
    method Check()
      requires phase == Polling && 0 <= currentFrame < table.Length
      modifies this
      ensures View() == Checked(kind, old(View()), table[..])
    {
      var nextSlot := if currentFrame == table.Length - 1 then 0 else currentFrame + 1;
      var next := table[nextSlot];
      if next.start != 1 {
        return;
      }
      if Accepts(kind, next.tag, currentTag) {
        phase := Copying(next.tag);
      } else {
        misses := misses + 1;
        if misses >= MISSES_ALLOWED {
          phase := Lost;
        }
      }
    }

    /** Second half: write out the frame of the current slot and step to the next one. */
    method Copy()
      requires phase.Copying? && 0 <= currentFrame < table.Length
      modifies this
      ensures View() == Copied(old(View()), table[..])
    {
      out := out + [table[currentFrame]];
      currentFrame := if currentFrame == table.Length - 1 then 0 else currentFrame + 1;
      currentTag := phase.next;
      misses := 0;
      phase := Polling;
    }

    ghost function View(): Reader
      reads this
    {
      Reader(currentFrame, currentTag, misses, phase, out)
    }
  }

  /** The scan as a function of the table: slot and tag of the record it settles on. */
  function NewestFound(t: seq<Record>, i: nat, best: int, at: int): (int, int)
    requires i <= |t|
    decreases |t| - i
  {
    if i == |t| then (at, best)
    else if t[i].start != 1 then NewestFound(t, i + 1, best, at)
    else if t[i].tag > best then NewestFound(t, i + 1, t[i].tag, i)
    else (at, best)
  }

  /** Where a scan of a rotated run ends, from any point inside the upper part on. */
  lemma {:induction false} ScanRun(t: seq<Record>, p: nat, i: nat, best: int, at: int)
    requires Rotated(t, p) && i <= |t| && -1 <= at < i
    requires at >= 0 ==> Written(t[at]) && t[at].tag == best
    requires at == -1 ==> forall j | 0 <= j < |t| && Written(t[j]) :: t[j].tag > best
    requires forall j | 0 <= j < i && Written(t[j]) :: at >= 0 && t[j].tag <= best
    ensures IsNewest(t, NewestFound(t, i, best, at).0)
    ensures NewestFound(t, i, best, at).0 >= 0 ==>
              NewestFound(t, i, best, at).1 == t[NewestFound(t, i, best, at).0].tag
    decreases |t| - i
  {
    if i == |t| {
    } else if !Written(t[i]) {
      ScanRun(t, p, i + 1, best, at);
    } else if t[i].tag > best {
      ScanRun(t, p, i + 1, t[i].tag, i);
    } else {
      // A descent: slot i opens the lower part, so everything from here on lies below the record found.
      assert at < p <= i;
      forall j | i <= j < |t| && Written(t[j])
        ensures t[j].tag <= t[at].tag
      {
      }
    }
  }

  /** The first slot that has been written, or the number of slots. */
  function FirstWritten(t: seq<Record>): (k: nat)
    ensures k <= |t|
    ensures forall j | 0 <= j < k :: !Written(t[j])
    ensures k < |t| ==> Written(t[k])
  {
    if t == [] || Written(t[0]) then 0 else 1 + FirstWritten(t[1..])
  }

  /** A scan passes over slots that have not been written. */
  lemma {:induction false} ScanSkips(t: seq<Record>, i: nat, k: nat, best: int, at: int)
    requires i <= k <= |t| && forall j | i <= j < k :: !Written(t[j])
    ensures NewestFound(t, i, best, at) == NewestFound(t, k, best, at)
    decreases k - i
  {
    if i < k { ScanSkips(t, i + 1, k, best, at); }
  }

  /** The scan begins with a best tag of -1 or 0, so a time stamp of 0 in the first written slot stops it. */
  predicate ScanSees(kind: Kind, t: seq<Record>) {
    kind.Video? || FirstWritten(t) == |t| || t[FirstWritten(t)].tag > 0
  }

  /** The first-descent scan finds the newest record of a rotation of a strictly increasing run exactly when it sees the
      first one; otherwise it reports none, whatever the table holds. */
  lemma ScanFindsNewest(kind: Kind, t: seq<Record>, p: nat)
    requires Rotated(t, p)
    ensures var (at, best) := NewestFound(t, 0, ScanStart(kind), -1);
            if ScanSees(kind, t) then IsNewest(t, at) && (at >= 0 ==> best == t[at].tag)
            else !IsNewest(t, at) && (at, best) == (-1, 0)
  {
    var k := FirstWritten(t);
    ScanSkips(t, 0, k, ScanStart(kind), -1);
    if ScanSees(kind, t) && k < |t| {
      ScanRun(t, p, k + 1, t[k].tag, k);
    }
  }

  // ---------------------------------------------------------------------------------------------------------
  // Following the table

  /** The follower's variables: `slot` and `tag` of the frame to be written out next, the count of consecutive
      rejected successors, the phase and the records written out so far. */
  datatype Reader = Reader(slot: int, tag: int, misses: nat, phase: Phase, out: seq<Record>)

  function Checked(kind: Kind, r: Reader, t: seq<Record>): Reader
    requires 0 <= r.slot < |t|
  {
    var next := t[NextSlot(r.slot, |t|)];
    if next.start != 1 then r
    else if Accepts(kind, next.tag, r.tag) then r.(phase := Copying(next.tag))
    else if r.misses + 1 < MISSES_ALLOWED then r.(misses := r.misses + 1)
    else r.(misses := r.misses + 1, phase := Lost)
  }

  function Copied(r: Reader, t: seq<Record>): Reader
    requires r.phase.Copying? && 0 <= r.slot < |t|
  {
    Reader(NextSlot(r.slot, |t|), r.phase.next, 0, Polling, r.out + [t[r.slot]])
  }

  /** Writer and follower side by side: `n` frames written so far. */
  datatype System = System(n: nat, reader: Reader)

  datatype Step = Write | Check | Copy

  /** One step of either side. A step that the follower's phase does not allow changes nothing. */
  ghost function Advance(kind: Kind, stream: Stream, size: nat, s: System, step: Step): (s': System)
    requires size > 0 && 0 <= s.reader.slot < size
    ensures 0 <= s'.reader.slot < size
  {
    match step
    case Write => s.(n := s.n + 1)
    case Check =>
      if s.reader.phase == Polling then s.(reader := Checked(kind, s.reader, Table(stream, s.n, size))) else s
    case Copy =>
      if s.reader.phase.Copying? then s.(reader := Copied(s.reader, Table(stream, s.n, size))) else s
  }

  ghost function Run(kind: Kind, stream: Stream, size: nat, s: System, steps: seq<Step>): (s': System)
    requires size > 0 && 0 <= s.reader.slot < size
    ensures 0 <= s'.reader.slot < size
    decreases |steps|
  {
    if steps == [] then s
    else Run(kind, stream, size, Advance(kind, stream, size, s, steps[0]), steps[1..])
  }

  /** The records of frames f, f+1, .., g-1. */
  ghost function Frames(stream: Stream, f: nat, g: nat): seq<Record>
    requires f <= g
  {
    seq(g - f, i requires 0 <= i < g - f => stream(f + i))
  }

  /** No frame is copied while the writer is a whole table or more ahead of it; `f` is the frame the follower started
      from. How far ahead the writer gets at other times does not matter. */
  ghost predicate Paced(kind: Kind, stream: Stream, size: nat, s: System, steps: seq<Step>, f: nat)
    requires size > 0 && 0 <= s.reader.slot < size
    decreases |steps|
  {
    steps != [] ==>
      && (steps[0] == Copy && s.reader.phase.Copying? ==> s.n <= f + |s.reader.out| + size)
      && Paced(kind, stream, size, Advance(kind, stream, size, s, steps[0]), steps[1..], f)
  }

  /** What has been written out are frames f, f+1, f+2, .., each once. */
  ghost predicate InOrder(stream: Stream, out: seq<Record>, f: nat) {
    out == Frames(stream, f, f + |out|)
  }

  /** The follower has written out exactly the frames from `f` up to the one it is at, and, unless the writer has
      overtaken it, is about to go on to the next one only when that has been written. */
  ghost predicate InStep(stream: Stream, size: nat, s: System, f: nat)
    requires size > 0
  {
    var cur := f + |s.reader.out|;
    && InOrder(stream, s.reader.out, f)
    && cur < s.n
    && s.reader.slot == SlotOf(cur, size)
    && s.reader.tag == stream(cur).tag
    && (s.reader.phase.Copying? && s.n <= cur + size ==> cur + 1 < s.n && s.reader.phase.next == stream(cur + 1).tag)
  }

  /** A successor is accepted exactly when the next frame has been written: while it has not, the slot holds nothing
      or the frame of one lap before. */
  lemma AcceptsExactlyTheSuccessor(kind: Kind, stream: Stream, size: nat, n: nat, cur: nat, next: Record)
    requires Orderly(kind, stream, size) && cur < n <= cur + size
    requires next == Table(stream, n, size)[NextSlot(SlotOf(cur, size), size)]
    ensures next.start == 1 && Accepts(kind, next.tag, stream(cur).tag) <==> cur + 1 < n
    ensures cur + 1 < n ==> next == stream(cur + 1)
  {
    var slot := SlotOf(cur + 1, size);
    TableHolds(stream, n, size, slot);
    if cur + 1 < n {
      HolderExact(n, size, cur + 1);
    } else if slot < n {
      var k := Holder(n, size, slot);
      SlotAhead(k, size, size);
      SameSlot(cur + 1, k + size, size);
    }
  }

  lemma CheckKeepsInStep(kind: Kind, stream: Stream, size: nat, s: System, f: nat)
    requires Orderly(kind, stream, size) && InStep(stream, size, s, f)
    ensures InStep(stream, size, Advance(kind, stream, size, s, Check), f)
  {
    hide InOrder, Accepts;
    if s.reader.phase == Polling {
      var t, cur := Table(stream, s.n, size), f + |s.reader.out|;
      if s.n <= cur + size {
        AcceptsExactlyTheSuccessor(kind, stream, size, s.n, cur, t[NextSlot(s.reader.slot, size)]);
      }
      assert Checked(kind, s.reader, t).out == s.reader.out;
    }
  }

  lemma FramesGrow(stream: Stream, f: nat, cur: nat)
    requires f <= cur
    ensures Frames(stream, f, cur + 1) == Frames(stream, f, cur) + [stream(cur)]
  {
  }

  lemma CopyKeepsInStep(kind: Kind, stream: Stream, size: nat, s: System, f: nat)
    requires Orderly(kind, stream, size)
    requires InStep(stream, size, s, f) && s.n <= f + |s.reader.out| + size
    ensures InStep(stream, size, Advance(kind, stream, size, s, Copy), f)
  {
    hide Table, Holder, Orderly, Frames;
    if s.reader.phase.Copying? {
      var cur := f + |s.reader.out|;
      HolderExact(s.n, size, cur);
      TableHolds(stream, s.n, size, s.reader.slot);
      FramesGrow(stream, f, cur);
      assert SlotOf(cur + 1, size) == NextSlot(SlotOf(cur, size), size);
    }
  }

  /** One step of either side keeps the follower in step, unless it copies a frame that the writer has overtaken. */
  lemma StepKeepsInStep(kind: Kind, stream: Stream, size: nat, s: System, step: Step, f: nat)
    requires Orderly(kind, stream, size) && InStep(stream, size, s, f)
    requires step == Copy && s.reader.phase.Copying? ==> s.n <= f + |s.reader.out| + size
    ensures InStep(stream, size, Advance(kind, stream, size, s, step), f)
  {
    match step
    case Write =>
    case Check => CheckKeepsInStep(kind, stream, size, s, f);
    case Copy => if s.reader.phase.Copying? { CopyKeepsInStep(kind, stream, size, s, f); }
  }

  /** Over every interleaving in which no copy comes a whole table late, the frames written out are exactly
      f, f+1, f+2, .., each once and in order, across both the rewind of the table and the wrap of the tags. */
  lemma {:induction false} FollowsInOrder(kind: Kind, stream: Stream, size: nat, s: System, steps: seq<Step>, f: nat)
    requires Orderly(kind, stream, size)
    requires InStep(stream, size, s, f) && Paced(kind, stream, size, s, steps, f)
    ensures InStep(stream, size, Run(kind, stream, size, s, steps), f)
    decreases |steps|
  {
    hide Orderly, InStep, Advance;
    SlotInTable(kind, stream, size, s, f);
    if steps != [] {
      StepKeepsInStep(kind, stream, size, s, steps[0], f);
      FollowsInOrder(kind, stream, size, Advance(kind, stream, size, s, steps[0]), steps[1..], f);
    }
  }

  lemma SlotInTable(kind: Kind, stream: Stream, size: nat, s: System, f: nat)
    requires Orderly(kind, stream, size) && InStep(stream, size, s, f)
    ensures size > 0 && 0 <= s.reader.slot < size
  {
  }

  /** The record a copy takes is frame `cur` exactly when the writer is less than a table ahead; otherwise it is the
      later frame that has replaced it. */
  lemma CopyTakesWhatTheSlotHolds(stream: Stream, size: nat, n: nat, cur: nat)
    requires size > 0 && cur < n
    ensures SlotOf(cur, size) < n
    ensures Table(stream, n, size)[SlotOf(cur, size)] == stream(Holder(n, size, SlotOf(cur, size)))
    ensures Holder(n, size, SlotOf(cur, size)) == cur <==> n <= cur + size
    ensures n > cur + size ==> Holder(n, size, SlotOf(cur, size)) >= cur + size
  {
    HolderExact(n, size, cur);
    TableHolds(stream, n, size, SlotOf(cur, size));
  }

  /** No record is that of a frame a lap or more before. */
  ghost predicate LapsDiffer(stream: Stream, size: nat) {
    forall k: nat, later: nat | k + size <= later :: stream(k) != stream(later)
  }

  /** What has been written out stays so. */
  lemma {:induction false} OutGrows(kind: Kind, stream: Stream, size: nat, s: System, steps: seq<Step>)
    requires size > 0 && 0 <= s.reader.slot < size
    ensures s.reader.out <= Run(kind, stream, size, s, steps).reader.out
    decreases |steps|
  {
    if steps != [] {
      var s1 := Advance(kind, stream, size, s, steps[0]);
      assert s.reader.out <= s1.reader.out;
      OutGrows(kind, stream, size, s1, steps[1..]);
    }
  }

  /** One copy that comes too late puts a wrong record where frame `f + |out|` belongs. */
  lemma LateCopyBreaksOrder(kind: Kind, stream: Stream, size: nat, s: System, f: nat, out: seq<Record>)
    requires size > 0 && LapsDiffer(stream, size) && InStep(stream, size, s, f) && s.reader.phase.Copying?
    requires s.n > f + |s.reader.out| + size
    requires Advance(kind, stream, size, s, Copy).reader.out <= out
    ensures !InOrder(stream, out, f)
  {
    hide Table, Holder;
    var cur := f + |s.reader.out|;
    CopyTakesWhatTheSlotHolds(stream, size, s.n, cur);
    assert out[cur - f] == stream(Holder(s.n, size, SlotOf(cur, size)));
    assert Frames(stream, f, f + |out|)[cur - f] == stream(cur);
  }

  /** That pacing is just what a whole run needs: as long as records of different laps differ, the output of a run is in
      order exactly when no copy came a table late. */
  lemma {:induction false} InOrderIffPaced(kind: Kind, stream: Stream, size: nat, s: System, steps: seq<Step>, f: nat)
    requires Orderly(kind, stream, size) && LapsDiffer(stream, size) && InStep(stream, size, s, f)
    ensures InOrder(stream, Run(kind, stream, size, s, steps).reader.out, f) <==> Paced(kind, stream, size, s, steps, f)
    decreases |steps|
  {
    hide Orderly, LapsDiffer, Advance, SlotOf;
    SlotInTable(kind, stream, size, s, f);
    if steps != [] {
      var s1 := Advance(kind, stream, size, s, steps[0]);
      if steps[0] == Copy && s.reader.phase.Copying? && s.n > f + |s.reader.out| + size {
        OutGrows(kind, stream, size, s1, steps[1..]);
        LateCopyBreaksOrder(kind, stream, size, s, f, Run(kind, stream, size, s1, steps[1..]).reader.out);
      } else {
        StepKeepsInStep(kind, stream, size, s, steps[0], f);
        InOrderIffPaced(kind, stream, size, s1, steps[1..], f);
      }
    }
  }
}
