/** What the scan of FrameRing finds in the table of a writer whose tags are those of an advancing clock, kept modulo a
    power of two: the video counter, or the audio time stamps. */
module FrameTags {
  import opened Arithmetic
  import opened FrameRing

  // ---------------------------------------------------------------------------------------------------------
  // Scanning the writer's own table

  /** Whatever the table, the scan settles on a written record and remembers its tag. */
  lemma {:induction false} ScanSettlesOnRecord(t: seq<Record>, i: nat, best: int, at: int)
    requires i <= |t| && -1 <= at < i
    requires at >= 0 ==> Written(t[at]) && t[at].tag == best
    ensures var (at', best') := NewestFound(t, i, best, at);
            -1 <= at' < |t| && (at' >= 0 ==> Written(t[at']) && t[at'].tag == best')
    decreases |t| - i
  {
    if i < |t| {
      if !Written(t[i]) {
        ScanSettlesOnRecord(t, i + 1, best, at);
      } else if t[i].tag > best {
        ScanSettlesOnRecord(t, i + 1, t[i].tag, i);
      }
    }
  }

  /** Writer and follower just after a scan of the table of n frames. */
  ghost function AfterScan(kind: Kind, stream: Stream, n: nat, size: nat, misses: nat): System
    requires size > 0
  {
    var (at, best) := NewestFound(Table(stream, n, size), 0, ScanStart(kind), -1);
    System(n, Reader(at, best, misses, Polling, []))
  }

  /** So after any scan the follower is in step with the frame it has settled on, and everything it writes out until the
      next scan is in order if no copy comes a table late, and only then if records of different laps differ. */
  lemma ScanThenFollow(kind: Kind, stream: Stream, n: nat, size: nat, misses: nat, steps: seq<Step>) returns (f: nat)
    requires Orderly(kind, stream, size)
    requires 0 <= NewestFound(Table(stream, n, size), 0, ScanStart(kind), -1).0 < size
    ensures f < n <= f + size
    ensures NewestFound(Table(stream, n, size), 0, ScanStart(kind), -1).0 == SlotOf(f, size)
    ensures Paced(kind, stream, size, AfterScan(kind, stream, n, size, misses), steps, f) ==>
              InStep(stream, size, Run(kind, stream, size, AfterScan(kind, stream, n, size, misses), steps), f)
    ensures LapsDiffer(stream, size) ==>
              (InOrder(stream, Run(kind, stream, size, AfterScan(kind, stream, n, size, misses), steps).reader.out, f)
               <==> Paced(kind, stream, size, AfterScan(kind, stream, n, size, misses), steps, f))
  {
    hide Orderly, LapsDiffer, Paced;
    var t := Table(stream, n, size);
    var (at, best) := NewestFound(t, 0, ScanStart(kind), -1);
    ScanSettlesOnRecord(t, 0, ScanStart(kind), -1);
    TableHolds(stream, n, size, at);
    f := Holder(n, size, at);
    var s := AfterScan(kind, stream, n, size, misses);
    assert Frames(stream, f, f) == [];
    if Paced(kind, stream, size, s, steps, f) {
      FollowsInOrder(kind, stream, size, s, steps, f);
    }
    if LapsDiffer(stream, size) {
      InOrderIffPaced(kind, stream, size, s, steps, f);
    }
  }

  // ---------------------------------------------------------------------------------------------------------
  // The tags of an advancing clock

  /** Tags are those of a clock, kept modulo `wrap`. */
  ghost predicate Wrapped(stream: Stream, clock: nat -> nat, wrap: nat)
    requires wrap > 0
  {
    forall k: nat :: stream(k).start == 1 && stream(k).tag == clock(k) % wrap
  }

  /** The clock always advances, but less than once round within a table. */
  ghost predicate Rising(clock: nat -> nat, wrap: nat, size: nat) {
    && (forall k: nat, next: nat | next == k + 1 :: clock(k) < clock(next))
    && (forall k: nat, past: nat | past < k < past + size :: clock(k) < clock(past) + wrap)
  }

  /** The oldest frame still in a table of `size` slots after n frames. */
  function Oldest(n: nat, size: nat): nat {
    if n <= size then 0 else n - size
  }

  /** How often the clock has gone round by frame k. */
  ghost function Round(clock: nat -> nat, wrap: nat, k: nat): nat
    requires wrap > 0
  {
    clock(k) / wrap
  }

  /** The last of the frames up to n that lie in the same round as frame `from`. */
  ghost function LastInRound(clock: nat -> nat, wrap: nat, from: nat, n: nat): (f: nat)
    requires wrap > 0 && from < n
    ensures from <= f < n
    ensures forall k: nat | from <= k <= f :: Round(clock, wrap, k) == Round(clock, wrap, from)
    ensures f + 1 < n ==> Round(clock, wrap, f + 1) != Round(clock, wrap, from)
    decreases n - from
  {
    if from + 1 == n || Round(clock, wrap, from + 1) != Round(clock, wrap, from) then from
    else LastInRound(clock, wrap, from + 1, n)
  }

  /** The frame with the largest tag in a table: the newest one, unless the tags have wrapped within the table, and then
      the last one before the wrap. */
  ghost function LargestTag(clock: nat -> nat, wrap: nat, n: nat, size: nat): (f: nat)
    requires wrap > 0 && 0 < n && 0 < size
    ensures f < n <= f + size
  {
    LastInRound(clock, wrap, Oldest(n, size), n)
  }

  lemma {:induction false} ClockRises(clock: nat -> nat, wrap: nat, size: nat, a: nat, b: nat)
    requires Rising(clock, wrap, size) && a < b
    ensures clock(a) < clock(b)
    decreases b
  {
    if a + 1 < b {
      ClockRises(clock, wrap, size, a, b - 1);
    }
    assert clock(b - 1) < clock(b);
  }

  /** A later frame of the table is in the same round, or in the next one; its tag is larger, or smaller,
      accordingly. */
  lemma RoundAndTag(stream: Stream, clock: nat -> nat, wrap: nat, size: nat, a: nat, b: nat)
    requires wrap > 0 && Wrapped(stream, clock, wrap) && Rising(clock, wrap, size) && a < b < a + size
    ensures Round(clock, wrap, a) <= Round(clock, wrap, b) <= Round(clock, wrap, a) + 1
    ensures Round(clock, wrap, a) == Round(clock, wrap, b) ==> stream(a).tag < stream(b).tag
    ensures Round(clock, wrap, a) != Round(clock, wrap, b) ==> stream(b).tag < stream(a).tag
  {
    ClockRises(clock, wrap, size, a, b);
    LessThanOnceRound(clock(a), clock(b), wrap);
  }

  /** The order of tags in a table. */
  lemma TagOrder(stream: Stream, clock: nat -> nat, wrap: nat, size: nat, n: nat, a: nat, b: nat)
    requires wrap > 0 && Wrapped(stream, clock, wrap) && Rising(clock, wrap, size) && 0 < size
    requires Oldest(n, size) <= a < b < n
    ensures if a <= LargestTag(clock, wrap, n, size) < b then stream(b).tag < stream(a).tag
            else stream(a).tag < stream(b).tag
  {
    hide Wrapped, Rising, Round;
    var old', f := Oldest(n, size), LargestTag(clock, wrap, n, size);
    RoundAndTag(stream, clock, wrap, size, a, b);
    if f < b {
      RoundAndTag(stream, clock, wrap, size, old', b);
      if f + 1 < b { RoundAndTag(stream, clock, wrap, size, f + 1, b); }
      if f + 1 < a { RoundAndTag(stream, clock, wrap, size, f + 1, a); }
      if old' < a { RoundAndTag(stream, clock, wrap, size, old', a); }
      if old' < f + 1 { RoundAndTag(stream, clock, wrap, size, old', f + 1); }
    }
  }

  /** How many slots `slot` lies behind `last`, going round the circle. */
  function Behind(last: int, slot: int, size: nat): int {
    if slot <= last then last - slot else last - slot + size
  }

  lemma HolderBehind(n: nat, size: nat, slot: nat)
    requires size > 0 && slot < size && slot < n
    ensures Holder(n, size, slot) == n - 1 - Behind(SlotOf(n - 1, size), slot, size)
    ensures Oldest(n, size) <= Holder(n, size, slot)
  {
    if n <= size { SlotAhead(0, n - 1, size); }
  }

  /** Two slots before or two slots behind slot `end` hold frames of the same side of frame `f` in their order, or of
      both sides in the opposite one; and the other way round for one before and one behind. */
  lemma SlotOrder(size: nat, last: int, end: int, i: int, j: int)
    requires 0 <= last < size && 0 <= i < j < size && 0 <= end < size
    ensures var ki, kj, f := -Behind(last, i, size), -Behind(last, j, size), -Behind(last, end, size);
            if i <= end < j then ki <= f < kj || (kj < ki && !(kj <= f < ki))
            else kj <= f < ki || (ki < kj && !(ki <= f < kj))
  {
  }

  lemma PairInOrder(stream: Stream, clock: nat -> nat, wrap: nat, size: nat, n: nat, i: nat, j: nat)
    requires wrap > 0 && Wrapped(stream, clock, wrap) && Rising(clock, wrap, size) && 0 < size
    requires i < j < size && j < n
    ensures var f, ki, kj := LargestTag(clock, wrap, n, size), Holder(n, size, i), Holder(n, size, j);
            if i <= SlotOf(f, size) < j then stream(kj).tag < stream(ki).tag else stream(ki).tag < stream(kj).tag
  {
    var f, ki, kj := LargestTag(clock, wrap, n, size), Holder(n, size, i), Holder(n, size, j);
    HolderExact(n, size, f);
    HolderBehind(n, size, SlotOf(f, size));
    HolderBehind(n, size, i);
    HolderBehind(n, size, j);
    SlotOrder(size, SlotOf(n - 1, size), SlotOf(f, size), i, j);
    hide Wrapped, Rising, LargestTag, Holder, SlotOf, Oldest;
    if ki < kj {
      TagOrder(stream, clock, wrap, size, n, ki, kj);
    } else {
      TagOrder(stream, clock, wrap, size, n, kj, ki);
    }
  }

  /** The writer's table is always a rotated increasing run, the upper part ending at the largest tag. */
  lemma WriterTableRotated(stream: Stream, clock: nat -> nat, wrap: nat, size: nat, n: nat)
    requires wrap > 0 && Wrapped(stream, clock, wrap) && Rising(clock, wrap, size) && 0 < size && 0 < n
    ensures Rotated(Table(stream, n, size), SlotOf(LargestTag(clock, wrap, n, size), size) + 1)
  {
    hide Wrapped, Rising, LargestTag, Table, Holder;
    var t, p := Table(stream, n, size), SlotOf(LargestTag(clock, wrap, n, size), size) + 1;
    forall i, j | 0 <= i < j < size && Written(t[i]) && Written(t[j])
      ensures if i < p <= j then t[j].tag < t[i].tag else t[i].tag < t[j].tag
    {
      TableHolds(stream, n, size, i);
      TableHolds(stream, n, size, j);
      PairInOrder(stream, clock, wrap, size, n, i, j);
    }
  }

  /** A scan of a rotated run that sees its first record settles on its last one. */
  lemma ScanSettlesOnLast(kind: Kind, t: seq<Record>, p: nat)
    requires Rotated(t, p) && 0 < p && Written(t[p - 1])
    ensures if ScanSees(kind, t) then NewestFound(t, 0, ScanStart(kind), -1) == (p - 1, t[p - 1].tag)
            else NewestFound(t, 0, ScanStart(kind), -1) == (-1, 0)
  {
    hide NewestFound, FirstWritten, ScanSees;
    ScanFindsNewest(kind, t, p);
    var at := NewestFound(t, 0, ScanStart(kind), -1).0;
    if ScanSees(kind, t) {
      assert 0 <= at < |t| && t[p - 1].tag <= t[at].tag;
    }
  }

  /** The largest tag is the newest frame's exactly when a table's frames all lie in one round. */
  lemma NewestIsLargest(stream: Stream, clock: nat -> nat, wrap: nat, size: nat, n: nat)
    requires wrap > 0 && Wrapped(stream, clock, wrap) && Rising(clock, wrap, size) && 0 < size && 0 < n
    ensures LargestTag(clock, wrap, n, size) == n - 1
       <==> Round(clock, wrap, n - 1) == Round(clock, wrap, Oldest(n, size))
  {
    hide Wrapped, Rising, Round;
    var old', f := Oldest(n, size), LargestTag(clock, wrap, n, size);
    if f < n - 1 {
      if f + 1 < n - 1 { RoundAndTag(stream, clock, wrap, size, f + 1, n - 1); }
      if old' < f + 1 { RoundAndTag(stream, clock, wrap, size, old', f + 1); }
    }
  }

  /** A scan of the writer's table looks at slot 0 first, and sees nothing if that holds a time stamp of 0. */
  lemma ScanSeesSlotZero(kind: Kind, stream: Stream, clock: nat -> nat, wrap: nat, size: nat, n: nat)
    requires wrap > 0 && Wrapped(stream, clock, wrap) && 0 < size && 0 < n
    ensures ScanSees(kind, Table(stream, n, size)) <==> kind.Video? || Table(stream, n, size)[0].tag > 0
  {
    TableHolds(stream, n, size, 0);
  }

  /** The scan of the writer's table settles on the largest tag, unless it finds a time stamp of 0 in slot 0 and reports
      nothing. The largest tag is that of the newest frame exactly when the tags have not wrapped within the table, and
      otherwise that of the last frame before the wrap. */
  lemma ScanOfWriterTable(kind: Kind, stream: Stream, clock: nat -> nat, wrap: nat, size: nat, n: nat)
    requires wrap > 0 && Wrapped(stream, clock, wrap) && Rising(clock, wrap, size) && 0 < size && 0 < n
    ensures var f, t := LargestTag(clock, wrap, n, size), Table(stream, n, size);
            var found := NewestFound(t, 0, ScanStart(kind), -1);
            if kind.Video? || t[0].tag > 0 then found == (SlotOf(f, size), stream(f).tag) else found == (-1, 0)
    ensures LargestTag(clock, wrap, n, size) == n - 1
       <==> Round(clock, wrap, n - 1) == Round(clock, wrap, Oldest(n, size))
  {
    var t, f := Table(stream, n, size), LargestTag(clock, wrap, n, size);
    hide *;
    WriterTableRotated(stream, clock, wrap, size, n);
    NewestIsFrame(stream, clock, wrap, size, n);
    NewestIsLargest(stream, clock, wrap, size, n);
    ScanSeesSlotZero(kind, stream, clock, wrap, size, n);
    ScanSettlesOnLast(kind, t, SlotOf(f, size) + 1);
  }

  lemma NewestIsFrame(stream: Stream, clock: nat -> nat, wrap: nat, size: nat, n: nat)
    requires wrap > 0 && Wrapped(stream, clock, wrap) && 0 < size && 0 < n
    ensures var f := LargestTag(clock, wrap, n, size);
            Table(stream, n, size)[SlotOf(f, size)] == stream(f) && Written(stream(f))
  {
    var f := LargestTag(clock, wrap, n, size);
    HolderExact(n, size, f);
    TableHolds(stream, n, size, SlotOf(f, size));
  }

  /** The video counter is such a clock. */
  const COUNTER: nat -> nat := k => k

  lemma CounterRises(stream: Stream, size: nat)
    requires CountsFrames(stream) && 0 < size <= WRAP16
    ensures Wrapped(stream, COUNTER, WRAP16) && Rising(COUNTER, WRAP16, size)
  {
  }

  lemma {:induction false} LastInRoundIs(clock: nat -> nat, wrap: nat, from: nat, n: nat, f: nat)
    requires wrap > 0 && from <= f < n
    requires forall k: nat | from <= k <= f :: Round(clock, wrap, k) == Round(clock, wrap, from)
    requires f + 1 < n ==> Round(clock, wrap, f + 1) != Round(clock, wrap, from)
    ensures LastInRound(clock, wrap, from, n) == f
    decreases n - from
  {
    if from < f {
      assert Round(clock, wrap, from + 1) == Round(clock, wrap, from);
      LastInRoundIs(clock, wrap, from + 1, n, f);
    }
  }

  /** For the counter, the largest tag in closed form: the remainder of the newest frame says how far back the wrap
      is. */
  function LargestCounter(n: nat, size: nat): (f: int)
    requires 0 < n
  {
    if n <= size || (n - 1) % WRAP16 >= size - 1 then n - 1 else n - 1 - (n - 1) % WRAP16 - 1
  }

  lemma LargestCounterIsLargestTag(n: nat, size: nat)
    requires 0 < n && 0 < size <= WRAP16
    ensures LargestCounter(n, size) == LargestTag(COUNTER, WRAP16, n, size)
  {
    var last, c, f := n - 1, (n - 1) % WRAP16, LargestCounter(n, size);
    var q := last / WRAP16;
    assert last == WRAP16 * q + c;
    var old' := Oldest(n, size);
    if f == last {
      forall k: nat | old' <= k <= f ensures Round(COUNTER, WRAP16, k) == q {
        DivModUnique(k, WRAP16, q, k - WRAP16 * q);
      }
    } else {
      forall k: nat | old' <= k <= f ensures Round(COUNTER, WRAP16, k) == q - 1 {
        DivModUnique(k, WRAP16, q - 1, k - WRAP16 * (q - 1));
      }
      DivModUnique(f + 1, WRAP16, q, 0);
    }
    LastInRoundIs(COUNTER, WRAP16, old', n, f);
  }

  /** A table in which the scan misses the newest frame: of two slots, when the counter has just wrapped. */
  lemma ScanMissesWrappedCounter(stream: Stream)
    requires CountsFrames(stream)
    ensures Table(stream, 65537, 2)[0] == stream(65536)
    ensures NewestFound(Table(stream, 65537, 2), 0, ScanStart(Video), -1) == (1, 65535)
  {
    hide NewestFound, Table;
    CounterRises(stream, 2);
    ScanOfWriterTable(Video, stream, COUNTER, WRAP16, 2, 65537);
    LargestCounterIsLargestTag(65537, 2);
    SlotIsModulo(65535, 2);
    SlotIsModulo(65536, 2);
    HolderExact(65537, 2, 65536);
    TableHolds(stream, 65537, 2, 0);
  }

  /** Time stamps in steps of a packet's 128 ms, beginning at 0. */
  const PACKETS: nat -> nat := k => 128 * k

  lemma PacketStampIsZero(k: nat)
    ensures PACKETS(k) % WRAP32 == 0 <==> k % 0x200_0000 == 0
  {
    var q, r := k / 0x200_0000, k % 0x200_0000;
    assert 128 * k == WRAP32 * q + 128 * r;
    DivModUnique(128 * k, WRAP32, q, 128 * r);
  }

  /** With such time stamps the audio scan reports nothing exactly while slot 0 holds a frame whose number is a multiple
      of 2^25: at the start until the table has been filled and slot 0 rewritten, and again at each wrap. */
  lemma AudioScanIsBlindExactly(stream: Stream, size: nat, n: nat)
    requires Wrapped(stream, PACKETS, WRAP32) && 0 < size <= 0x200_0000 && 0 < n
    ensures NewestFound(Table(stream, n, size), 0, ScanStart(Audio), -1).0 == -1
       <==> Holder(n, size, 0) % 0x200_0000 == 0
    ensures n <= size ==> NewestFound(Table(stream, n, size), 0, ScanStart(Audio), -1) == (-1, 0)
  {
    hide NewestFound, Table;
    assert Rising(PACKETS, WRAP32, size);
    ScanOfWriterTable(Audio, stream, PACKETS, WRAP32, size, n);
    TableHolds(stream, n, size, 0);
    PacketStampIsZero(Holder(n, size, 0));
  }

  // ---------------------------------------------------------------------------------------------------------
  // Which time stamps the follower can rely on

  /** The audio writer: time stamps are those of a clock, kept modulo 2^32. */
  ghost predicate StampsFrames(stream: Stream, clock: nat -> nat) {
    forall k: nat :: stream(k).start == 1 && stream(k).tag == clock(k) % WRAP32
  }

  /** The clock never goes back, and not once round between a frame and the next, or the one a table earlier. */
  ghost predicate Steady(clock: nat -> nat, size: nat) {
    && (forall k: nat, next: nat | next == k + 1 :: clock(k) <= clock(next) < clock(k) + WRAP32)
    && (forall k: nat, past: nat | past + size == k + 1 :: 0 <= clock(k) - clock(past) < WRAP32)
  }

  /** Successive frames are at most 256 apart, and the frames of one table neither all have the same time stamp nor span
      almost 2^32. */
  ghost predicate CloseTogether(clock: nat -> nat, size: nat) {
    && (forall k: nat, next: nat | next == k + 1 :: clock(next) - clock(k) <= 256)
    && (forall k: nat, past: nat | past + size == k + 1 :: 0 < clock(k) - clock(past) < WRAP32 - 256)
  }

  lemma StampAccepted(stream: Stream, clock: nat -> nat, later: nat, earlier: nat)
    requires StampsFrames(stream, clock) && 0 <= clock(later) - clock(earlier) < WRAP32
    ensures Accepts(Audio, stream(later).tag, stream(earlier).tag) <==> clock(later) - clock(earlier) <= 256
    ensures Accepts(Audio, stream(earlier).tag, stream(later).tag)
       <==> !(0 < clock(later) - clock(earlier) < WRAP32 - 256)
  {
    hide Accepts;
    AcceptsAudioIsModular(stream(later).tag, stream(earlier).tag);
    AcceptsAudioIsModular(stream(earlier).tag, stream(later).tag);
    ModOfDifference(clock(later), clock(earlier), WRAP32);
    ModOfDifference(clock(earlier), clock(later), WRAP32);
  }

  /** Time stamps of a steady clock keep the table orderly exactly when they are close together. */
  lemma AudioOrderly(stream: Stream, clock: nat -> nat, size: nat)
    requires StampsFrames(stream, clock) && Steady(clock, size) && size > 0
    ensures Orderly(Audio, stream, size) <==> CloseTogether(clock, size)
  {
    hide Accepts;
    forall k: nat, next: nat | next == k + 1
      ensures Accepts(Audio, stream(next).tag, stream(k).tag) <==> clock(next) - clock(k) <= 256
    {
      StampAccepted(stream, clock, next, k);
    }
    forall k: nat, past: nat | past + size == k + 1
      ensures Accepts(Audio, stream(past).tag, stream(k).tag) <==> !(0 < clock(k) - clock(past) < WRAP32 - 256)
    {
      StampAccepted(stream, clock, k, past);
    }
  }
}
