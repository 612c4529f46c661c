/** When the follower of FrameRing loses synchronisation with the video writer, and where the scan after that takes it. */
module SyncLoss {
  import opened Arithmetic
  import opened FrameRing
  import opened FrameTags

  // ---------------------------------------------------------------------------------------------------------
  // What is counted

  /** A look at a record that has been written but does not follow on the frame the reader is at. */
  ghost predicate Rejects(kind: Kind, stream: Stream, size: nat, s: System, step: Step)
    requires size > 0 && 0 <= s.reader.slot < size
  {
    step == Check && s.reader.phase == Polling &&
    var next := Table(stream, s.n, size)[NextSlot(s.reader.slot, size)];
    next.start == 1 && !Accepts(kind, next.tag, s.reader.tag)
  }

  /** How many looks of a run have been rejected since the last frame was copied, or, if none was, since its beginning and
      with `before` counted. Looks at a record that is not there yet neither count nor start the count again. */
  ghost function RejectedInARow(kind: Kind, stream: Stream, size: nat, s: System, steps: seq<Step>, before: nat): nat
    requires size > 0 && 0 <= s.reader.slot < size
    decreases |steps|
  {
    if steps == [] then before
    else
      var now := if steps[0] == Copy && s.reader.phase.Copying? then 0
                 else if Rejects(kind, stream, size, s, steps[0]) then before + 1 else before;
      RejectedInARow(kind, stream, size, Advance(kind, stream, size, s, steps[0]), steps[1..], now)
  }

  /** Over any run of writer and follower the misses are the rejections in a row: every frame copied starts them again. */
  lemma {:induction false} MissesAreRejectedInARow(kind: Kind, stream: Stream, size: nat, s: System, steps: seq<Step>)
    requires size > 0 && 0 <= s.reader.slot < size
    ensures Run(kind, stream, size, s, steps).reader.misses
         == RejectedInARow(kind, stream, size, s, steps, s.reader.misses)
    decreases |steps|
  {
    hide Table, Accepts;
    if steps != [] {
      MissesAreRejectedInARow(kind, stream, size, Advance(kind, stream, size, s, steps[0]), steps[1..]);
    }
  }

  /** A follower that gives up with its tenth miss stays so in every run. */
  lemma {:induction false} LostAtTenMisses(kind: Kind, stream: Stream, size: nat, s: System, steps: seq<Step>)
    requires size > 0 && 0 <= s.reader.slot < size
    requires s.reader.phase == Lost <==> s.reader.misses >= MISSES_ALLOWED
    ensures var r := Run(kind, stream, size, s, steps).reader; r.phase == Lost <==> r.misses >= MISSES_ALLOWED
    decreases |steps|
  {
    hide Table, Accepts;
    if steps != [] {
      LostAtTenMisses(kind, stream, size, Advance(kind, stream, size, s, steps[0]), steps[1..]);
    }
  }

  /** So a run from fewer than ten misses gives up exactly when ten looks in a row have been rejected, with no frame copied
      between them. */
  lemma LostAfterTenRejected(kind: Kind, stream: Stream, size: nat, s: System, steps: seq<Step>)
    requires size > 0 && 0 <= s.reader.slot < size && s.reader.phase != Lost && s.reader.misses < 10
    ensures Run(kind, stream, size, s, steps).reader.phase == Lost
       <==> RejectedInARow(kind, stream, size, s, steps, s.reader.misses) >= 10
  {
    hide RejectedInARow, Run;
    MissesAreRejectedInARow(kind, stream, size, s, steps);
    LostAtTenMisses(kind, stream, size, s, steps);
  }

  // ---------------------------------------------------------------------------------------------------------
  // When synchronisation is lost, and what the next scan does

  /** A follower in step rejects a look exactly when it comes early, the following slot holding the frame of one lap
      before. */
  lemma RejectsEarlyLooksExactly(kind: Kind, stream: Stream, size: nat, s: System, f: nat)
    requires Orderly(kind, stream, size) && InStep(stream, size, s, f) && s.reader.phase == Polling
    requires s.n <= f + |s.reader.out| + size
    ensures Rejects(kind, stream, size, s, Check) <==> s.n == f + |s.reader.out| + 1 && s.n >= size
  {
    hide Accepts;
    var cur := f + |s.reader.out|;
    var t, slot := Table(stream, s.n, size), NextSlot(s.reader.slot, size);
    AcceptsExactlyTheSuccessor(kind, stream, size, s.n, cur, t[slot]);
    TableHolds(stream, s.n, size, slot);
    if s.n == cur + 1 && s.n < size {
      SlotAhead(0, s.n, size);
    }
  }

  /** So it gives up exactly when it does and nine looks have failed already, in this loop or, `misses` surviving a scan,
      in earlier ones. */
  lemma LosesSyncExactly(kind: Kind, stream: Stream, size: nat, s: System, f: nat)
    requires Orderly(kind, stream, size) && InStep(stream, size, s, f) && s.reader.phase == Polling
    requires s.n <= f + |s.reader.out| + size
    ensures Advance(kind, stream, size, s, Check).reader.phase == Lost
       <==> s.n == f + |s.reader.out| + 1 && s.n >= size && s.reader.misses + 1 >= MISSES_ALLOWED
  {
    RejectsEarlyLooksExactly(kind, stream, size, s, f);
    hide Accepts, Table, InStep, Orderly;
  }

  /** The scan after a loss of synchronisation, `m` frames having been written, goes on with the awaited frame `cur`
      exactly when that is the frame with the largest tag and the scan sees anything. In all other cases it passes over
      `cur`, goes back before it, or reports nothing. */
  lemma RescanContinuesExactly(kind: Kind, stream: Stream, clock: nat -> nat, wrap: nat, size: nat, m: nat, cur: nat)
    requires wrap > 0 && Wrapped(stream, clock, wrap) && Rising(clock, wrap, size) && cur < m <= cur + size
    ensures var t := Table(stream, m, size);
            NewestFound(t, 0, ScanStart(kind), -1) == (SlotOf(cur, size), stream(cur).tag)
            <==> LargestTag(clock, wrap, m, size) == cur && (kind.Video? || t[0].tag > 0)
  {
    hide Table, Wrapped, Rising, NewestFound, LargestTag, Round;
    ScanOfWriterTable(kind, stream, clock, wrap, size, m);
    var f := LargestTag(clock, wrap, m, size);
    if SlotOf(f, size) == SlotOf(cur, size) { SameSlot(f, cur, size); }
  }

  /** For the video counter: when nothing has been written since and the counter has not wrapped within the table, or
      when `cur` is the last frame before a wrap. */
  lemma VideoRescanContinuesExactly(stream: Stream, size: nat, m: nat, cur: nat)
    requires CountsFrames(stream) && 0 < size <= 65526 && cur < m <= cur + size
    ensures NewestFound(Table(stream, m, size), 0, ScanStart(Video), -1) == (SlotOf(cur, size), stream(cur).tag)
       <==> if m == cur + 1 then m <= size || cur % WRAP16 >= size - 1 else (cur + 1) % WRAP16 == 0
  {
    hide Table, CountsFrames, NewestFound, LargestTag;
    CounterRises(stream, size);
    RescanContinuesExactly(Video, stream, COUNTER, WRAP16, size, m, cur);
    LargestCounterIsLargestTag(m, size);
    ContinuesAtCounter(m, size, cur);
  }

  lemma ContinuesAtCounter(m: nat, size: nat, cur: nat)
    requires 0 < size <= 65526 && cur < m <= cur + size
    ensures LargestCounter(m, size) == cur
       <==> if m == cur + 1 then m <= size || cur % WRAP16 >= size - 1 else (cur + 1) % WRAP16 == 0
  {
    var last, c := m - 1, (m - 1) % WRAP16;
    var q := last / WRAP16;
    assert last == WRAP16 * q + c;
    if m > cur + 1 {
      if last - c - 1 == cur {
        DivModUnique(cur + 1, WRAP16, q, 0);
      } else if (cur + 1) % WRAP16 == 0 {
        var r := (cur + 1) / WRAP16;
        assert cur + 1 == WRAP16 * r;
        DivModUnique(last, WRAP16, r, last - (cur + 1));
      }
    }
  }

  function Checks(j: nat): seq<Step> {
    seq(j, _ => Check)
  }

  /** Looks at a stale slot are counted until the tenth. */
  lemma {:induction false} StaleLooks(stream: Stream, size: nat, s: System, f: nat, j: nat)
    requires CountsFrames(stream) && 0 < size <= 65526
    requires InStep(stream, size, s, f) && s.reader.phase == Polling
    requires s.n == f + |s.reader.out| + 1 && s.n >= size
    requires 0 < j && s.reader.misses + j <= MISSES_ALLOWED
    ensures Run(Video, stream, size, s, Checks(j))
         == s.(reader := s.reader.(misses := s.reader.misses + j,
                                   phase := if s.reader.misses + j == MISSES_ALLOWED then Lost else Polling))
    decreases j
  {
    hide Accepts, Table, CountsFrames, Frames;
    VideoOrderly(stream, size);
    LosesSyncExactly(Video, stream, size, s, f);
    StaleLook(stream, size, s, f);
    var s1 := Advance(Video, stream, size, s, Check);
    assert Checks(j)[1..] == Checks(j - 1);
    if j > 1 {
      StaleLooks(stream, size, s1, f, j - 1);
    }
  }

  lemma StaleLook(stream: Stream, size: nat, s: System, f: nat)
    requires Orderly(Video, stream, size) && InStep(stream, size, s, f) && s.reader.phase == Polling
    requires s.n == f + |s.reader.out| + 1 && s.n >= size
    ensures var s1 := Advance(Video, stream, size, s, Check);
            s1 == s.(reader := s.reader.(misses := s.reader.misses + 1, phase := s1.reader.phase))
            && (s1.reader.phase == Lost || s1.reader.phase == Polling)
  {
    hide Accepts;
    var t, slot := Table(stream, s.n, size), NextSlot(s.reader.slot, size);
    AcceptsExactlyTheSuccessor(Video, stream, size, s.n, s.n - 1, t[slot]);
    TableHolds(stream, s.n, size, slot);
  }

  /** The scan that follows a loss: it sets the slot and the tag, and leaves the rest of the follower alone. */
  ghost function Rescanned(stream: Stream, size: nat, s: System): System
    requires size > 0
  {
    var (at, best) := NewestFound(Table(stream, s.n, size), 0, ScanStart(Video), -1);
    s.(reader := s.reader.(slot := at, tag := best, phase := if at == -1 then Lost else Polling))
  }

  lemma RescanOfNewest(stream: Stream, size: nat, s: System)
    requires CountsFrames(stream) && 0 < size <= 65526 && 0 < s.n
    requires s.n <= size || (s.n - 1) % WRAP16 >= size - 1
    ensures Rescanned(stream, size, s)
         == s.(reader := s.reader.(slot := SlotOf(s.n - 1, size), tag := stream(s.n - 1).tag, phase := Polling))
  {
    VideoRescanContinuesExactly(stream, size, s.n, s.n - 1);
  }

  /** One look from here loses synchronisation, and if the next frame is written before the scan, the follower goes on
      with that one, the awaited frame `cur` not having been written out. */
  ghost predicate LookPassesOver(stream: Stream, size: nat, s: System, cur: nat)
    requires size > 0 && 0 <= s.reader.slot < size
  {
    var s1 := Advance(Video, stream, size, s, Check);
    var s2 := Rescanned(stream, size, Advance(Video, stream, size, s1, Write));
    && s1.reader.phase == Lost && s2.reader.phase == Polling
    && s2.reader.out == s.reader.out && s2.reader.slot == SlotOf(cur + 1, size) && s2.reader.tag == stream(cur + 1).tag
  }

  /** A follower waiting on the newest frame of a full table. */
  ghost predicate Waiting(stream: Stream, size: nat, s: System, f: nat)
    requires size > 0
  {
    && InStep(stream, size, s, f) && s.reader.phase == Polling
    && s.n == f + |s.reader.out| + 1 && s.n >= size && s.n % WRAP16 >= size
  }

  /** Misses left over from before the scan make a single early look enough to pass over a frame. */
  lemma LeftoverMissesPassOver(stream: Stream, size: nat, s: System, f: nat)
    requires CountsFrames(stream) && 0 < size <= 65526
    requires Waiting(stream, size, s, f) && s.reader.misses + 1 >= MISSES_ALLOWED
    ensures LookPassesOver(stream, size, s, f + |s.reader.out|)
  {
    VideoOrderly(stream, size);
    hide CountsFrames, Table, Frames, NewestFound, Accepts, Orderly, Rescanned, Advance;
    LosesSyncExactly(Video, stream, size, s, f);
    StaleLook(stream, size, s, f);
    var s1 := Advance(Video, stream, size, s, Check);
    WriteAdvances(Video, stream, size, s1);
    RescanOfNewest(stream, size, Advance(Video, stream, size, s1, Write));
  }

  lemma WriteAdvances(kind: Kind, stream: Stream, size: nat, s: System)
    requires size > 0 && 0 <= s.reader.slot < size
    ensures Advance(kind, stream, size, s, Write) == s.(n := s.n + 1)
  {
  }

  /** A run that passes over a frame, from a follower without a miss: ten early looks lose synchronisation, and the scan
      goes back to the awaited frame, but with the ten misses still counted. */
  lemma FramePassedOver(stream: Stream, size: nat, s: System, f: nat)
    requires CountsFrames(stream) && 0 < size <= 65526
    requires Waiting(stream, size, s, f) && s.reader.misses == 0
    ensures var s1 := Run(Video, stream, size, s, Checks(10));
            && s1.reader.phase == Lost
            && Waiting(stream, size, Rescanned(stream, size, s1), f)
            && Rescanned(stream, size, s1).reader.misses == 10
            && LookPassesOver(stream, size, Rescanned(stream, size, s1), f + |s.reader.out|)
  {
    hide CountsFrames, Table, Frames, NewestFound, Accepts, Rescanned, LookPassesOver, Run;
    ModOfPredecessor(s.n);
    StaleLooks(stream, size, s, f, 10);
    var s1 := Run(Video, stream, size, s, Checks(10));
    RescanOfNewest(stream, size, s1);
    LeftoverMissesPassOver(stream, size, Rescanned(stream, size, s1), f);
  }

  lemma ModOfPredecessor(n: nat)
    requires n % WRAP16 > 0
    ensures (n - 1) % WRAP16 == n % WRAP16 - 1
  {
    DivModUnique(n - 1, WRAP16, n / WRAP16, n % WRAP16 - 1);
  }

  /** Such a follower there is for every table: the one that has started when the table had just been filled. */
  lemma FreshFollower(stream: Stream, size: nat)
    requires CountsFrames(stream) && 0 < size <= 65526
    ensures Waiting(stream, size, AfterScan(Video, stream, size, size, 0), size - 1)
    ensures AfterScan(Video, stream, size, size, 0).reader.misses == 0
  {
    VideoRescanContinuesExactly(stream, size, size, size - 1);
    DivModUnique(size, WRAP16, 0, size);
    assert Frames(stream, size - 1, size - 1) == [];
  }
}
