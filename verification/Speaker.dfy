/** The speaker thread of campipe: PCM bytes arrive on a FIFO in pieces of any size, are assembled into whole audio
    frames, and switch the amplifier on and off. */
module Speaker {
  import opened Bytes

  /** AO_PTNUM samples of two bytes. */
  const FRAME_BYTES: nat := 320 * 2
  const IDLE_TICKS: nat := 3

  /** What the thread does to the hardware. `payload` is how many bytes of a frame come from the FIFO; the device is
      given the whole of `pcm`. */
  datatype Event = AmpOn | AmpOff | SendFrame(pcm: seq<Byte>, payload: nat)

  /** What one turn of the loop finds: the bytes that have arrived on the FIFO since the last turn, how many of the
      bytes asked for read() is ready to give (0 when the poll times out or the read fails), and whether the audio
      device reports an empty queue. */
  datatype Turn = Turn(arrived: seq<Byte>, take: nat, drained: bool)

  function Min(a: nat, b: nat): nat {
    if a <= b then a else b
  }

  function Zeros(n: nat): (z: seq<Byte>)
    ensures |z| == n
  {
    seq(n, _ => 0)
  }

  class Thread {
    const vir: array<Byte>
    var fill: nat
    var amp: bool
    var idleTicks: nat
    var fifo: seq<Byte>
    var log: seq<Event>

    ghost predicate Valid()
      reads this
    {
      vir.Length == FRAME_BYTES && fill < FRAME_BYTES
    }

    ghost function View(): State
      reads this, vir
      requires Valid()
    {
      State(fifo, vir[..fill], amp, idleTicks, log)
    }

    constructor ()
      ensures Valid() && fresh(vir) && View() == START
    {
      vir := new Byte[FRAME_BYTES](_ => 0);
      fill, amp, idleTicks, fifo, log := 0, false, 0, [], [];
    }

    /** The data branch: n more bytes of the FIFO complete the frame or come closer to it. */
    method Receive(n: nat)
      requires Valid() && 0 < n <= |fifo| && fill + n <= FRAME_BYTES
      modifies this, vir
      ensures Valid() && View() == Received(old(View()), n)
    {
      ghost var pending := vir[..fill];
      forall i | 0 <= i < n {
        vir[fill + i] := fifo[i];
      }
      assert vir[..fill + n] == pending + fifo[..n];
      fill := fill + n;
      fifo := fifo[n..];
      if !amp {
        log := log + [AmpOn];
        amp := true;
      }
      if fill == FRAME_BYTES {
        assert vir[..] == vir[..FRAME_BYTES];
        log := log + [SendFrame(vir[..], FRAME_BYTES)];
        fill := 0;
      }
      idleTicks := 0;
    }

    /** The flush branch: the whole samples held are sent with silence behind them, an odd byte is saved from under
        the padding and stays. */
    method Flush()
      requires Valid() && fill >= 2 && amp
      modifies this, vir
      ensures Valid() && View() == Flushed(old(View()))
    {
      ghost var pending := vir[..fill];
      var keep := fill % 2;
      var tail := if keep == 1 then vir[fill - 1] else 0;
      var from := fill - keep;
      forall i | from <= i < FRAME_BYTES {
        vir[i] := 0;
      }
      assert vir[..] == pending[..from] + Zeros(FRAME_BYTES - from);
      log := log + [SendFrame(vir[..], from)];
      if keep == 1 {
        vir[0] := tail;
      }
      fill := keep;
      idleTicks := 0;
      assert vir[..keep] == pending[from..];
    }

    /** One turn of the loop. */
    method Tick(t: Turn)
      requires Valid()
      modifies this, vir
      ensures Valid() && View() == After(old(View()), t)
    {
      hide Received, Flushed;
      fifo := fifo + t.arrived;
      var n := Min(t.take, Min(|fifo|, FRAME_BYTES - fill));
      if n > 0 {
        Receive(n);
      } else if amp {
        if fill >= 2 {
          Flush();
        } else if t.drained {
          idleTicks := idleTicks + 1;
          if idleTicks >= IDLE_TICKS {
            log := log + [AmpOff];
            amp := false;
            idleTicks := 0;
          }
        } else {
          idleTicks := 0;
        }
      }
    }

    /** The thread from its first turn until it is told to stop. */
    method Play(turns: seq<Turn>)
      requires Valid()
      modifies this, vir
      ensures Valid() && View() == Stopped(Run(old(View()), turns))
    {
      var i := 0;
      while i < |turns|
        invariant 0 <= i <= |turns| && Valid()
        invariant Run(old(View()), turns) == Run(View(), turns[i..])
      {
        Tick(turns[i]);
        i := i + 1;
      }
      if amp {
        log := log + [AmpOff];
        amp := false;
      }
    }
  }

  // ---------------------------------------------------------------------------------------------------------
  // The thread as a state machine

  datatype State = State(fifo: seq<Byte>, pending: seq<Byte>, amp: bool, idle: nat, log: seq<Event>)

  const START := State([], [], false, 0, [])

  /** How many bytes a turn reads. */
  function Taken(s: State, t: Turn): (n: nat)
    requires |s.pending| < FRAME_BYTES
    ensures n <= |s.fifo + t.arrived| && n <= FRAME_BYTES - |s.pending|
  {
    Min(t.take, Min(|s.fifo + t.arrived|, FRAME_BYTES - |s.pending|))
  }

  function Received(s: State, n: nat): (s': State)
    requires 0 < n <= |s.fifo| && |s.pending| + n <= FRAME_BYTES
    ensures |s'.pending| < FRAME_BYTES
  {
    var got := s.pending + s.fifo[..n];
    var log := if s.amp then s.log else s.log + [AmpOn];
    if |got| == FRAME_BYTES then State(s.fifo[n..], [], true, 0, log + [SendFrame(got, FRAME_BYTES)])
    else State(s.fifo[n..], got, true, 0, log)
  }

  /** The frame a flush sends. */
  function Tail(pending: seq<Byte>): Event
    requires |pending| <= FRAME_BYTES
  {
    var whole := |pending| - |pending| % 2;
    SendFrame(pending[..whole] + Zeros(FRAME_BYTES - whole), whole)
  }

  function Flushed(s: State): State
    requires |s.pending| < FRAME_BYTES
  {
    s.(pending := s.pending[|s.pending| - |s.pending| % 2..], idle := 0, log := s.log + [Tail(s.pending)])
  }

  function After(s: State, t: Turn): (s': State)
    requires |s.pending| < FRAME_BYTES
    ensures |s'.pending| < FRAME_BYTES
  {
    var s0 := s.(fifo := s.fifo + t.arrived);
    var n := Taken(s, t);
    if n > 0 then Received(s0, n)
    else if !s.amp then s0
    else if |s.pending| >= 2 then Flushed(s0)
    else if !t.drained then s0.(idle := 0)
    else if s.idle + 1 < IDLE_TICKS then s0.(idle := s.idle + 1)
    else s0.(amp := false, idle := 0, log := s.log + [AmpOff])
  }

  function Run(s: State, turns: seq<Turn>): (s': State)
    requires |s.pending| < FRAME_BYTES
    ensures |s'.pending| < FRAME_BYTES
    decreases |turns|
  {
    if turns == [] then s else Run(After(s, turns[0]), turns[1..])
  }

  function Stopped(s: State): State {
    if s.amp then s.(amp := false, log := s.log + [AmpOff]) else s
  }

  lemma {:induction false} RunAppend(s: State, turns: seq<Turn>, t: Turn)
    requires |s.pending| < FRAME_BYTES
    ensures Run(s, turns + [t]) == After(Run(s, turns), t)
    decreases |turns|
  {
    if turns == [] {
      assert (turns + [t])[1..] == [];
    } else {
      assert (turns + [t])[1..] == turns[1..] + [t];
      RunAppend(After(s, turns[0]), turns[1..], t);
    }
  }

  // ---------------------------------------------------------------------------------------------------------
  // Nothing is lost: bytes and samples

  /** All bytes that have arrived over some turns. */
  function Arrived(turns: seq<Turn>): seq<Byte> {
    if turns == [] then [] else turns[0].arrived + Arrived(turns[1..])
  }

  /** The frames' bytes without their padding, in order. */
  function Payloads(log: seq<Event>): seq<Byte>
    requires WellFormed(log)
  {
    if log == [] then []
    else
      var last := log[|log| - 1];
      Payloads(log[..|log| - 1]) + if last.SendFrame? then last.pcm[..last.payload] else []
  }

  /** Frames have the device's length, whole samples only, and silence behind their payload. */
  predicate WellFormed(log: seq<Event>) {
    forall e | e in log && e.SendFrame? ::
      && |e.pcm| == 640
      && e.payload <= FRAME_BYTES && e.payload % 2 == 0
      && e.pcm[e.payload..] == Zeros(FRAME_BYTES - e.payload)
  }

  lemma PayloadsAppend(log: seq<Event>, e: Event)
    requires WellFormed(log + [e])
    ensures WellFormed(log)
    ensures Payloads(log + [e]) == Payloads(log) + if e.SendFrame? then e.pcm[..e.payload] else []
  {
    assert WellFormed(log) by {
      forall x | x in log ensures x in log + [e] {}
    }
    assert (log + [e])[..|log|] == log;
  }

  lemma WellFormedAppend(log: seq<Event>, e: Event)
    requires WellFormed(log) && WellFormed([e])
    ensures WellFormed(log + [e])
  {
    assert e in [e];
  }

  lemma WellFormedEvent(e: Event)
    requires e.SendFrame? ==> |e.pcm| == FRAME_BYTES == e.payload
    ensures WellFormed([e])
  {
  }

  /** Bytes sent, pending and queued: everything a state accounts for. */
  ghost function Account(s: State): seq<Byte>
    requires WellFormed(s.log)
  {
    Payloads(s.log) + s.pending + s.fifo
  }

  lemma EventAccounted(s: State, e: Event, pending: seq<Byte>)
    requires WellFormed(s.log) && WellFormed([e])
    requires pending == if e.SendFrame? then e.pcm[..e.payload] + s.pending else s.pending
    ensures WellFormed(s.log + [e])
    ensures Account(s.(log := s.log + [e])) == Account(s.(pending := pending))
  {
    WellFormedAppend(s.log, e);
    PayloadsAppend(s.log, e);
    if e.SendFrame? {
      assert Payloads(s.log) + e.pcm[..e.payload] + s.pending + s.fifo
          == Payloads(s.log) + (e.pcm[..e.payload] + s.pending) + s.fifo;
    }
  }

  lemma ReceivedConserves(s: State, n: nat)
    requires 0 < n <= |s.fifo| && |s.pending| + n <= FRAME_BYTES && WellFormed(s.log)
    ensures WellFormed(Received(s, n).log) && Account(Received(s, n)) == Account(s)
  {
    hide Payloads, WellFormed;
    var s1 := if s.amp then s else s.(log := s.log + [AmpOn]);
    if !s.amp {
      WellFormedEvent(AmpOn);
      EventAccounted(s, AmpOn, s.pending);
    }
    assert Account(s1) == Account(s);
    var got := s.pending + s.fifo[..n];
    var s2 := s1.(pending := got, fifo := s.fifo[n..]);
    assert Payloads(s1.log) + got + s.fifo[n..] == Payloads(s1.log) + s.pending + s.fifo;
    if |got| == FRAME_BYTES {
      var e := SendFrame(got, FRAME_BYTES);
      assert e.pcm[..e.payload] + [] == got;
      WellFormedEvent(e);
      EventAccounted(s2.(pending := []), e, got);
      assert Received(s, n).log == s1.log + [e];
      assert Account(Received(s, n)) == Account(s2.(pending := [], log := s1.log + [e]));
    }
  }

  lemma FlushedConserves(s: State)
    requires |s.pending| < FRAME_BYTES && WellFormed(s.log)
    ensures WellFormed(Flushed(s).log) && Account(Flushed(s)) == Account(s)
  {
    var whole := |s.pending| - |s.pending| % 2;
    var e := Tail(s.pending);
    assert e.pcm[..whole] == s.pending[..whole] && e.pcm[whole..] == Zeros(FRAME_BYTES - whole);
    assert s.pending == e.pcm[..whole] + s.pending[whole..];
    EventAccounted(s.(pending := s.pending[whole..]), e, s.pending);
  }

  /** A turn that reads moves bytes along without losing or reordering any. */
  lemma ReadingTurnConserves(s: State, t: Turn)
    requires |s.pending| < FRAME_BYTES && WellFormed(s.log) && Taken(s, t) > 0
    ensures WellFormed(After(s, t).log)
    ensures Account(After(s, t)) == Account(s) + t.arrived
  {
    var s0 := s.(fifo := s.fifo + t.arrived);
    assert Account(s0) == Account(s) + t.arrived;
    ReceivedConserves(s0, Taken(s, t));
  }

  /** And so does one that does not, whether it flushes, waits or switches the amplifier off. */
  lemma QuietTurnConserves(s: State, t: Turn)
    requires |s.pending| < FRAME_BYTES && WellFormed(s.log) && Taken(s, t) == 0
    ensures WellFormed(After(s, t).log)
    ensures Account(After(s, t)) == Account(s) + t.arrived
  {
    var s0 := s.(fifo := s.fifo + t.arrived);
    assert Account(s0) == Account(s) + t.arrived;
    if s.amp && |s.pending| >= 2 {
      FlushedConserves(s0);
    } else if After(s, t).log != s.log {
      EventAccounted(s0, AmpOff, s.pending);
    }
  }

  lemma Joined(a: seq<Byte>, b: seq<Byte>, c: seq<Byte>)
    ensures a + b + c == a + (b + c)
  {}

  /** Over any run the payloads, the bytes still pending and those still in the FIFO are together exactly the bytes
      that have arrived. */
  lemma {:induction false} RunConserves(s: State, turns: seq<Turn>)
    requires |s.pending| < FRAME_BYTES && WellFormed(s.log)
    ensures WellFormed(Run(s, turns).log)
    ensures Account(Run(s, turns)) == Account(s) + Arrived(turns)
    decreases |turns|
  {
    hide Account, After, Taken, WellFormed, Payloads;
    if turns == [] {
      assert Arrived(turns) == [];
    } else {
      var t, rest := turns[0], turns[1..];
      if Taken(s, t) > 0 { ReadingTurnConserves(s, t); } else { QuietTurnConserves(s, t); }
      RunConserves(After(s, t), rest);
      assert Run(s, turns) == Run(After(s, t), rest) && Arrived(turns) == t.arrived + Arrived(rest);
      Joined(Account(s), t.arrived, Arrived(rest));
    }
  }

  /** Signed 16-bit little-endian samples; an odd last byte is not a sample yet. */
  function Samples(b: seq<Byte>): seq<int> {
    if |b| < 2 then []
    else
      var u := (b[0] as int) + 256 * (b[1] as int);
      [if u < 0x8000 then u else u - 0x1_0000] + Samples(b[2..])
  }

  lemma {:induction false} SamplesSplit(a: seq<Byte>, b: seq<Byte>)
    requires |a| % 2 == 0
    ensures Samples(a + b) == Samples(a) + Samples(b)
  {
    if a == [] {
      assert a + b == b;
    } else {
      assert (a + b)[2..] == a[2..] + b;
      SamplesSplit(a[2..], b);
    }
  }

  /** The samples the device is given, frame by frame, padding apart. */
  function Played(log: seq<Event>): seq<int>
    requires WellFormed(log)
  {
    if log == [] then []
    else
      var last := log[|log| - 1];
      Played(log[..|log| - 1]) + if last.SendFrame? then Samples(last.pcm[..last.payload]) else []
  }

  lemma {:induction false} PlayedAreSamples(log: seq<Event>)
    requires WellFormed(log)
    ensures |Payloads(log)| % 2 == 0
    ensures Played(log) == Samples(Payloads(log))
  {
    if log != [] {
      hide Samples;
      var front, last := log[..|log| - 1], log[|log| - 1];
      assert last in log;
      PlayedAreSamples(front);
      if last.SendFrame? {
        SamplesSplit(Payloads(front), last.pcm[..last.payload]);
      } else {
        assert Payloads(log) == Payloads(front) && Played(log) == Played(front);
      }
    }
  }

  lemma SamplesOfAccount(s: State)
    requires WellFormed(s.log)
    ensures Samples(Account(s)) == Played(s.log) + Samples(s.pending + s.fifo)
  {
    PlayedAreSamples(s.log);
    SamplesSplit(Payloads(s.log), s.pending + s.fifo);
    assert Account(s) == Payloads(s.log) + (s.pending + s.fifo);
  }

  /** No sample is split between frames, dropped or shifted by a byte: what has been played, followed by what is
      still on its way, is the arrived stream sample by sample. */
  lemma SamplesArriveIntact(turns: seq<Turn>)
    ensures WellFormed(Run(START, turns).log)
    ensures Samples(Arrived(turns))
         == Played(Run(START, turns).log) + Samples(Run(START, turns).pending + Run(START, turns).fifo)
    ensures |Run(START, turns).pending| < FRAME_BYTES
  {
    RunConserves(START, turns);
    NothingAtStart(Arrived(turns));
    SamplesOfAccount(Run(START, turns));
  }

  lemma NothingAtStart(b: seq<Byte>)
    ensures Account(START) + b == b
  {
    assert Account(START) == [];
  }

  lemma FullReadTakesFrame(s: State, t: Turn)
    requires |s.pending| < FRAME_BYTES && t.arrived == [] && t.take >= FRAME_BYTES
    ensures var s1, all := After(s, t), |s.pending| + |s.fifo|;
            if all < FRAME_BYTES then s1.fifo == [] else |s1.pending| == 0 && |s1.fifo| == all - FRAME_BYTES
  {
    assert s.fifo + t.arrived == s.fifo;
  }

  /** While reads give all they are asked for, the FIFO empties at one frame a turn. */
  lemma {:induction false} FifoEmptiesFrameByFrame(s: State, turns: seq<Turn>)
    requires |s.pending| < FRAME_BYTES
    requires forall t | t in turns :: t.arrived == [] && t.take >= FRAME_BYTES
    ensures |Run(s, turns).fifo| == if |turns| == 0 then |s.fifo|
                                    else if |s.pending| + |s.fifo| <= FRAME_BYTES * |turns| then 0
                                    else |s.pending| + |s.fifo| - FRAME_BYTES * |turns|
    decreases |turns|
  {
    hide After;
    if turns != [] {
      assert turns[0] in turns;
      FullReadTakesFrame(s, turns[0]);
      FifoEmptiesFrameByFrame(After(s, turns[0]), turns[1..]);
    }
  }

  // ---------------------------------------------------------------------------------------------------------
  // The amplifier gate

  /** Whether the amplifier is on after some events. */
  function AmpAfter(log: seq<Event>): bool {
    if log == [] then false
    else
      match log[|log| - 1]
      case AmpOn => true
      case AmpOff => false
      case SendFrame(_, _) => AmpAfter(log[..|log| - 1])
  }

  /** Every frame is sent with the amplifier on, and it is switched only when that changes it. */
  predicate Gated(log: seq<Event>) {
    forall i | 0 <= i < |log| ::
      match log[i]
      case AmpOn => !AmpAfter(log[..i])
      case AmpOff => AmpAfter(log[..i])
      case SendFrame(_, _) => AmpAfter(log[..i])
  }

  ghost predicate Invariant(s: State) {
    && |s.pending| < FRAME_BYTES
    && s.idle < IDLE_TICKS
    && (!s.amp ==> s.idle == 0 && |s.pending| <= 1)
    && AmpAfter(s.log) == s.amp
    && Gated(s.log)
  }

  lemma GatedAppend(log: seq<Event>, e: Event)
    requires Gated(log) && (e.AmpOn? <==> !AmpAfter(log))
    ensures Gated(log + [e])
    ensures AmpAfter(log + [e]) == match e case AmpOn => true case AmpOff => false case SendFrame(_, _) => AmpAfter(log)
  {
    var log' := log + [e];
    assert log'[..|log|] == log;
    forall i | 0 <= i < |log'| ensures i < |log| ==> log'[..i] == log[..i] {}
  }

  lemma TurnKeepsInvariant(s: State, t: Turn)
    requires Invariant(s)
    ensures Invariant(After(s, t))
  {
    if Taken(s, t) > 0 {
      var log := if s.amp then s.log else s.log + [AmpOn];
      if !s.amp { GatedAppend(s.log, AmpOn); }
      var got := s.pending + (s.fifo + t.arrived)[..Taken(s, t)];
      if |got| == FRAME_BYTES { GatedAppend(log, SendFrame(got, FRAME_BYTES)); }
    } else if s.amp && After(s, t).log != s.log {
      var e := After(s, t).log[|s.log|];
      GatedAppend(s.log, e);
    }
  }

  /** In every run: the amplifier is on whenever a frame is sent, off means at most one byte is held, and stopping
      leaves it off. */
  lemma {:induction false} RunKeepsInvariant(s: State, turns: seq<Turn>)
    requires Invariant(s)
    ensures Invariant(Run(s, turns))
    ensures Gated(Stopped(Run(s, turns)).log) && !AmpAfter(Stopped(Run(s, turns)).log)
    decreases |turns|
  {
    hide After, Gated, AmpAfter;
    if turns == [] {
      if s.amp { GatedAppend(s.log, AmpOff); }
    } else {
      TurnKeepsInvariant(s, turns[0]);
      RunKeepsInvariant(After(s, turns[0]), turns[1..]);
    }
  }

  /** Turn k of a run reads nothing while fewer than two bytes are pending and the device queue is empty. */
  ghost predicate Quiet(turns: seq<Turn>, k: int)
    requires 0 <= k < |turns|
  {
    var s := Run(START, turns[..k]);
    Taken(s, turns[k]) == 0 && |s.pending| < 2 && turns[k].drained
  }

  lemma NextState(turns: seq<Turn>, k: nat)
    requires k < |turns|
    ensures Invariant(Run(START, turns[..k]))
    ensures Run(START, turns[..k + 1]) == After(Run(START, turns[..k]), turns[k])
  {
    RunKeepsInvariant(START, turns[..k]);
    RunAppend(START, turns[..k], turns[k]);
    assert turns[..k + 1] == turns[..k] + [turns[k]];
  }

  /** While the amplifier is on, `idle` counts the quiet turns just passed. */
  lemma {:induction false} IdleCountsQuietTurns(turns: seq<Turn>, k: nat)
    requires k <= |turns| && Run(START, turns[..k]).amp
    ensures Run(START, turns[..k]).idle < IDLE_TICKS
    ensures Run(START, turns[..k]).idle >= 1 <==> k >= 1 && Quiet(turns, k - 1)
    ensures Run(START, turns[..k]).idle == 2 <==> k >= 2 && Quiet(turns, k - 1) && Quiet(turns, k - 2)
  {
    if k > 0 {
      NextState(turns, k - 1);
      hide Run, After;
      if Run(START, turns[..k - 1]).amp {
        IdleCountsQuietTurns(turns, k - 1);
      } else {
        if k >= 2 && Quiet(turns, k - 1) { assert false; }
      }
    }
  }

  /** The amplifier goes off in exactly those turns that complete three quiet ones in a row. */
  lemma TurnsOffAfterThreeQuietTurns(turns: seq<Turn>, k: nat)
    requires k < |turns| && Run(START, turns[..k]).amp
    ensures !Run(START, turns[..k + 1]).amp
       <==> k >= 2 && Quiet(turns, k) && Quiet(turns, k - 1) && Quiet(turns, k - 2)
  {
    NextState(turns, k);
    IdleCountsQuietTurns(turns, k);
  }

  /** Once talking stops, four turns on an empty device queue always suffice: one may flush, three run the timer. */
  lemma SettlesWithinFourTurns(s: State, t: seq<Turn>)
    requires Invariant(s) && |t| == 4
    requires forall i | 0 <= i < 4 :: t[i].take == 0 && t[i].drained
    ensures !Run(s, t).amp && |Run(s, t).pending| <= 1
  {
    var s1 := After(s, t[0]);
    var s2 := After(s1, t[1]);
    var s3 := After(s2, t[2]);
    var s4 := After(s3, t[3]);
    assert t[1..][1..][1..][1..] == [];
    assert Run(s, t) == s4 by {
      assert t[1..][0] == t[1] && t[1..][1..][0] == t[2] && t[1..][1..][1..][0] == t[3];
      assert Run(s4, t[1..][1..][1..][1..]) == s4;
      assert Run(s3, t[1..][1..][1..]) == s4;
      assert Run(s2, t[1..][1..]) == s4;
      assert Run(s1, t[1..]) == s4;
    }
  }

  // ---------------------------------------------------------------------------------------------------------
  // Silence

  /** A turn that reads sends at most one frame, and one without silence in it. */
  lemma ReadingSendsWholeFrames(s: State, t: Turn)
    requires |s.pending| < FRAME_BYTES && Taken(s, t) > 0
    ensures s.log <= After(s, t).log
    ensures forall e | e in After(s, t).log[|s.log|..] && e.SendFrame? :: |e.pcm| == e.payload == 640
    ensures (exists e :: e in After(s, t).log[|s.log|..] && e.SendFrame?) <==> |s.pending| + Taken(s, t) == 640
  {
    var s0 := s.(fifo := s.fifo + t.arrived);
    var got := s0.pending + s0.fifo[..Taken(s, t)];
    var on := if s.amp then [] else [AmpOn];
    var sent := if |got| == FRAME_BYTES then [SendFrame(got, FRAME_BYTES)] else [];
    assert After(s, t).log == s.log + (on + sent);
    assert After(s, t).log[|s.log|..] == on + sent;
    if |got| == FRAME_BYTES { assert (on + sent)[|on|] in on + sent; }
  }

  /** What the device is given, silence and all. */
  function Sounded(log: seq<Event>): seq<Byte> {
    if log == [] then []
    else
      var last := log[|log| - 1];
      Sounded(log[..|log| - 1]) + if last.SendFrame? then last.pcm else []
  }

  lemma SoundedAppend(log: seq<Event>, e: Event)
    ensures Sounded(log + [e]) == Sounded(log) + if e.SendFrame? then e.pcm else []
  {
    assert (log + [e])[..|log|] == log;
  }

  /** Everything given to the device, held and queued. */
  function Stream(s: State): seq<Byte> {
    Sounded(s.log) + s.pending + s.fifo
  }

  /** The talker has stopped in the middle of a frame. */
  predicate Starved(s: State, t: Turn)
    requires |s.pending| < FRAME_BYTES
  {
    Taken(s, t) == 0 && |s.pending| >= 2
  }

  lemma ReadingKeepsStream(s: State, t: Turn)
    requires |s.pending| < FRAME_BYTES && Taken(s, t) > 0
    ensures Stream(After(s, t)) == Stream(s) + t.arrived
  {
    var n, all := Taken(s, t), s.fifo + t.arrived;
    var got := s.pending + all[..n];
    var log := if s.amp then s.log else s.log + [AmpOn];
    if !s.amp { SoundedAppend(s.log, AmpOn); }
    SoundedAppend(log, SendFrame(got, FRAME_BYTES));
    assert Sounded(log) == Sounded(s.log);
    hide Sounded;
    Regrouped(Sounded(s.log), s.pending, s.fifo, t.arrived, n);
    assert Sounded(s.log) + got + [] == Sounded(s.log) + got;
  }

  lemma Regrouped(sounded: seq<Byte>, pending: seq<Byte>, fifo: seq<Byte>, arrived: seq<Byte>, n: nat)
    requires n <= |fifo + arrived|
    ensures sounded + (pending + (fifo + arrived)[..n]) + (fifo + arrived)[n..] == sounded + pending + fifo + arrived
  {
    var all := fifo + arrived;
    assert all == all[..n] + all[n..];
  }

  lemma QuietKeepsStream(s: State, t: Turn)
    requires |s.pending| < 2 && Taken(s, t) == 0
    ensures Stream(After(s, t)) == Stream(s) + t.arrived
  {
    SoundedAppend(s.log, AmpOff);
    hide Sounded;
    assert Sounded(s.log) + [] == Sounded(s.log);
    assert Sounded(s.log) + s.pending + (s.fifo + t.arrived) == Sounded(s.log) + s.pending + s.fifo + t.arrived;
  }

  /** A flush makes the stream longer than what has arrived. */
  lemma FlushPads(s: State, t: Turn)
    requires |s.pending| < FRAME_BYTES && Starved(s, t) && s.amp
    ensures |Stream(After(s, t))| > |Stream(s)| + |t.arrived|
  {
    SoundedAppend(s.log, Tail(s.pending));
    hide Sounded;
  }

  /** No turn finds nothing to read while a started frame holds two bytes or more. */
  predicate NeverStarved(s: State, turns: seq<Turn>)
    requires |s.pending| < FRAME_BYTES
    decreases |turns|
  {
    turns == [] || (!Starved(s, turns[0]) && NeverStarved(After(s, turns[0]), turns[1..]))
  }

  lemma TurnKeepsOrPads(s: State, t: Turn)
    requires Invariant(s)
    ensures Invariant(After(s, t))
    ensures !Starved(s, t) ==> Stream(After(s, t)) == Stream(s) + t.arrived
    ensures Starved(s, t) ==> |Stream(After(s, t))| > |Stream(s)| + |t.arrived|
  {
    TurnKeepsInvariant(s, t);
    assert |s.pending| >= 2 ==> s.amp;
    hide Sounded, After, Stream;
    if Taken(s, t) > 0 {
      ReadingKeepsStream(s, t);
    } else if |s.pending| < 2 {
      QuietKeepsStream(s, t);
    } else {
      FlushPads(s, t);
    }
  }

  lemma {:induction false} StreamNeverShrinks(s: State, turns: seq<Turn>)
    requires Invariant(s)
    ensures |Stream(Run(s, turns))| >= |Stream(s)| + |Arrived(turns)|
    decreases |turns|
  {
    hide Stream, After, Starved;
    if turns != [] {
      TurnKeepsOrPads(s, turns[0]);
      StreamNeverShrinks(After(s, turns[0]), turns[1..]);
    }
  }

  /** Over a whole run the device is given the bytes that have arrived and nothing else, up to those still held and
      queued, exactly when the run is never starved: reads may be as short as they like, silence is put in only when the
      talker has stopped. */
  lemma {:induction false} SilenceOnlyWhenStarved(s: State, turns: seq<Turn>)
    requires Invariant(s)
    ensures Stream(Run(s, turns)) == Stream(s) + Arrived(turns) <==> NeverStarved(s, turns)
    decreases |turns|
  {
    hide Stream, After, Starved;
    if turns == [] {
      assert Stream(s) + [] == Stream(s);
    } else {
      var t, rest := turns[0], turns[1..];
      TurnKeepsOrPads(s, t);
      hide Invariant;
      var s1 := After(s, t);
      if Starved(s, t) {
        StreamNeverShrinks(s1, rest);
      } else {
        SilenceOnlyWhenStarved(s1, rest);
        Joined(Stream(s), t.arrived, Arrived(rest));
      }
    }
  }
}
