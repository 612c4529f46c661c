/** The MQTT daemon's command callback: a command changes one setting in the camera's configuration file, and turning
    motion detection or an object detection on turns the other kind off by calling the callback again. */
module CommandHandler {
  import opened ConfigFile
  import opened Wrappers

  /** Key and value of each IPC command. */
  function Params(cmd: nat): (p: (string, string))
    requires cmd < IPC_CMD_LAST
    ensures GoodValue(p.1)
  {
    match cmd
    case 0 => ("switch_on", "no")
    case 1 => ("switch_on", "yes")
    case 2 => ("save_video_on_motion", "no")
    case 3 => ("save_video_on_motion", "yes")
    case 4 => ("motion_detection", "no")
    case 5 => ("motion_detection", "yes")
    case 6 => ("sensitivity", "high")
    case 7 => ("sensitivity", "medium")
    case 8 => ("sensitivity", "low")
    case 9 => ("ai_human_detection", "no")
    case 10 => ("ai_human_detection", "yes")
    case 11 => ("ai_vehicle_detection", "no")
    case 12 => ("ai_vehicle_detection", "yes")
    case 13 => ("ai_animal_detection", "no")
    case 14 => ("ai_animal_detection", "yes")
    case 15 => ("face_detection", "no")
    case 16 => ("face_detection", "yes")
    case 17 => ("motion_tracking", "no")
    case 18 => ("motion_tracking", "yes")
    case 19 => ("baby_crying_detect", "no")
    case 20 => ("baby_crying_detect", "yes")
    case 21 => ("sound_detection", "no")
    case 22 => ("sound_detection", "yes")
    case 23 => ("sound_sensitivity", "30")
    case 24 => ("sound_sensitivity", "35")
    case 25 => ("sound_sensitivity", "40")
    case 26 => ("sound_sensitivity", "45")
    case 27 => ("sound_sensitivity", "50")
    case 28 => ("sound_sensitivity", "60")
    case 29 => ("sound_sensitivity", "70")
    case 30 => ("sound_sensitivity", "80")
    case 31 => ("sound_sensitivity", "90")
    case 32 => ("led", "no")
    case 33 => ("led", "yes")
    case 34 => ("ir", "no")
    case 35 => ("ir", "yes")
    case 36 => ("rotate", "no")
    case 37 => ("rotate", "yes")
    case 38 => ("cruise", "no")
    case 39 => ("cruise", "yes")
    case 40 => ("cruise", "presets")
    case 41 => ("cruise", "360")
    case 42 => ("mic", "no")
    case _ => ("mic", "yes")
  }

  const IPC_CMD_LAST: nat := 44
  const AI_MOTION_DETECTION_OFF: nat := 4
  const AI_HUMAN_DETECTION_OFF: nat := 9
  const AI_VEHICLE_DETECTION_OFF: nat := 11
  const AI_ANIMAL_DETECTION_OFF: nat := 13

  /** strcasecmp(a, b) == 0 */
  predicate SameIgnoringCase(a: string, b: string) {
    Upper(a) == Upper(b)
  }

  predicate IsMotion(key: string) {
    SameIgnoringCase("motion_detection", key)
  }

  predicate IsObject(key: string) {
    || SameIgnoringCase("ai_human_detection", key)
    || SameIgnoringCase("ai_vehicle_detection", key)
    || SameIgnoringCase("ai_animal_detection", key)
  }

  predicate IsYes(value: string) {
    SameIgnoringCase("yes", value)
  }

  /** The commands by which the callback calls itself. */
  lemma OffCommands()
    ensures Params(AI_HUMAN_DETECTION_OFF) == ("ai_human_detection", "no")
    ensures Params(AI_VEHICLE_DETECTION_OFF) == ("ai_vehicle_detection", "no")
    ensures Params(AI_ANIMAL_DETECTION_OFF) == ("ai_animal_detection", "no")
    ensures Params(AI_MOTION_DETECTION_OFF) == ("motion_detection", "no")
  {
  }

  /** The commands that switch something off. */
  const OFF_COMMANDS: set<nat> := {0, 2, 4, 9, 11, 13, 15, 17, 19, 21, 32, 34, 36, 38, 42}

  /** Each of them stores "no", and the command after it "yes" for the same key. */
  lemma CommandsComeInPairs(cmd: nat)
    requires cmd in OFF_COMMANDS
    ensures cmd + 1 < IPC_CMD_LAST && Params(cmd).1 == "no" && Params(cmd + 1) == (Params(cmd).0, "yes")
  {
    hide GoodValue;
  }

  class Handler {
    const conf: File
    var dontLoop: nat
    var sent: seq<(string, string)>

    constructor (conf: File)
      ensures this.conf == conf && dontLoop == 0 && sent == []
    {
      this.conf, dontLoop, sent := conf, 0, [];
    }

    /** The file after a change; one that cannot be opened stays as it is, and the messages are sent all the same. */
    function Stored(was: string, changed: string): string
      reads conf`opens, conf`tempOpens
    {
      if conf.opens && conf.tempOpens then changed else was
    }

    /** The callback. `depth` counts the calls on the stack: a second level runs with the guard set, and there is no
        third. The guard is as before on return. */
    method CallbackCommand(cmd: nat, ghost depth: nat)
      requires cmd < IPC_CMD_LAST && depth == dontLoop + 1 <= 2
      modifies this, conf`content
      ensures dontLoop == old(dontLoop)
      ensures var (key, value) := Params(cmd);
              if old(dontLoop) == 1 then
                && conf.content == Stored(old(conf.content), Replaced(old(conf.content), Upper(key), value))
                && sent == old(sent) + [(key, value)]
              else
                && conf.content == Stored(old(conf.content), Commanded(old(conf.content), key, value))
                && sent == old(sent) + Told(key, value)
      decreases 2 - depth, 1
    {
      hide Params, Replaced, ObjectsOff, Upper, UpperChar, Chunks, AnyMatches;
      var (key, value) := Params(cmd);
      var ret := conf.Replace(key, value);
      sent := sent + [(key, value)];
      if dontLoop > 0 {
        return;
      }
      if SameIgnoringCase("motion_detection", key) && SameIgnoringCase("yes", value) {
        TurnObjectsOff(depth);
      } else if (SameIgnoringCase("ai_human_detection", key) || SameIgnoringCase("ai_vehicle_detection", key)
                 || SameIgnoringCase("ai_animal_detection", key)) && SameIgnoringCase("yes", value) {
        TurnMotionOff(depth);
      }
    }

    method TurnObjectsOff(ghost depth: nat)
      requires depth == 1 && dontLoop == 0
      modifies this, conf`content
      ensures dontLoop == 0
      ensures conf.content == Stored(old(conf.content), ObjectsOff(old(conf.content)))
      ensures sent == old(sent) + [("ai_human_detection", "no"), ("ai_vehicle_detection", "no"),
                                   ("ai_animal_detection", "no")]
      decreases 2 - depth, 0
    {
      OffCommands();
      hide Replaced, Params;
      dontLoop := 1;
      CallbackCommand(AI_HUMAN_DETECTION_OFF, depth + 1);
      CallbackCommand(AI_VEHICLE_DETECTION_OFF, depth + 1);
      CallbackCommand(AI_ANIMAL_DETECTION_OFF, depth + 1);
      dontLoop := 0;
    }

    method TurnMotionOff(ghost depth: nat)
      requires depth == 1 && dontLoop == 0
      modifies this, conf`content
      ensures dontLoop == 0
      ensures conf.content
           == Stored(old(conf.content), Replaced(old(conf.content), Upper("motion_detection"), "no"))
      ensures sent == old(sent) + [("motion_detection", "no")]
      decreases 2 - depth, 0
    {
      OffCommands();
      hide Replaced, Params;
      dontLoop := 1;
      CallbackCommand(AI_MOTION_DETECTION_OFF, depth + 1);
      dontLoop := 0;
    }
  }

  function ObjectsOff(content: string): string {
    Replaced(Replaced(Replaced(content, Upper("ai_human_detection"), "no"), Upper("ai_vehicle_detection"), "no"),
             Upper("ai_animal_detection"), "no")
  }

  /** The configuration file after a top-level command. */
  function Commanded(content: string, key: string, value: string): string {
    var c := Replaced(content, Upper(key), value);
    if IsMotion(key) && IsYes(value) then ObjectsOff(c)
    else if IsObject(key) && IsYes(value) then Replaced(c, Upper("motion_detection"), "no")
    else c
  }

  /** The state messages a top-level command sends. */
  function Told(key: string, value: string): seq<(string, string)> {
    [(key, value)] +
    if IsMotion(key) && IsYes(value) then
      [("ai_human_detection", "no"), ("ai_vehicle_detection", "no"), ("ai_animal_detection", "no")]
    else if IsObject(key) && IsYes(value) then [("motion_detection", "no")]
    else []
  }

  // ---------------------------------------------------------------------------------------------------------
  // Motion and object detection exclude each other

  datatype Detection = Motion | Human | Vehicle | Animal

  function KeyOf(d: Detection): (k: string)
    ensures |k| == match d case Motion => 16 case Human => 18 case Vehicle => 20 case Animal => 19
  {
    match d
    case Motion => Upper("motion_detection")
    case Human => Upper("ai_human_detection")
    case Vehicle => Upper("ai_vehicle_detection")
    case Animal => Upper("ai_animal_detection")
  }

  predicate On(content: string, d: Detection) {
    KeyOf(d) in Parsed(content) && IsYes(Parsed(content)[KeyOf(d)])
  }

  /** No line of the file is a second one for any of the four detections, and motion detection is not on together with
      another. */
  ghost predicate Exclusive(content: string) {
    && (forall d: Detection :: SetAtMostOnce(content, KeyOf(d)))
    && (On(content, Motion) ==> !On(content, Human) && !On(content, Vehicle) && !On(content, Animal))
  }

  /** Replacing one key changes no other. */
  lemma OtherKeysKept(content: string, ukey: string, value: string, k: string)
    requires GoodValue(value) && k != ukey
    ensures k in Parsed(Replaced(content, ukey, value)) <==> k in Parsed(content)
    ensures k in Parsed(content) ==> Parsed(Replaced(content, ukey, value))[k] == Parsed(content)[k]
    ensures SetAtMostOnce(content, k) ==> SetAtMostOnce(Replaced(content, ukey, value), k)
  {
    hide SetAtMostOnce, GoodValue, RewriteAll, DeliverAll, Chunks, AnyHolds, AnyMatches, Matches;
    if SetAtMostOnce(content, k) { SetAtMostOnceKept(content, ukey, value, k); }
    if !AnyHolds(Chunks(content), ukey, value) {
      ChunksArePieces(content);
      ReplacedPieceByPiece(content, ukey, value);
      RewritingSetsTheKey(Chunks(content), ukey, value);
    }
  }

  /** Replacing the value of a detection: the others stay as they are; turning it off turns it off. */
  lemma DetectionReplaced(content: string, d: Detection, value: string)
    requires GoodValue(value) && forall e: Detection :: SetAtMostOnce(content, KeyOf(e))
    ensures var c := Replaced(content, KeyOf(d), value);
            && (forall e: Detection :: SetAtMostOnce(c, KeyOf(e)))
            && (forall e: Detection | e != d :: On(c, e) <==> On(content, e))
            && (!IsYes(value) ==> !On(c, d))
            && (On(c, d) ==> IsYes(value))
  {
    ReplaceOfSingleKey(content, KeyOf(d), value);
    HeldKeyIsSet(Chunks(content), KeyOf(d));
    forall e: Detection
      ensures SetAtMostOnce(Replaced(content, KeyOf(d), value), KeyOf(e))
      ensures e != d ==> (On(Replaced(content, KeyOf(d), value), e) <==> On(content, e))
    {
      SetAtMostOnceKept(content, KeyOf(d), value, KeyOf(e));
      if e != d { OtherKeysKept(content, KeyOf(d), value, KeyOf(e)); }
    }
  }

  lemma OtherKeyReplaced(content: string, ukey: string, value: string)
    requires GoodValue(value) && forall e: Detection :: KeyOf(e) != ukey && SetAtMostOnce(content, KeyOf(e))
    ensures var c := Replaced(content, ukey, value);
            forall e: Detection :: SetAtMostOnce(c, KeyOf(e)) && (On(c, e) <==> On(content, e))
  {
    forall e: Detection
      ensures SetAtMostOnce(Replaced(content, ukey, value), KeyOf(e))
           && (On(Replaced(content, ukey, value), e) <==> On(content, e))
    {
      OtherKeysKept(content, ukey, value, KeyOf(e));
    }
  }

  lemma NoIsOff()
    ensures GoodValue("no") && !IsYes("no")
  {
    assert |Upper("no")| == 2 && |Upper("yes")| == 3;
  }

  lemma MotionTurnedOn(content: string, key: string, value: string)
    requires Exclusive(content) && GoodValue(value) && IsMotion(key) && IsYes(value)
    ensures Exclusive(Commanded(content, key, value))
  {
    hide Replaced;
    NoIsOff();
    var c1 := Replaced(content, KeyOf(Motion), value);
    DetectionReplaced(content, Motion, value);
    var c2 := Replaced(c1, KeyOf(Human), "no");
    DetectionReplaced(c1, Human, "no");
    var c3 := Replaced(c2, KeyOf(Vehicle), "no");
    DetectionReplaced(c2, Vehicle, "no");
    DetectionReplaced(c3, Animal, "no");
  }

  lemma ObjectTurnedOn(content: string, key: string, value: string, d: Detection)
    requires Exclusive(content) && GoodValue(value) && IsYes(value) && d != Motion && Upper(key) == KeyOf(d)
    ensures Exclusive(Commanded(content, key, value))
  {
    NoIsOff();
    assert !IsMotion(key);
    DetectionReplaced(content, d, value);
    DetectionReplaced(Replaced(content, KeyOf(d), value), Motion, "no");
  }

  /** A top-level command, whatever its key and value, leaves the stored configuration exclusive. */
  lemma CommandKeepsExclusive(content: string, key: string, value: string)
    requires Exclusive(content) && GoodValue(value)
    ensures Exclusive(Commanded(content, key, value))
  {
    if IsMotion(key) && IsYes(value) {
      MotionTurnedOn(content, key, value);
    } else if IsObject(key) && IsYes(value) {
      var d :| d != Motion && Upper(key) == KeyOf(d);
      ObjectTurnedOn(content, key, value, d);
    } else if d: Detection :| Upper(key) == KeyOf(d) {
      assert !IsYes(value);
      DetectionReplaced(content, d, value);
    } else {
      OtherKeyReplaced(content, Upper(key), value);
    }
  }

  /** The stored configuration after some top-level commands. */
  function AfterCommands(content: string, cmds: seq<nat>): string
    requires forall i | 0 <= i < |cmds| :: cmds[i] < IPC_CMD_LAST
    decreases |cmds|
  {
    if cmds == [] then content
    else AfterCommands(Commanded(content, Params(cmds[0]).0, Params(cmds[0]).1), cmds[1..])
  }

  /** After every sequence of commands, motion detection and the object detections are never stored as on together. */
  lemma {:induction false} CommandsKeepExclusive(content: string, cmds: seq<nat>)
    requires Exclusive(content) && forall i | 0 <= i < |cmds| :: cmds[i] < IPC_CMD_LAST
    ensures Exclusive(AfterCommands(content, cmds))
    decreases |cmds|
  {
    if cmds != [] {
      var (key, value) := Params(cmds[0]);
      CommandKeepsExclusive(content, key, value);
      CommandsKeepExclusive(Commanded(content, key, value), cmds[1..]);
    }
  }

  /** A key has the same value, or none, before and after. */
  predicate Kept(content: string, content': string, k: string) {
    && (k in Parsed(content) <==> k in Parsed(content'))
    && (k in Parsed(content) ==> Parsed(content')[k] == Parsed(content)[k])
  }

  lemma OffKeepsOther(content: string, off: Detection, d: Detection)
    requires off != d
    ensures Kept(content, Replaced(content, KeyOf(off), "no"), KeyOf(d))
  {
    NoIsOff();
    OtherKeysKept(content, KeyOf(off), "no", KeyOf(d));
  }

  lemma KeptTwice(a: string, b: string, c: string, k: string)
    requires Kept(a, b, k) && Kept(b, c, k)
    ensures Kept(a, c, k)
  {
  }

  lemma ObjectsOffKeepsMotion(content: string)
    ensures Kept(content, ObjectsOff(content), KeyOf(Motion))
  {
    hide Replaced, Parsed, Kept;
    var c2 := Replaced(content, KeyOf(Human), "no");
    var c3 := Replaced(c2, KeyOf(Vehicle), "no");
    OffKeepsOther(content, Human, Motion);
    OffKeepsOther(c2, Vehicle, Motion);
    OffKeepsOther(c3, Animal, Motion);
    KeptTwice(content, c2, c3, KeyOf(Motion));
    KeptTwice(content, c3, ObjectsOff(content), KeyOf(Motion));
  }

  lemma ReplacedTakesEffect(content: string, d: Detection, value: string)
    requires Exclusive(content) && GoodValue(value) && KeyOf(d) in Parsed(content)
    ensures KeyOf(d) in Parsed(Replaced(content, KeyOf(d), value))
    ensures Parsed(Replaced(content, KeyOf(d), value))[KeyOf(d)] == value
  {
    ReplaceOfSingleKey(content, KeyOf(d), value);
    HeldKeyIsSet(Chunks(content), KeyOf(d));
  }

  /** And the command has the effect asked for: a detection that the file sets is stored with the value commanded. */
  lemma CommandTakesEffect(content: string, key: string, value: string, d: Detection)
    requires Exclusive(content) && GoodValue(value) && Upper(key) == KeyOf(d) && KeyOf(d) in Parsed(content)
    ensures KeyOf(d) in Parsed(Commanded(content, key, value))
    ensures Parsed(Commanded(content, key, value))[KeyOf(d)] == value
  {
    hide Replaced, Parsed, Exclusive, GoodValue;
    var c1 := Replaced(content, KeyOf(d), value);
    ReplacedTakesEffect(content, d, value);
    if IsYes(value) {
      if d == Motion {
        ObjectsOffKeepsMotion(c1);
      } else {
        OffKeepsOther(c1, Motion, d);
      }
    }
  }

  // ---------------------------------------------------------------------------------------------------------
  // What the messages say

  /** The replacements that some state messages stand for, one after the other. */
  function Replayed(content: string, changes: seq<(string, string)>): string {
    if changes == [] then content
    else
      var last := changes[|changes| - 1];
      Replaced(Replayed(content, changes[..|changes| - 1]), Upper(last.0), last.1)
  }

  lemma ReplayedOnce(content: string, changes: seq<(string, string)>, change: (string, string))
    ensures Replayed(content, changes + [change]) == Replaced(Replayed(content, changes), Upper(change.0), change.1)
  {
    assert (changes + [change])[..|changes|] == changes;
  }

  /** The file after a command is the one its messages tell. */
  lemma MessagesReplayCommand(content: string, key: string, value: string)
    ensures Commanded(content, key, value) == Replayed(content, Told(key, value))
  {
    hide Replaced, Replayed, Upper;
    ReplayedOnce(content, [], (key, value));
    NothingReplayed(content);
    assert [] + [(key, value)] == [(key, value)];
    var first := [(key, value)];
    if IsMotion(key) && IsYes(value) {
      var human, vehicle := ("ai_human_detection", "no"), ("ai_vehicle_detection", "no");
      var animal := ("ai_animal_detection", "no");
      ReplayedOnce(content, first, human);
      ReplayedOnce(content, first + [human], vehicle);
      ReplayedOnce(content, first + [human] + [vehicle], animal);
      assert Told(key, value) == first + [human] + [vehicle] + [animal];
    } else if IsObject(key) && IsYes(value) {
      ReplayedOnce(content, first, ("motion_detection", "no"));
    } else {
      assert Told(key, value) == first;
    }
  }

  lemma NothingReplayed(content: string)
    ensures Replayed(content, []) == content
  {
  }

  /** Changes of different keys, each set at most once by the file. */
  ghost predicate Separate(content: string, changes: seq<(string, string)>) {
    && (forall i | 0 <= i < |changes| :: GoodValue(changes[i].1) && SetAtMostOnce(content, Upper(changes[i].0)))
    && (forall i, j | 0 <= i < j < |changes| :: Upper(changes[i].0) != Upper(changes[j].0))
  }

  lemma {:induction false} ReplayKeepsOnce(content: string, changes: seq<(string, string)>, k: string)
    requires forall i | 0 <= i < |changes| :: GoodValue(changes[i].1)
    requires SetAtMostOnce(content, k)
    ensures SetAtMostOnce(Replayed(content, changes), k)
  {
    if changes != [] {
      hide SetAtMostOnce, Replaced, GoodValue;
      var n := |changes| - 1;
      ReplayKeepsOnce(content, changes[..n], k);
      SetAtMostOnceKept(Replayed(content, changes[..n]), Upper(changes[n].0), changes[n].1, k);
    }
  }

  lemma LastChangeHolds(before: string, ukey: string, value: string)
    requires GoodValue(value) && SetAtMostOnce(before, ukey)
    ensures var settings := Parsed(Replaced(before, ukey, value)); ukey in settings ==> settings[ukey] == value
  {
    hide SetAtMostOnce, Replaced, GoodValue, Chunks, AnyMatches, DeliverAll;
    ReplaceOfSingleKey(before, ukey, value);
    HeldKeyIsSet(Chunks(before), ukey);
  }

  lemma {:induction false} ReplayHolds(content: string, changes: seq<(string, string)>, i: nat)
    requires Separate(content, changes) && i < |changes|
    ensures var settings := Parsed(Replayed(content, changes));
            Upper(changes[i].0) in settings ==> settings[Upper(changes[i].0)] == changes[i].1
  {
    hide SetAtMostOnce, Replaced, GoodValue, Upper, Parsed;
    var n := |changes| - 1;
    var before, last := Replayed(content, changes[..n]), changes[n];
    if i < n {
      assert Separate(content, changes[..n]);
      assert changes[..n][i] == changes[i];
      ReplayHolds(content, changes[..n], i);
      OtherKeysKept(before, Upper(last.0), last.1, Upper(changes[i].0));
    } else {
      ReplayKeepsOnce(content, changes[..n], Upper(last.0));
      LastChangeHolds(before, Upper(last.0), last.1);
    }
  }

  /** Every state message a command sends names the value that the file then holds, if the file sets that key at all. */
  lemma MessagesTellTheFile(content: string, key: string, value: string, i: nat)
    requires GoodValue(value) && SetAtMostOnce(content, Upper(key))
    requires forall e: Detection :: SetAtMostOnce(content, KeyOf(e))
    requires i < |Told(key, value)|
    ensures var (k, v) := Told(key, value)[i];
            var settings := Parsed(Commanded(content, key, value));
            Upper(k) in settings ==> settings[Upper(k)] == v
  {
    NoIsOff();
    assert SetAtMostOnce(content, KeyOf(Motion)) && SetAtMostOnce(content, KeyOf(Human))
        && SetAtMostOnce(content, KeyOf(Vehicle)) && SetAtMostOnce(content, KeyOf(Animal));
    hide SetAtMostOnce, GoodValue;
    ToldIsSeparate(content, key, value);
    MessagesReplayCommand(content, key, value);
    hide Told, Commanded, Replayed, Upper;
    ReplayHolds(content, Told(key, value), i);
  }

  lemma ToldIsSeparate(content: string, key: string, value: string)
    requires GoodValue(value) && GoodValue("no") && SetAtMostOnce(content, Upper(key))
    requires SetAtMostOnce(content, KeyOf(Motion)) && SetAtMostOnce(content, KeyOf(Human))
    requires SetAtMostOnce(content, KeyOf(Vehicle)) && SetAtMostOnce(content, KeyOf(Animal))
    ensures Separate(content, Told(key, value))
  {
    hide SetAtMostOnce, GoodValue;
    assert |KeyOf(Motion)| == 16 && |KeyOf(Human)| == 18 && |KeyOf(Vehicle)| == 20 && |KeyOf(Animal)| == 19;
    var told := Told(key, value);
    forall i, j | 0 <= i < j < |told| ensures Upper(told[i].0) != Upper(told[j].0) {
      assert |Upper(told[i].0)| != |Upper(told[j].0)|;
    }
  }

  // ---------------------------------------------------------------------------------------------------------
  // Why a second line for a detection has to be ruled out

  /** One line of the file holds the detection off already, and a later one, which decides, holds it on. */
  predicate Blocked(content: string, d: Detection) {
    AnyHolds(Chunks(content), KeyOf(d), "no") && On(content, d)
  }

  /** Turning a detection off fails exactly when it is blocked. */
  lemma OffUnlessBlocked(content: string, d: Detection)
    ensures On(Replaced(content, KeyOf(d), "no"), d) <==> Blocked(content, d)
  {
    NoIsOff();
    var pieces := Chunks(content);
    if !AnyHolds(pieces, KeyOf(d), "no") {
      ChunksArePieces(content);
      ReplacedPieceByPiece(content, KeyOf(d), "no");
      RewritingSetsTheKey(pieces, KeyOf(d), "no");
      HeldKeyIsSet(pieces, KeyOf(d));
    }
  }

  /** Replacing another key neither blocks nor unblocks a detection, and leaves it on or off. */
  lemma BlockedUnmoved(content: string, ukey: string, value: string, d: Detection)
    requires GoodValue(value) && KeyOf(d) != ukey
    ensures var c := Replaced(content, ukey, value);
            (On(c, d) <==> On(content, d)) && (Blocked(c, d) <==> Blocked(content, d))
  {
    OtherKeysKept(content, ukey, value, KeyOf(d));
    HoldsUnmoved(content, ukey, value, KeyOf(d), "no");
  }

  lemma ObjectsOffUnlessBlocked(content: string, d: Detection)
    requires d != Motion
    ensures On(ObjectsOff(content), d) <==> Blocked(content, d)
  {
    hide On, Blocked, Replaced;
    NoIsOff();
    var c2 := Replaced(content, KeyOf(Human), "no");
    var c3 := Replaced(c2, KeyOf(Vehicle), "no");
    if d != Human { BlockedUnmoved(content, KeyOf(Human), "no", d); } else { OffUnlessBlocked(content, d); }
    if d != Vehicle { BlockedUnmoved(c2, KeyOf(Vehicle), "no", d); } else { OffUnlessBlocked(c2, d); }
    if d != Animal { BlockedUnmoved(c3, KeyOf(Animal), "no", d); } else { OffUnlessBlocked(c3, d); }
  }

  /** For every file: turning one kind of detection on leaves a detection of the other kind on exactly when that one is
      blocked. */
  lemma SwitchesOffUnlessBlocked(content: string, key: string, value: string, on: Detection, off: Detection)
    requires GoodValue(value) && IsYes(value) && Upper(key) == KeyOf(on) && (on == Motion) != (off == Motion)
    ensures On(Commanded(content, key, value), off) <==> Blocked(content, off)
  {
    hide On, Blocked, Replaced;
    var c := Replaced(content, KeyOf(on), value);
    BlockedUnmoved(content, KeyOf(on), value, off);
    if on == Motion {
      ObjectsOffUnlessBlocked(c, off);
    } else {
      assert !IsMotion(key) && IsObject(key);
      OffUnlessBlocked(c, off);
    }
  }

  lemma MotionKeyIsGood()
    ensures GoodKey(KeyOf(Motion)) && Upper(KeyOf(Motion)) == KeyOf(Motion)
  {
    var k := "motion_detection";
    assert forall i | 0 <= i < |k| :: k[i] == '_' || 'a' <= k[i] <= 'z';
    UpperTwice(k);
  }

  /** A file in which motion detection cannot be turned off. */
  lemma BlockedMotion()
    ensures Blocked(Line(KeyOf(Motion), "no") + Line(KeyOf(Motion), "yes"), Motion)
  {
    hide Parsed, Chunks;
    MotionKeyIsGood();
    var first, second := Line(KeyOf(Motion), "no"), Line(KeyOf(Motion), "yes");
    TwoLines(KeyOf(Motion), "no", "yes");
    FirstHolds(first, second, KeyOf(Motion), "no");
    EarlierLineBlocksLaterOne(KeyOf(Motion), "no", "yes");
  }
}
