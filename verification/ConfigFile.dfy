/** The MQTT daemon's configuration files: lines of the form KEY=VALUE, read back line by line with fgets and sscanf,
    and rewritten in place when a setting changes. */
module ConfigFile {
  import opened Wrappers

  const MAX_LINE_LENGTH: nat := 512
  const MAX_FIELD: nat := 127

  // ---------------------------------------------------------------------------------------------------------
  // The C library's part

  predicate IsSpace(c: char) {
    c == ' ' || '\t' <= c <= '\r'
  }

  function UpperChar(c: char): char {
    if 'a' <= c <= 'z' then (c as int - 32) as char else c
  }

  function Upper(s: string): (u: string)
    ensures |u| == |s|
  {
    seq(|s|, i requires 0 <= i < |s| => UpperChar(s[i]))
  }

  /** How many characters fgets takes from `s` with room for `room`. */
  function LineLength(s: string, room: nat): (n: nat)
    ensures n <= |s| && n <= room
    ensures n == 0 <==> s == [] || room == 0
  {
    if s == [] || room == 0 then 0
    else if s[0] == '\n' then 1
    else 1 + LineLength(s[1..], room - 1)
  }

  lemma {:induction false} LineStops(s: string, room: nat)
    ensures var n := LineLength(s, room);
            && (forall i | 0 <= i < n - 1 :: s[i] != '\n')
            && (n < |s| && n < room ==> s[n - 1] == '\n')
  {
    if s != [] && room != 0 && s[0] != '\n' {
      LineStops(s[1..], room - 1);
    }
  }

  /** How many characters of `s` a field of at most `room` characters other than `stop` takes. */
  function FieldLength(s: string, stop: char, room: nat): (n: nat)
    ensures n <= |s| && n <= room
  {
    if s == [] || room == 0 || s[0] == stop then 0 else 1 + FieldLength(s[1..], stop, room - 1)
  }

  lemma {:induction false} FieldStops(s: string, stop: char, room: nat)
    ensures var n := FieldLength(s, stop, room);
            && (forall i | 0 <= i < n :: s[i] != stop)
            && (n < |s| && n < room ==> s[n] == stop)
  {
    if s != [] && room != 0 && s[0] != stop {
      FieldStops(s[1..], stop, room - 1);
    }
  }

  function SkipSpaces(s: string): (n: nat)
    ensures n <= |s|
    ensures n < |s| ==> !IsSpace(s[n])
  {
    if s == [] || !IsSpace(s[0]) then 0 else 1 + SkipSpaces(s[1..])
  }

  /** sscanf(buf, "%127[^=] = %127[^\n]", key, value), when both fields are converted. */
  function Scan(buf: string): Option<(string, string)> {
    var k := FieldLength(buf, '=', MAX_FIELD);
    var afterKey := buf[k..];
    var equals := SkipSpaces(afterKey);
    if k == 0 || equals == |afterKey| || afterKey[equals] != '=' then None
    else
      var afterEquals := afterKey[equals + 1..];
      var rest := afterEquals[SkipSpaces(afterEquals)..];
      var v := FieldLength(rest, '\n', MAX_FIELD);
      if v == 0 then None else Some((buf[..k], rest[..v]))
  }

  /** The setting a buffer holds, comments apart. */
  function Entry(buf: string): Option<(string, string)> {
    if buf != [] && buf[0] == '#' then None else Scan(buf)
  }

  // ---------------------------------------------------------------------------------------------------------
  // Files as the pieces fgets cuts them into

  const ROOM: nat := MAX_LINE_LENGTH - 1

  function Chunks(s: string): seq<string> {
    if s == [] then [] else
      var n := LineLength(s, ROOM);
      [s[..n]] + Chunks(s[n..])
  }

  function Concat(pieces: seq<string>): string {
    if pieces == [] then [] else pieces[0] + Concat(pieces[1..])
  }

  /** A piece after which fgets has not met the end of the file. */
  predicate Complete(piece: string) {
    |piece| == 511 || (piece != [] && piece[|piece| - 1] == '\n')
  }

  predicate IsPiece(piece: string) {
    0 < |piece| <= 511 && forall i | 0 <= i < |piece| - 1 :: piece[i] != '\n'
  }

  /** A list of pieces that fgets cuts a file into. */
  predicate ArePieces(pieces: seq<string>) {
    && (forall i | 0 <= i < |pieces| :: IsPiece(pieces[i]))
    && (forall i | 0 <= i < |pieces| - 1 :: Complete(pieces[i]))
  }

  lemma FirstPiece(s: string)
    requires s != []
    ensures var p := s[..LineLength(s, ROOM)];
            IsPiece(p) && (|p| < |s| ==> Complete(p))
  {
    LineStops(s, ROOM);
  }

  lemma PrependPiece(p: string, pieces: seq<string>)
    requires IsPiece(p) && ArePieces(pieces) && (pieces != [] ==> Complete(p))
    ensures ArePieces([p] + pieces)
  {
  }

  lemma {:induction false} ChunksArePieces(s: string)
    ensures ArePieces(Chunks(s)) && Concat(Chunks(s)) == s
  {
    if s != [] {
      var n := LineLength(s, ROOM);
      var p, rest := s[..n], s[n..];
      FirstPiece(s);
      ChunksArePieces(rest);
      if Chunks(rest) != [] { assert rest != []; }
      PrependPiece(p, Chunks(rest));
      assert Chunks(s) == [p] + Chunks(rest);
      ConcatPrepend(p, Chunks(rest));
      assert p + rest == s;
    }
  }

  lemma ConcatPrepend(p: string, pieces: seq<string>)
    ensures Concat([p] + pieces) == p + Concat(pieces)
  {
    assert ([p] + pieces)[1..] == pieces;
  }

  lemma {:induction false} LineLengthIs(s: string, n: nat, room: nat)
    requires 0 < n <= |s| && n <= room
    requires forall i | 0 <= i < n - 1 :: s[i] != '\n'
    requires n == |s| || n == room || s[n - 1] == '\n'
    ensures LineLength(s, room) == n
  {
    if n > 1 { LineLengthIs(s[1..], n - 1, room - 1); }
  }

  /** Cutting the concatenation of pieces gives the pieces back. */
  lemma {:induction false} PiecesAreChunks(pieces: seq<string>)
    requires ArePieces(pieces)
    ensures Chunks(Concat(pieces)) == pieces
  {
    if pieces != [] {
      var p, rest := pieces[0], Concat(pieces[1..]);
      PiecesAreChunks(pieces[1..]);
      if |pieces| == 1 { assert pieces[1..] == []; }
      assert IsPiece(p) && (|pieces| > 1 ==> Complete(p));
      var s := p + rest;
      LineLengthIs(s, |p|, ROOM);
      assert s[..|p|] == p && s[|p|..] == rest;
      assert [p] + pieces[1..] == pieces;
    }
  }

  // ---------------------------------------------------------------------------------------------------------
  // Reading

  /** Settings by upper-case key, the last delivery of a key prevailing. */
  type Settings = map<string, string>

  function Handle(m: Settings, entry: Option<(string, string)>): Settings {
    match entry
    case None => m
    case Some(e) => m[Upper(e.0) := e.1]
  }

  function HandleAll(entries: seq<Option<(string, string)>>): Settings {
    if entries == [] then map[] else Handle(HandleAll(entries[..|entries| - 1]), entries[|entries| - 1])
  }

  function Entries(bufs: seq<string>): (entries: seq<Option<(string, string)>>)
    ensures |entries| == |bufs|
  {
    seq(|bufs|, i requires 0 <= i < |bufs| => Entry(bufs[i]))
  }

  function DeliverAll(bufs: seq<string>): Settings {
    HandleAll(Entries(bufs))
  }

  /** What the buffer holds in each turn of the reading loop. After a complete last piece the loop turns once more on
      the same contents; on an empty file it turns once on whatever the buffer held before. */
  function Turns(content: string, junk: string): seq<string> {
    var pieces := Chunks(content);
    if pieces == [] then [junk]
    else if Complete(pieces[|pieces| - 1]) then pieces + [pieces[|pieces| - 1]]
    else pieces
  }

  function Parsed(content: string): Settings {
    DeliverAll(Chunks(content))
  }

  lemma DeliverAllAppend(bufs: seq<string>, buf: string)
    ensures DeliverAll(bufs + [buf]) == Handle(DeliverAll(bufs), Entry(buf))
  {
    assert Entries(bufs + [buf]) == Entries(bufs) + [Entry(buf)];
    assert Entries(bufs + [buf])[..|bufs|] == Entries(bufs);
  }

  lemma DeliverAllLast(bufs: seq<string>)
    requires bufs != []
    ensures DeliverAll(bufs) == Handle(DeliverAll(bufs[..|bufs| - 1]), Entry(bufs[|bufs| - 1]))
  {
    DeliverAllAppend(bufs[..|bufs| - 1], bufs[|bufs| - 1]);
    assert bufs[..|bufs| - 1] + [bufs[|bufs| - 1]] == bufs;
  }

  lemma HandleTwice(m: Settings, e: Option<(string, string)>)
    ensures Handle(Handle(m, e), e) == Handle(m, e)
  {
  }

  /** The repeated delivery of the last line changes nothing. */
  lemma RepeatedLineIsHarmless(content: string, junk: string)
    requires content != []
    ensures DeliverAll(Turns(content, junk)) == Parsed(content)
  {
    var pieces := Chunks(content);
    assert pieces != [];
    var last := pieces[|pieces| - 1];
    if Complete(last) {
      DeliverAllAppend(pieces, last);
      DeliverAllLast(pieces);
      HandleTwice(DeliverAll(pieces[..|pieces| - 1]), Entry(last));
    }
  }

  // ---------------------------------------------------------------------------------------------------------
  // Rewriting

  predicate Matches(buf: string, ukey: string) {
    Entry(buf).Some? && Upper(Entry(buf).value.0) == ukey
  }

  /** A line that sets the key to this very value. */
  predicate Holds(buf: string, ukey: string, value: string) {
    Matches(buf, ukey) && Entry(buf).value.1 == value
  }

  function Line(ukey: string, value: string): string {
    ukey + "=" + value + "\n"
  }

  function Rewritten(buf: string, ukey: string, value: string): string {
    if Matches(buf, ukey) && !Holds(buf, ukey, value) then Line(ukey, value) else buf
  }

  function RewriteAll(pieces: seq<string>, ukey: string, value: string): (r: seq<string>)
    ensures |r| == |pieces|
    ensures forall i | 0 <= i < |r| :: r[i] == Rewritten(pieces[i], ukey, value)
  {
    seq(|pieces|, i requires 0 <= i < |pieces| => Rewritten(pieces[i], ukey, value))
  }

  function Setting(ukey: string): string -> bool {
    buf => Matches(buf, ukey)
  }

  function Holding(ukey: string, value: string): string -> bool {
    buf => Holds(buf, ukey, value)
  }

  predicate Any(pieces: seq<string>, p: string -> bool) {
    exists i :: 0 <= i < |pieces| && p(pieces[i])
  }

  predicate AnyMatches(pieces: seq<string>, ukey: string) {
    Any(pieces, Setting(ukey))
  }

  predicate AnyHolds(pieces: seq<string>, ukey: string, value: string) {
    Any(pieces, Holding(ukey, value))
  }

  /** The file after config_replace: untouched as soon as one line holds the value, otherwise with every matching line
      rewritten. */
  function Replaced(content: string, ukey: string, value: string): string {
    if AnyHolds(Chunks(content), ukey, value) then content
    else Concat(RewriteAll(Chunks(content), ukey, value))
  }

  /** The reading loop between two turns: `seen` has been delivered, `rest` is still to be read. */
  ghost predicate Turning(content: string, junk: string, seen: seq<string>, buf: string, rest: string) {
    && seen + Chunks(rest) == Chunks(content)
    && (if seen == [] then buf == junk else buf == seen[|seen| - 1] && Complete(buf))
  }

  /** The piece fgets takes next. */
  lemma NextPiece(pieces: seq<string>, i: nat, rest: string)
    requires i <= |pieces| && pieces[i..] == Chunks(rest) && rest != []
    ensures i < |pieces| && pieces[i] == rest[..LineLength(rest, ROOM)]
    ensures pieces[i + 1..] == Chunks(rest[LineLength(rest, ROOM)..])
    ensures LineLength(rest, ROOM) < |rest| ==> Complete(pieces[i])
  {
    var n := LineLength(rest, ROOM);
    assert pieces[i..] == [rest[..n]] + Chunks(rest[n..]);
    assert pieces[i] == pieces[i..][0];
    assert pieces[i + 1..] == pieces[i..][1..];
    FirstPiece(rest);
  }

  lemma SeenSoFar(content: string, seen: seq<string>, rest: string)
    requires seen + Chunks(rest) == Chunks(content)
    ensures |seen| <= |Chunks(content)| && Chunks(content)[..|seen|] == seen
    ensures Chunks(content)[|seen|..] == Chunks(rest)
  {
  }

  /** A turn in which fgets finds nothing more. */
  lemma LastTurn(content: string, junk: string, seen: seq<string>, buf: string)
    requires Turning(content, junk, seen, buf, [])
    ensures seen + [buf] == Turns(content, junk)
  {
    assert Chunks([]) == [];
    assert seen + [] == seen;
  }

  /** A turn in which fgets finds another piece. */
  lemma NextTurn(content: string, junk: string, seen: seq<string>, buf: string, rest: string)
    requires Turning(content, junk, seen, buf, rest) && rest != []
    ensures var n := LineLength(rest, ROOM);
            if Complete(rest[..n]) then Turning(content, junk, seen + [rest[..n]], rest[..n], rest[n..])
            else rest[n..] == [] && seen + [rest[..n]] == Turns(content, junk)
  {
    var n := LineLength(rest, ROOM);
    var p := rest[..n];
    SeenSoFar(content, seen, rest);
    NextPiece(Chunks(content), |seen|, rest);
    assert seen + [p] + Chunks(rest[n..]) == Chunks(content);
    if !Complete(p) {
      assert rest[n..] == [];
      assert Chunks([]) == [];
      assert Chunks(content) == seen + [p];
    }
  }

  lemma NothingDelivered()
    ensures DeliverAll([]) == map[]
  {
  }

  lemma NothingTurned(content: string, junk: string)
    ensures Turning(content, junk, [], junk, content)
  {
    assert [] + Chunks(content) == Chunks(content);
  }

  /** A configuration file. `opens` and `tempOpens` are what the next fopen of the file and of a temporary one come to. */
  class File {
    var content: string
    var opens: bool
    var tempOpens: bool

    constructor (content: string)
      ensures this.content == content && opens && tempOpens
    {
      this.content, opens, tempOpens := content, true, true;
    }

    /** config_parse with a handler that records settings; `junk` is what the line buffer happens to hold first. A file
        that could not be opened gives none. */
    method Parse(junk: string) returns (settings: Settings)
      ensures settings == if opens then DeliverAll(Turns(content, junk)) else map[]
    {
      settings := map[];
      if !opens {
        return;
      }
      NothingDelivered();
      hide Turning, DeliverAll, Turns, Entry, LineLength;
      NothingTurned(content, junk);
      var rest, buf, eof := content, junk, false;
      ghost var seen: seq<string> := [];
      while !eof
        invariant settings == DeliverAll(seen)
        invariant !eof ==> Turning(content, junk, seen, buf, rest)
        invariant eof ==> seen == Turns(content, junk)
        decreases !eof, |rest|
      {
        var n := LineLength(rest, ROOM);
        if rest == [] { LastTurn(content, junk, seen, buf); } else { NextTurn(content, junk, seen, buf, rest); }
        if n > 0 {
          buf := rest[..n];
          rest := rest[n..];
        }
        eof := n < ROOM && (n == 0 || buf[n - 1] != '\n');
        DeliverAllAppend(seen, buf);
        seen := seen + [buf];
        match Entry(buf) {
          case None =>
          case Some(e) => settings := settings[Upper(e.0) := e.1];
        }
      }
    }

    /** One line of config_replace: the line to write, whether it sets the key, and whether to this very value. */
    method RewriteLine(buf: string, ukey: string, value: string) returns (line: string, found: bool, holds: bool)
      ensures line == Rewritten(buf, ukey, value)
      ensures found == Matches(buf, ukey) && holds == Holds(buf, ukey, value)
    {
      line, found, holds := buf, false, false;
      if Entry(buf).Some? {
        var (oldKey, oldValue) := Entry(buf).value;
        if Upper(oldKey) == ukey {
          if oldValue == value {
            holds := true;
          } else {
            line := Line(ukey, value);
          }
          found := true;
        }
      }
    }

    /** config_replace. */
    method Replace(key: string, value: string) returns (ret: int)
      modifies this`content
      ensures content == if opens && tempOpens then Replaced(old(content), Upper(key), value) else old(content)
      ensures ret == if !opens then -2 else if !tempOpens then -3
                     else if AnyMatches(Chunks(old(content)), Upper(key)) then 0 else -1
    {
      var ukey := Upper(key);
      if !opens {
        return -2;
      }
      if !tempOpens {
        return -3;
      }
      var same, written;
      written, same, ret := Rebuild(ukey, value);
      if !same {
        content := written;
      }
    }

    /** The loop of config_replace: the rebuilt file, whether some line holds the value already, and the result. */
    method Rebuild(ukey: string, value: string) returns (written: string, same: bool, ret: int)
      ensures written == Concat(RewriteAll(Chunks(content), ukey, value))
      ensures same == AnyHolds(Chunks(content), ukey, value)
      ensures ret == if AnyMatches(Chunks(content), ukey) then 0 else -1
    {
      written, same, ret := "", false, -1;
      var rest := content;
      ghost var pieces, i := Chunks(content), 0;
      NoProgress(pieces, ukey, value);
      hide Progress, Matches, Holds, Rewritten, LineLength, Complete, Entry;
      while rest != []
        invariant 0 <= i <= |pieces| && pieces[i..] == Chunks(rest)
        invariant Progress(pieces, i, ukey, value, written, same, ret)
        decreases |rest|
      {
        var n := LineLength(rest, ROOM);
        NextPiece(pieces, i, rest);
        OneMorePiece(pieces, i, ukey, value, written, same, ret);
        var line, found, holds := RewriteLine(rest[..n], ukey, value);
        rest := rest[n..];
        same := same || holds;
        ret := if found then 0 else ret;
        written := written + line;
        i := i + 1;
      }
      assert |pieces[i..]| == 0;
      AllProgress(pieces, ukey, value, written, same, ret);
    }
  }

  /** The rewriting loop after i pieces. */
  ghost predicate Progress(pieces: seq<string>, i: nat, ukey: string, value: string,
                           written: string, same: bool, ret: int)
    requires i <= |pieces|
  {
    && written == Concat(RewriteAll(pieces[..i], ukey, value))
    && (same <==> AnyHolds(pieces[..i], ukey, value))
    && ret == (if AnyMatches(pieces[..i], ukey) then 0 else -1)
  }

  lemma NoProgress(pieces: seq<string>, ukey: string, value: string)
    ensures Progress(pieces, 0, ukey, value, "", false, -1)
  {
  }

  lemma AllProgress(pieces: seq<string>, ukey: string, value: string, written: string, same: bool, ret: int)
    requires Progress(pieces, |pieces|, ukey, value, written, same, ret)
    ensures written == Concat(RewriteAll(pieces, ukey, value)) && (same <==> AnyHolds(pieces, ukey, value))
    ensures ret == if AnyMatches(pieces, ukey) then 0 else -1
  {
    assert pieces[..|pieces|] == pieces;
  }

  lemma {:induction false} ConcatAppend(pieces: seq<string>, p: string)
    ensures Concat(pieces + [p]) == Concat(pieces) + p
  {
    if pieces == [] {
      assert (pieces + [p])[1..] == [];
    } else {
      assert (pieces + [p])[1..] == pieces[1..] + [p];
      ConcatAppend(pieces[1..], p);
    }
  }

  lemma OneMoreLine(pieces: seq<string>, i: nat, ukey: string, value: string)
    requires i < |pieces|
    ensures Concat(RewriteAll(pieces[..i + 1], ukey, value))
         == Concat(RewriteAll(pieces[..i], ukey, value)) + Rewritten(pieces[i], ukey, value)
  {
    var a, b, line := pieces[..i], pieces[..i + 1], Rewritten(pieces[i], ukey, value);
    ConcatAppend(RewriteAll(a, ukey, value), line);
    assert RewriteAll(b, ukey, value) == RewriteAll(a, ukey, value) + [line];
  }

  lemma OneMoreAny(pieces: seq<string>, i: nat, p: string -> bool)
    requires i < |pieces|
    ensures Any(pieces[..i + 1], p) <==> Any(pieces[..i], p) || p(pieces[i])
  {
    assert pieces[..i + 1][i] == pieces[i];
    forall j | 0 <= j < i ensures pieces[..i][j] == pieces[..i + 1][j] {}
  }

  lemma OneMorePiece(pieces: seq<string>, i: nat, ukey: string, value: string, written: string, same: bool, ret: int)
    requires i < |pieces| && Progress(pieces, i, ukey, value, written, same, ret)
    ensures Progress(pieces, i + 1, ukey, value, written + Rewritten(pieces[i], ukey, value),
                     same || Holds(pieces[i], ukey, value), if Matches(pieces[i], ukey) then 0 else ret)
  {
    OneMoreLine(pieces, i, ukey, value);
    OneMoreAny(pieces, i, Setting(ukey));
    OneMoreAny(pieces, i, Holding(ukey, value));
  }

  // ---------------------------------------------------------------------------------------------------------
  // Rewriting agrees with reading

  /** Values that survive a round trip through a line. */
  predicate GoodValue(value: string) {
    0 < |value| <= 127 && !IsSpace(value[0]) && '\n' !in value
  }

  predicate GoodKey(key: string) {
    0 < |key| <= 127 && key[0] != '#' && '=' !in key && '\n' !in key
  }

  lemma {:induction false} FieldLengthIs(s: string, stop: char, room: nat, n: nat)
    requires n <= |s| && n <= room && forall i | 0 <= i < n :: s[i] != stop
    requires n == |s| || n == room || s[n] == stop
    ensures FieldLength(s, stop, room) == n
  {
    if n > 0 { FieldLengthIs(s[1..], stop, room - 1, n - 1); }
  }

  /** Up to the equals sign, the line written for a key scans as that key. */
  lemma LineScansKey(ukey: string, value: string)
    requires GoodKey(ukey)
    ensures FieldLength(Line(ukey, value), '=', MAX_FIELD) == |ukey|
    ensures Line(ukey, value)[..|ukey|] == ukey && Line(ukey, value)[|ukey|..] == "=" + value + "\n"
  {
    FieldLengthIs(Line(ukey, value), '=', MAX_FIELD, |ukey|);
  }

  lemma ReadValuesAreGood(buf: string)
    ensures Entry(buf).Some? ==> GoodValue(Entry(buf).value.1)
  {
    if Entry(buf).Some? {
      var afterKey := buf[FieldLength(buf, '=', MAX_FIELD)..];
      var afterEquals := afterKey[SkipSpaces(afterKey) + 1..];
      var rest := afterEquals[SkipSpaces(afterEquals)..];
      FieldStops(rest, '\n', MAX_FIELD);
      assert Entry(buf).value.1 == rest[..FieldLength(rest, '\n', MAX_FIELD)];
    }
  }

  /** The line written for a key and value reads back as that key and value exactly when the value is good. */
  lemma LineReadsBack(ukey: string, value: string)
    requires GoodKey(ukey)
    ensures Entry(Line(ukey, value)) == Some((ukey, value)) <==> GoodValue(value)
  {
    var buf := Line(ukey, value);
    LineScansKey(ukey, value);
    var afterKey := buf[|ukey|..];
    assert SkipSpaces(afterKey) == 0 && afterKey[0] == '=';
    var afterEquals := value + "\n";
    assert afterKey[1..] == afterEquals;
    var rest := afterEquals[SkipSpaces(afterEquals)..];
    var v := FieldLength(rest, '\n', MAX_FIELD);
    assert Entry(buf) == if v == 0 then None else Some((ukey, rest[..v]));
    if GoodValue(value) {
      assert SkipSpaces(afterEquals) == 0 && rest == afterEquals;
      FieldLengthIs(rest, '\n', MAX_FIELD, |value|);
      assert rest[..|value|] == value;
    } else {
      ReadValuesAreGood(buf);
    }
  }

  /** A line that begins with # sets nothing and is written back as it is. */
  lemma CommentsSetNothing(rest: string, ukey: string, value: string)
    ensures Entry("#" + rest) == None && !Matches("#" + rest, ukey)
    ensures Rewritten("#" + rest, ukey, value) == "#" + rest
  {
  }

  /** Spaces and tabs behind the equals sign are passed over. */
  lemma SpacesBeforeValue(key: string, spaces: string, value: string)
    requires GoodKey(key) && GoodValue(value)
    requires forall i | 0 <= i < |spaces| :: spaces[i] in {' ', '\t'}
    ensures Entry(key + "=" + spaces + value + "\n") == Some((key, value))
  {
    var buf, tail := key + "=" + spaces + value + "\n", spaces + (value + "\n");
    FieldLengthIs(buf, '=', MAX_FIELD, |key|);
    var afterKey := buf[|key|..];
    assert SkipSpaces(afterKey) == 0 && afterKey[0] == '=' && buf[..|key|] == key;
    assert afterKey[1..] == tail;
    SpacesSkipped(spaces, value + "\n");
    var rest := value + "\n";
    assert tail[|spaces|..] == rest;
    FieldLengthIs(rest, '\n', MAX_FIELD, |value|);
    assert rest[..|value|] == value;
  }

  lemma {:induction false} SpacesSkipped(spaces: string, rest: string)
    requires forall i | 0 <= i < |spaces| :: spaces[i] in {' ', '\t'}
    requires rest != [] && !IsSpace(rest[0])
    ensures SkipSpaces(spaces + rest) == |spaces|
  {
    if spaces == [] {
      assert spaces + rest == rest;
    } else {
      assert (spaces + rest)[1..] == spaces[1..] + rest;
      SpacesSkipped(spaces[1..], rest);
    }
  }

  const LETTERS := "abcdefghijklmnopqrstuvwxyz"
  const CAPITALS := "ABCDEFGHIJKLMNOPQRSTUVWXYZ"

  /** The capital of each letter, other characters unchanged. */
  lemma UpperOfLetters(s: string, i: nat, k: nat)
    requires i < |s| && k < 26
    ensures s[i] == LETTERS[k] ==> Upper(s)[i] == CAPITALS[k]
    ensures s[i] !in LETTERS ==> Upper(s)[i] == s[i]
  {
    assert |LETTERS| == 26 && |CAPITALS| == 26;
    assert forall j: nat | j < 26 :: LETTERS[j] as int == 97 + j;
    assert forall j: nat | j < 26 :: CAPITALS[j] as int == 65 + j;
    if 'a' <= s[i] <= 'z' {
      assert LETTERS[s[i] as int - 97] == s[i];
    }
  }

  lemma UpperTwice(s: string)
    ensures Upper(Upper(s)) == Upper(s)
  {
  }

  /** A key read from a piece can be written back. */
  lemma ReadKeysAreGood(buf: string)
    requires IsPiece(buf) && Entry(buf).Some?
    ensures GoodKey(Upper(Entry(buf).value.0))
  {
    var k := FieldLength(buf, '=', MAX_FIELD);
    var key := buf[..k];
    assert Entry(buf).value.0 == key;
    assert k < |buf|;
    FieldStops(buf, '=', MAX_FIELD);
    forall i | 0 <= i < k ensures UpperChar(buf[i]) != '=' && UpperChar(buf[i]) != '\n' {}
  }

  lemma LineIsPiece(ukey: string, value: string)
    requires GoodKey(ukey) && GoodValue(value)
    ensures IsPiece(Line(ukey, value)) && Complete(Line(ukey, value))
  {
    var buf := Line(ukey, value);
    forall i | 0 <= i < |buf| - 1 ensures buf[i] != '\n' {
      assert buf[i] == if i < |ukey| then ukey[i] else if i == |ukey| then '=' else value[i - |ukey| - 1];
    }
  }

  lemma RewrittenIsPiece(buf: string, ukey: string, value: string)
    requires IsPiece(buf) && GoodValue(value)
    ensures IsPiece(Rewritten(buf, ukey, value))
    ensures Rewritten(buf, ukey, value) == buf || Complete(Rewritten(buf, ukey, value))
    ensures Entry(Rewritten(buf, ukey, value))
         == if Matches(buf, ukey) && !Holds(buf, ukey, value) then Some((ukey, value)) else Entry(buf)
  {
    if Matches(buf, ukey) && !Holds(buf, ukey, value) {
      ReadKeysAreGood(buf);
      LineIsPiece(ukey, value);
      LineReadsBack(ukey, value);
    }
  }

  /** Rewriting lines does not move the cuts between them, so every other line is still there, byte for byte. */
  lemma ReplacedPieceByPiece(content: string, ukey: string, value: string)
    requires GoodValue(value)
    ensures Chunks(Replaced(content, ukey, value))
         == if AnyHolds(Chunks(content), ukey, value) then Chunks(content) else RewriteAll(Chunks(content), ukey, value)
    ensures |Chunks(Replaced(content, ukey, value))| == |Chunks(content)|
    ensures forall i | 0 <= i < |Chunks(content)| && !Matches(Chunks(content)[i], ukey) ::
              Chunks(Replaced(content, ukey, value))[i] == Chunks(content)[i]
  {
    var pieces := Chunks(content);
    ChunksArePieces(content);
    var r := RewriteAll(pieces, ukey, value);
    forall i | 0 <= i < |pieces|
      ensures IsPiece(r[i]) && (i < |pieces| - 1 ==> Complete(r[i]))
    {
      RewrittenIsPiece(pieces[i], ukey, value);
    }
    PiecesAreChunks(r);
  }

  /** Settings with a key set, if a line for it was found. */
  function UpdatedIf(m: Settings, found: bool, ukey: string, value: string): Settings {
    if found then m[ukey := value] else m
  }

  lemma AnyMatchesLast(pieces: seq<string>, ukey: string)
    requires pieces != []
    ensures AnyMatches(pieces, ukey)
       <==> AnyMatches(pieces[..|pieces| - 1], ukey) || Matches(pieces[|pieces| - 1], ukey)
  {
    OneMoreAny(pieces, |pieces| - 1, Setting(ukey));
    assert pieces[..|pieces| - 1 + 1] == pieces;
  }

  lemma HandleRewritten(m: Settings, found: bool, e: Option<(string, string)>, e': Option<(string, string)>,
                        ukey: string, value: string)
    requires var matches := e.Some? && Upper(e.value.0) == ukey;
             e' == if matches && e.value.1 != value then Some((ukey, value)) else e
    ensures var matches := e.Some? && Upper(e.value.0) == ukey;
            Handle(UpdatedIf(m, found, ukey, value), e') == UpdatedIf(Handle(m, e), found || matches, ukey, value)
  {
    if e.Some? {
      UpperTwice(e.value.0);
    }
  }

  lemma DeliverRewritten(m: Settings, found: bool, buf: string, ukey: string, value: string)
    requires IsPiece(buf) && GoodValue(value)
    ensures Handle(UpdatedIf(m, found, ukey, value), Entry(Rewritten(buf, ukey, value)))
         == UpdatedIf(Handle(m, Entry(buf)), found || Matches(buf, ukey), ukey, value)
  {
    RewrittenIsPiece(buf, ukey, value);
    HandleRewritten(m, found, Entry(buf), Entry(Rewritten(buf, ukey, value)), ukey, value);
  }

  lemma {:induction false} RewritingSetsTheKey(pieces: seq<string>, ukey: string, value: string)
    requires GoodValue(value) && forall i | 0 <= i < |pieces| :: IsPiece(pieces[i])
    ensures DeliverAll(RewriteAll(pieces, ukey, value))
         == UpdatedIf(DeliverAll(pieces), AnyMatches(pieces, ukey), ukey, value)
  {
    if pieces != [] {
      var n := |pieces| - 1;
      var front, last := pieces[..n], pieces[n];
      var r := RewriteAll(front, ukey, value);
      RewritingSetsTheKey(front, ukey, value);
      assert RewriteAll(pieces, ukey, value) == r + [Rewritten(last, ukey, value)];
      calc {
        DeliverAll(RewriteAll(pieces, ukey, value));
        { DeliverAllAppend(r, Rewritten(last, ukey, value)); }
        Handle(DeliverAll(r), Entry(Rewritten(last, ukey, value)));
        { DeliverRewritten(DeliverAll(front), AnyMatches(front, ukey), last, ukey, value); }
        UpdatedIf(Handle(DeliverAll(front), Entry(last)), AnyMatches(front, ukey) || Matches(last, ukey), ukey, value);
        { AnyMatchesLast(pieces, ukey); DeliverAllLast(pieces); }
        UpdatedIf(DeliverAll(pieces), AnyMatches(pieces, ukey), ukey, value);
      }
    }
  }

  lemma {:induction false} HeldKeyIsSet(pieces: seq<string>, ukey: string)
    ensures ukey in DeliverAll(pieces) <==> AnyMatches(pieces, ukey)
  {
    if pieces != [] {
      HeldKeyIsSet(pieces[..|pieces| - 1], ukey);
      AnyMatchesLast(pieces, ukey);
      DeliverAllLast(pieces);
    }
  }

  lemma HeldIsMatched(pieces: seq<string>, ukey: string, value: string)
    requires AnyHolds(pieces, ukey, value)
    ensures AnyMatches(pieces, ukey)
  {
    var i :| 0 <= i < |pieces| && Holding(ukey, value)(pieces[i]);
    assert Setting(ukey)(pieces[i]);
  }

  lemma UnchangedWhenSet(m: Settings, ukey: string, value: string)
    requires ukey in m
    ensures m == m[ukey := value] <==> m[ukey] == value
  {
    if m[ukey] == value { assert m[ukey := value] == m; } else { assert m[ukey := value][ukey] != m[ukey]; }
  }

  /** Reading the file after config_replace gives the old settings with only the key changed, exactly when no line held
      the value before or the key's last line did; a value already held by an earlier line keeps a later line from
      being rewritten. A file that does not set the key keeps its settings. */
  lemma ReplaceSetsTheKey(content: string, ukey: string, value: string)
    requires GoodValue(value)
    ensures var pieces := Chunks(content);
            Parsed(Replaced(content, ukey, value)) == UpdatedIf(Parsed(content), AnyMatches(pieces, ukey), ukey, value)
            <==> (AnyHolds(pieces, ukey, value) ==> ukey in Parsed(content) && Parsed(content)[ukey] == value)
  {
    var pieces := Chunks(content);
    ChunksArePieces(content);
    ReplacedPieceByPiece(content, ukey, value);
    HeldKeyIsSet(pieces, ukey);
    if AnyHolds(pieces, ukey, value) {
      HeldIsMatched(pieces, ukey, value);
      UnchangedWhenSet(Parsed(content), ukey, value);
    } else {
      RewritingSetsTheKey(pieces, ukey, value);
    }
  }

  /** The key is set by at most one line. */
  predicate SetAtMostOnce(content: string, ukey: string) {
    forall i, j | 0 <= i < |Chunks(content)| && 0 <= j < |Chunks(content)|
                  && Matches(Chunks(content)[i], ukey) && Matches(Chunks(content)[j], ukey) :: i == j
  }

  lemma {:induction false} OnlyLineDecides(pieces: seq<string>, ukey: string, at: nat)
    requires at < |pieces| && Matches(pieces[at], ukey)
    requires forall j | 0 <= j < |pieces| && Matches(pieces[j], ukey) :: j == at
    ensures ukey in DeliverAll(pieces) && DeliverAll(pieces)[ukey] == Entry(pieces[at]).value.1
  {
    var n := |pieces| - 1;
    DeliverAllLast(pieces);
    if at < n {
      assert pieces[..n][at] == pieces[at];
      OnlyLineDecides(pieces[..n], ukey, at);
      assert !Matches(pieces[n], ukey);
    }
  }

  /** For a key that is set once at most, config_replace does what it promises. */
  lemma ReplaceOfSingleKey(content: string, ukey: string, value: string)
    requires GoodValue(value) && SetAtMostOnce(content, ukey)
    ensures Parsed(Replaced(content, ukey, value))
         == UpdatedIf(Parsed(content), AnyMatches(Chunks(content), ukey), ukey, value)
  {
    var pieces := Chunks(content);
    if AnyHolds(pieces, ukey, value) {
      var i :| 0 <= i < |pieces| && Holding(ukey, value)(pieces[i]);
      OnlyLineDecides(pieces, ukey, i);
    }
    ReplaceSetsTheKey(content, ukey, value);
  }

  /** A line sets the same key before and after. */
  lemma MatchesUnmoved(content: string, ukey: string, value: string, i: nat, k: string)
    requires GoodValue(value) && i < |Chunks(content)|
    ensures |Chunks(Replaced(content, ukey, value))| == |Chunks(content)|
    ensures Matches(Chunks(Replaced(content, ukey, value))[i], k) <==> Matches(Chunks(content)[i], k)
  {
    ChunksArePieces(content);
    ReplacedPieceByPiece(content, ukey, value);
    var buf := Chunks(content)[i];
    RewrittenIsPiece(buf, ukey, value);
    if Matches(buf, ukey) { UpperTwice(Entry(buf).value.0); }
  }

  /** Whichever key is set at most once stays so. */
  lemma SetAtMostOnceKept(content: string, ukey: string, value: string, k: string)
    requires GoodValue(value) && SetAtMostOnce(content, k)
    ensures SetAtMostOnce(Replaced(content, ukey, value), k)
  {
    hide Replaced, Matches, Chunks, GoodValue;
    var pieces, pieces' := Chunks(content), Chunks(Replaced(content, ukey, value));
    ReplacedPieceByPiece(content, ukey, value);
    forall i, j | 0 <= i < |pieces'| && 0 <= j < |pieces'| && Matches(pieces'[i], k) && Matches(pieces'[j], k)
      ensures i == j
    {
      MatchesUnmoved(content, ukey, value, i, k);
      MatchesUnmoved(content, ukey, value, j, k);
    }
  }

  /** Rewriting the lines of one key leaves what the lines of another hold. */
  lemma HoldsUnmoved(content: string, ukey: string, value: string, k: string, v: string)
    requires GoodValue(value) && k != ukey
    ensures AnyHolds(Chunks(Replaced(content, ukey, value)), k, v) <==> AnyHolds(Chunks(content), k, v)
  {
    var pieces, pieces' := Chunks(content), Chunks(Replaced(content, ukey, value));
    ReplacedPieceByPiece(content, ukey, value);
    forall i | 0 <= i < |pieces|
      ensures Holding(k, v)(pieces'[i]) <==> Holding(k, v)(pieces[i])
    {
      MatchesUnmoved(content, ukey, value, i, k);
    }
  }

  /** Once the lines for a key have been rewritten, they hold the value, if there are any. */
  lemma RewrittenHold(pieces: seq<string>, ukey: string, value: string)
    requires GoodValue(value) && forall i | 0 <= i < |pieces| :: IsPiece(pieces[i])
    ensures AnyHolds(RewriteAll(pieces, ukey, value), ukey, value) <==> AnyMatches(pieces, ukey)
    ensures !AnyMatches(pieces, ukey) ==> RewriteAll(pieces, ukey, value) == pieces
  {
    var r := RewriteAll(pieces, ukey, value);
    forall i | 0 <= i < |pieces|
      ensures Holding(ukey, value)(r[i]) <==> Setting(ukey)(pieces[i])
    {
      RewrittenIsPiece(pieces[i], ukey, value);
      if Matches(pieces[i], ukey) { UpperTwice(Entry(pieces[i]).value.0); }
    }
    if !AnyMatches(pieces, ukey) {
      forall i | 0 <= i < |pieces| ensures r[i] == pieces[i] {
        assert !Setting(ukey)(pieces[i]);
      }
    }
  }

  /** A second call with the same value leaves the file alone. */
  lemma ReplaceTwice(content: string, ukey: string, value: string)
    requires GoodValue(value)
    ensures Replaced(Replaced(content, ukey, value), ukey, value) == Replaced(content, ukey, value)
  {
    var pieces := Chunks(content);
    ChunksArePieces(content);
    ReplacedPieceByPiece(content, ukey, value);
    RewrittenHold(pieces, ukey, value);
    ChunksArePieces(Replaced(content, ukey, value));
  }

  lemma LineSetsKey(m: Settings, ukey: string, value: string)
    requires GoodKey(ukey) && Upper(ukey) == ukey && GoodValue(value)
    ensures Handle(m, Entry(Line(ukey, value))) == m[ukey := value] && Holds(Line(ukey, value), ukey, value)
  {
    LineReadsBack(ukey, value);
  }

  lemma TwoLines(ukey: string, value: string, other: string)
    requires GoodKey(ukey) && GoodValue(value) && GoodValue(other)
    ensures Chunks(Line(ukey, value) + Line(ukey, other)) == [Line(ukey, value), Line(ukey, other)]
  {
    var first, second := Line(ukey, value), Line(ukey, other);
    LineIsPiece(ukey, value);
    LineIsPiece(ukey, other);
    ConcatPrepend(first, [second]);
    ConcatPrepend(second, []);
    assert [second] + [] == [second] && second + [] == second && [first] + [second] == [first, second];
    PiecesAreChunks([first, second]);
  }

  /** The case the condition shuts out: of two lines for one key, the first holds the value already, and the second,
      which decides, keeps the other one. */
  lemma EarlierLineBlocksLaterOne(ukey: string, value: string, other: string)
    requires GoodKey(ukey) && Upper(ukey) == ukey && GoodValue(value) && GoodValue(other) && value != other
    ensures Replaced(Line(ukey, value) + Line(ukey, other), ukey, value) == Line(ukey, value) + Line(ukey, other)
    ensures Parsed(Line(ukey, value) + Line(ukey, other)) == map[ukey := other]
  {
    TwoLines(ukey, value, other);
    FirstHolds(Line(ukey, value), Line(ukey, other), ukey, value);
    SecondDecides(Line(ukey, value), Line(ukey, other), ukey, value, other);
  }

  lemma FirstHolds(first: string, second: string, ukey: string, value: string)
    requires GoodKey(ukey) && Upper(ukey) == ukey && GoodValue(value) && first == Line(ukey, value)
    ensures AnyHolds([first, second], ukey, value)
  {
    LineSetsKey(map[], ukey, value);
    assert Holding(ukey, value)([first, second][0]);
  }

  lemma SecondDecides(first: string, second: string, ukey: string, value: string, other: string)
    requires GoodKey(ukey) && Upper(ukey) == ukey && GoodValue(value) && GoodValue(other)
    requires first == Line(ukey, value) && second == Line(ukey, other)
    ensures DeliverAll([first, second]) == map[ukey := other]
  {
    LineSetsKey(map[], ukey, value);
    LineSetsKey(map[ukey := value], ukey, other);
    DeliverAllLast([first]);
    assert [first][..0] == [];
    DeliverAllAppend([first], second);
    assert [first] + [second] == [first, second];
    assert map[][ukey := value] == map[ukey := value];
    assert map[ukey := value][ukey := other] == map[ukey := other];
  }
}
