/** proccgi: a CGI form field is percent-decoded in place and printed as a shell assignment whose value is quoted. */
module FormValues {
  import opened Bytes
  import opened Wrappers

  const NUL: Byte := 0
  const SPACE: Byte := 32
  const QUOTE: Byte := 34
  const DOLLAR: Byte := 36
  const PERCENT: Byte := 37
  const PLUS: Byte := 43
  const EQUALS: Byte := 61
  const BACKSLASH: Byte := 92
  const UNDERSCORE: Byte := 95
  const BACKQUOTE: Byte := 96
  const NEWLINE: Byte := 10

  predicate IsSpace(b: Byte) {
    b == SPACE || 9 <= b <= 13
  }

  predicate IsDigit(b: Byte) {
    48 <= b <= 57
  }

  predicate IsAlpha(b: Byte) {
    65 <= b <= 90 || 97 <= b <= 122
  }

  predicate IsHex(b: Byte) {
    IsDigit(b) || 65 <= b <= 70 || 97 <= b <= 102
  }

  function HexValue(b: Byte): (v: nat)
    requires IsHex(b)
    ensures v < 16
  {
    if IsDigit(b) then b - 48 else if b >= 97 then b - 97 + 10 else b - 65 + 10
  }

  // ---------------------------------------------------------------------------------------------------------
  // Decoding

  predicate IsEscape(s: seq<Byte>) {
    |s| >= 3 && s[0] == PERCENT && IsHex(s[1]) && IsHex(s[2])
  }

  /** Plus signs and percent escapes decoded; a percent sign that begins no escape stands for itself. */
  function Decode(s: seq<Byte>): (d: seq<Byte>)
    ensures |d| <= |s|
  {
    if s == [] then [] else [FirstByte(s)] + Decode(s[FirstLength(s)..])
  }

  /** The byte that the front of a string stands for, and how many bytes spell it. */
  function FirstByte(s: seq<Byte>): Byte
    requires s != []
  {
    if s[0] == PLUS then SPACE else if IsEscape(s) then 16 * HexValue(s[1]) + HexValue(s[2]) else s[0]
  }

  function FirstLength(s: seq<Byte>): (n: nat)
    requires s != []
    ensures 1 <= n <= |s|
  {
    if IsEscape(s) then 3 else 1
  }

  function SkipSpaces(s: seq<Byte>): seq<Byte> {
    if s != [] && IsSpace(s[0]) then SkipSpaces(s[1..]) else s
  }

  function TrimRight(s: seq<Byte>): (t: seq<Byte>)
    ensures |t| <= |s| && t == s[..|t|]
  {
    if s != [] && IsSpace(s[|s| - 1]) then TrimRight(s[..|s| - 1]) else s
  }

  /** What ParseString leaves in its buffer. */
  function Parsed(s: seq<Byte>): seq<Byte> {
    TrimRight(Decode(SkipSpaces(s)))
  }

  /** The string that starts at a pointer into a buffer. */
  predicate IsString(buf: seq<Byte>, len: nat) {
    len < |buf| && buf[len] == NUL && forall i | 0 <= i < len :: buf[i] != NUL
  }

  lemma SkipOne(s: seq<Byte>, from: nat)
    requires from < |s| && IsSpace(s[from])
    ensures SkipSpaces(s[from..]) == SkipSpaces(s[from + 1..])
  {
    assert s[from..][1..] == s[from + 1..];
  }

  /** The decoding loop takes one step from position r. */
  lemma DecodeStep(s: seq<Byte>, r: nat)
    requires r < |s|
    ensures r + FirstLength(s[r..]) <= |s|
    ensures Decode(s[r..]) == [FirstByte(s[r..])] + Decode(s[r + FirstLength(s[r..])..])
  {
    assert s[r..][FirstLength(s[r..])..] == s[r + FirstLength(s[r..])..];
  }

  /** Where the string begins once leading white space is skipped. */
  method SkipLeading(a: array<Byte>, ghost len: nat) returns (r: nat)
    requires IsString(a[..], len)
    ensures r <= len && a[r..len] == SkipSpaces(a[..len])
  {
    r := 0;
    ghost var s := a[..len];
    assert s[0..] == s;
    while IsSpace(a[r])
      invariant 0 <= r <= len
      invariant SkipSpaces(s) == SkipSpaces(s[r..])
      decreases len - r
    {
      assert a[r] == s[r];
      SkipOne(s, r);
      r := r + 1;
    }
    assert s[r..] == a[r..len];
    assert r < len ==> s[r..][0] == a[r];
  }

  /** A percent escape at r becomes one byte at w: the high digit is stored before the low one is read. */
  method DecodeEscape(a: array<Byte>, r: nat, w: nat)
    requires w <= r && r + 2 < a.Length && IsHex(a[r + 1]) && IsHex(a[r + 2])
    modifies a
    ensures a[..] == old(a[..])[w := 16 * HexValue(old(a[r + 1])) + HexValue(old(a[r + 2]))]
  {
    a[w] := 16 * HexValue(a[r + 1]);
    a[w] := a[w] + HexValue(a[r + 2]);
  }

  /** One turn of the loop: the byte spelled at r is stored at w. */
  method DecodeOne(a: array<Byte>, r: nat, w: nat, ghost len: nat) returns (n: nat)
    requires w <= r < len < a.Length && a[len] == NUL
    modifies a
    ensures n == FirstLength(old(a[r..len]))
    ensures a[..] == old(a[..])[w := FirstByte(old(a[r..len]))]
  {
    ghost var s := a[r..len];
    if a[r] == PLUS {
      a[w] := SPACE;
      return 1;
    }
    if a[r] == PERCENT && IsHex(a[r + 1]) && IsHex(a[r + 2]) {
      assert IsEscape(s);
      DecodeEscape(a, r, w);
      return 3;
    }
    assert !IsEscape(s);
    a[w] := a[r];
    return 1;
  }

  /** The two-pointer pass from position `from` on. The write position never passes the read position: at the head of
      the loop every byte still to be read is as it was. */
  method DecodeInPlace(a: array<Byte>, from: nat, ghost len: nat) returns (w: nat)
    requires IsString(a[..], len) && from <= len
    modifies a
    ensures w <= len && a[..w] == Decode(old(a[from..len]))
    ensures a[len + 1..] == old(a[len + 1..])
  {
    hide Decode, FirstByte, FirstLength;
    ghost var whole := a[..];
    ghost var s := whole[..len];
    assert s[from..] == a[from..len];
    var r := from;
    w := 0;
    assert a[..0] + Decode(s[from..]) == Decode(s[from..]);
    while a[r] != NUL
      invariant 0 <= w <= r && from <= r <= len < a.Length
      invariant forall k | r <= k < a.Length :: a[k] == whole[k]
      invariant Decode(s[from..]) == a[..w] + Decode(s[r..])
      decreases len - r
    {
      ghost var done := a[..w];
      assert a[r..len] == s[r..];
      DecodeStep(s, r);
      var n := DecodeOne(a, r, w, len);
      w := w + 1;
      r := r + n;
      assert a[..w] == done + [a[w - 1]];
      assert done + ([a[w - 1]] + Decode(s[r..])) == a[..w] + Decode(s[r..]);
    }
    assert s[r..] == [];
    DecodeNothing();
    assert a[..w] + [] == a[..w];
  }

  lemma DecodeNothing()
    ensures Decode([]) == []
  {
  }

  /** Decodes the string in `a` in place. */
  method ParseString(a: array?<Byte>, ghost len: nat) returns (r: array?<Byte>, ghost end: nat)
    requires a != null ==> IsString(a[..], len)
    modifies a
    ensures r == a
    ensures a != null ==> end <= len < a.Length && a[..end] == Parsed(old(a[..len])) && a[end] == NUL
    ensures a != null ==> a[len + 1..] == old(a[len + 1..])
  {
    if a == null {
      return null, 0;
    }
    ghost var s := a[..len];
    var from := SkipLeading(a, len);
    var w := DecodeInPlace(a, from, len);
    while w > 0 && IsSpace(a[w - 1])
      invariant 0 <= w <= len && TrimRight(a[..w]) == Parsed(s)
    {
      assert a[..w][..w - 1] == a[..w - 1];
      w := w - 1;
    }
    assert TrimRight(a[..w]) == a[..w];
    a[w] := NUL;
    r, end := a, w;
  }

  // ---------------------------------------------------------------------------------------------------------
  // Encoding, section 2.1 of RFC 3986, with a plus sign for a space

  predicate Unreserved(b: Byte) {
    IsAlpha(b) || IsDigit(b) || b == 45 || b == 46 || b == UNDERSCORE || b == 126
  }

  function HexDigit(v: nat): Byte
    requires v < 16
  {
    if v < 10 then 48 + v else 65 + v - 10
  }

  function EncodeByte(b: Byte): seq<Byte> {
    if Unreserved(b) then [b]
    else if b == SPACE then [PLUS]
    else [PERCENT, HexDigit(b / 16), HexDigit(b % 16)]
  }

  function Encode(s: seq<Byte>): seq<Byte> {
    if s == [] then [] else EncodeByte(s[0]) + Encode(s[1..])
  }

  lemma DecodeEncodedByte(b: Byte, rest: seq<Byte>)
    ensures Decode(EncodeByte(b) + rest) == [b] + Decode(rest)
  {
    var e := EncodeByte(b);
    assert (e + rest)[|e|..] == rest;
    if !Unreserved(b) && b != SPACE {
      var h, l := HexDigit(b / 16), HexDigit(b % 16);
      assert HexValue(h) == b / 16 && HexValue(l) == b % 16;
      assert (e + rest)[1] == h && (e + rest)[2] == l;
    }
  }

  /** Decoding undoes encoding, in front of anything. */
  lemma {:induction false} DecodeEncoded(s: seq<Byte>, rest: seq<Byte>)
    ensures Decode(Encode(s) + rest) == s + Decode(rest)
  {
    hide EncodeByte, FirstByte, FirstLength;
    if s == [] {
      assert [] + rest == rest;
    } else {
      assert Encode(s) + rest == EncodeByte(s[0]) + (Encode(s[1..]) + rest);
      DecodeEncodedByte(s[0], Encode(s[1..]) + rest);
      DecodeEncoded(s[1..], rest);
      assert [s[0]] + (s[1..] + Decode(rest)) == s + Decode(rest);
    }
  }

  lemma {:induction false} EncodedHasNoSpaces(s: seq<Byte>)
    ensures forall b | b in Encode(s) :: !IsSpace(b) && b != NUL
  {
    if s != [] {
      EncodedHasNoSpaces(s[1..]);
      forall b | b in EncodeByte(s[0]) ensures !IsSpace(b) && b != NUL {}
    }
  }

  /** Encoding any string and parsing the result gives the string back, trailing white space trimmed. */
  lemma ParseEncoded(s: seq<Byte>)
    ensures Parsed(Encode(s)) == TrimRight(s)
  {
    EncodedHasNoSpaces(s);
    assert SkipSpaces(Encode(s)) == Encode(s) by {
      if Encode(s) != [] { assert Encode(s)[0] in Encode(s); }
    }
    DecodeEncoded(s, []);
    assert Encode(s) + [] == Encode(s) && s + [] == s;
  }

  // ---------------------------------------------------------------------------------------------------------
  // What else may be sent

  predicate Blank(b: Byte) {
    b in {32, 9, 10, 11, 12, 13}
  }

  predicate AllBlank(s: seq<Byte>) {
    forall i | 0 <= i < |s| :: Blank(s[i])
  }

  /** The value of a hexadecimal digit, the letters in either case. */
  predicate DigitOf(b: Byte, v: nat) {
    || (b == 48 + v && v < 10)
    || ((b == 65 + v - 10 || b == 97 + v - 10) && 10 <= v < 16)
  }

  /** A percent sign and two hexadecimal digits, the letters in either case, are one byte. */
  lemma EscapeOfEitherCase(h: Byte, l: Byte, u: nat, v: nat, rest: seq<Byte>)
    requires DigitOf(h, u) && DigitOf(l, v)
    ensures Decode([PERCENT, h, l] + rest) == [16 * u + v] + Decode(rest)
  {
    var s := [PERCENT, h, l] + rest;
    assert IsEscape(s) && s[3..] == rest;
  }

  /** A plus sign is a space, and a percent sign without two digits behind it, like any other byte, stands for itself. */
  lemma OtherBytesDecode(b: Byte, rest: seq<Byte>)
    requires b == 37 ==> |rest| < 2 || forall u, v | DigitOf(rest[0], u) :: !DigitOf(rest[1], v)
    ensures Decode([b] + rest) == [if b == 43 then 32 else b] + Decode(rest)
  {
    var s := [b] + rest;
    assert s[1..] == rest;
    if b == PERCENT && |rest| >= 2 && IsHex(rest[0]) && IsHex(rest[1]) {
      assert DigitOf(rest[0], HexValue(rest[0])) && DigitOf(rest[1], HexValue(rest[1]));
    }
  }

  /** White space in front of a string makes no difference. */
  lemma {:induction false} BlanksInFront(blanks: seq<Byte>, s: seq<Byte>)
    requires AllBlank(blanks)
    ensures Parsed(blanks + s) == Parsed(s)
  {
    if blanks == [] {
      assert blanks + s == s;
    } else {
      assert Blank(blanks[0]) && (blanks + s)[0] == blanks[0] && (blanks + s)[1..] == blanks[1..] + s;
      BlanksInFront(blanks[1..], s);
    }
  }

  /** What is trimmed is all the white space at the end. */
  lemma {:induction false} TrimmedExactly(s: seq<Byte>)
    ensures var t := TrimRight(s);
            t <= s && AllBlank(s[|t|..]) && (t != [] ==> !Blank(t[|t| - 1]))
  {
    if s != [] && IsSpace(s[|s| - 1]) {
      var front := s[..|s| - 1];
      TrimmedExactly(front);
      assert s[|TrimRight(front)|..] == front[|TrimRight(front)|..] + [s[|s| - 1]];
    }
  }

  // ---------------------------------------------------------------------------------------------------------
  // Printing the assignment

  predicate NameStart(b: Byte) {
    IsAlpha(b) || b == UNDERSCORE
  }

  predicate NameByte(b: Byte) {
    IsAlpha(b) || IsDigit(b) || b == UNDERSCORE
  }

  /** The bytes before the first NUL. */
  function UpToNul(s: seq<Byte>): seq<Byte> {
    if s == [] || s[0] == NUL then [] else [s[0]] + UpToNul(s[1..])
  }

  function NameLength(s: seq<Byte>): (n: nat)
    ensures n <= |s|
  {
    if s == [] || !NameByte(s[0]) then 0 else 1 + NameLength(s[1..])
  }

  predicate Special(b: Byte) {
    b == QUOTE || b == BACKSLASH || b == BACKQUOTE || b == DOLLAR
  }

  function EscapeValue(v: seq<Byte>): seq<Byte> {
    if v == [] then [] else (if Special(v[0]) then [BACKSLASH, v[0]] else [v[0]]) + EscapeValue(v[1..])
  }

  const FORM: seq<Byte> := [70, 79, 82, 77, UNDERSCORE]

  /** A field is accepted when it is a name followed by an equals sign. */
  predicate Accepted(field: seq<Byte>) {
    field != [] && NameStart(field[0]) && NameLength(field) < |field| && field[NameLength(field)] == EQUALS
  }

  function Assignment(field: seq<Byte>): seq<Byte>
    requires Accepted(field)
  {
    var n := NameLength(field);
    FORM + field[..n] + [EQUALS, QUOTE] + EscapeValue(field[n + 1..]) + [QUOTE, NEWLINE]
  }

  /** What HandleString prints for an input. */
  function Printed(input: seq<Byte>): seq<Byte> {
    PrintedField(UpToNul(Parsed(input)))
  }

  function PrintedField(field: seq<Byte>): seq<Byte> {
    if Accepted(field) then Assignment(field) else []
  }

  lemma {:induction false} UpToNulCut(s: seq<Byte>)
    ensures UpToNul(s + [NUL]) == UpToNul(s)
  {
    if s != [] {
      assert (s + [NUL])[1..] == s[1..] + [NUL];
      UpToNulCut(s[1..]);
    }
  }

  lemma {:induction false} NameLengthIs(s: seq<Byte>, n: nat)
    requires n <= |s| && (forall i | 0 <= i < n :: NameByte(s[i])) && (n < |s| ==> !NameByte(s[n]))
    ensures NameLength(s) == n
  {
    if n > 0 { NameLengthIs(s[1..], n - 1); }
  }

  lemma {:induction false} EscapeAppend(v: seq<Byte>, b: Byte)
    ensures EscapeValue(v + [b]) == EscapeValue(v) + if Special(b) then [BACKSLASH, b] else [b]
  {
    if v == [] {
      assert (v + [b])[1..] == [];
    } else {
      assert (v + [b])[1..] == v[1..] + [b];
      EscapeAppend(v[1..], b);
    }
  }

  /** The bytes up to a NUL with quotes, backslashes, backquotes and dollar signs escaped. */
  method PrintEscaped(data: array<Byte>, from: nat, ghost end: nat) returns (out: seq<Byte>)
    requires from <= end && IsString(data[..], end)
    ensures out == EscapeValue(data[from..end])
  {
    out := [];
    var q := from;
    while data[q] != NUL
      invariant from <= q <= end
      invariant out == EscapeValue(data[from..q])
      decreases end - q
    {
      EscapeAppend(data[from..q], data[q]);
      assert data[from..q] + [data[q]] == data[from..q + 1];
      if Special(data[q]) {
        out := out + [BACKSLASH];
      }
      out := out + [data[q]];
      q := q + 1;
    }
  }

  method HandleString(input: seq<Byte>) returns (out: seq<Byte>)
    requires NUL !in input
    ensures out == Printed(input)
  {
    var data := new Byte[|input| + 1](i requires 0 <= i < |input| + 1 => if i < |input| then input[i] else NUL);
    assert data[..|input|] == input;
    var ptr;
    ghost var end;
    ptr, end := ParseString(data, |input|);
    ghost var all := data[..end + 1];
    assert all == Parsed(input) + [NUL];
    UpToNulCut(Parsed(input));
    out := PrintAssignment(ptr, end);
  }

  /** The part of HandleString that works on the parsed buffer: check the name, then print. */
  method PrintAssignment(data: array<Byte>, ghost end: nat) returns (out: seq<Byte>)
    requires end < data.Length && data[end] == NUL
    ensures out == PrintedField(UpToNul(data[..end + 1]))
  {
    hide NameLength, EscapeValue;
    ghost var all := data[..end + 1];
    out := [];
    if !NameStart(data[0]) {
      FieldBegins(all);
      return;
    }
    var p := 1;
    while NameByte(data[p])
      invariant 1 <= p <= end
      invariant forall i | 0 <= i < p :: NameByte(data[i])
      decreases end - p
    {
      p := p + 1;
    }
    NameOfField(all, p);
    if data[p] != EQUALS {
      return;
    }
    ghost var field := UpToNul(all);
    UpToNulPrefix(all, p);
    ghost var stop := |field|;
    StringOfField(data[..], end);
    assert field == data[..stop];
    var value := PrintEscaped(data, p + 1, stop);
    assert field[..p] == data[..p] && field[p + 1..] == data[p + 1..stop];
    out := FORM + data[..p] + [EQUALS, QUOTE] + value + [QUOTE, NEWLINE];
  }

  lemma {:induction false} UpToNulStops(s: seq<Byte>)
    ensures |UpToNul(s)| <= |s| && UpToNul(s) == s[..|UpToNul(s)|]
    ensures |UpToNul(s)| < |s| ==> s[|UpToNul(s)|] == NUL
    ensures NUL !in UpToNul(s) && (NUL in s ==> |UpToNul(s)| < |s|)
  {
    if s != [] && s[0] != NUL { UpToNulStops(s[1..]); }
  }

  lemma StringOfField(buf: seq<Byte>, end: nat)
    requires end < |buf| && buf[end] == NUL
    ensures IsString(buf, |UpToNul(buf[..end + 1])|)
    ensures UpToNul(buf[..end + 1]) == buf[..|UpToNul(buf[..end + 1])|]
  {
    var all := buf[..end + 1];
    var field := UpToNul(all);
    assert all[end] == NUL;
    UpToNulStops(all);
    forall i | 0 <= i < |field| ensures buf[i] != NUL { assert field[i] in field; }
  }

  lemma FieldBegins(all: seq<Byte>)
    requires all != [] && !NameStart(all[0])
    ensures !Accepted(UpToNul(all))
  {
  }

  /** How far the name of a NUL-terminated buffer reaches, and whether the field is accepted. */
  lemma NameOfField(all: seq<Byte>, p: nat)
    requires 1 <= p < |all| && all[|all| - 1] == NUL
    requires NameStart(all[0]) && !NameByte(all[p]) && forall i | 0 <= i < p :: NameByte(all[i])
    ensures var field := UpToNul(all);
            && NameLength(field) == p
            && (Accepted(field) <==> all[p] == EQUALS)
  {
    UpToNulPrefix(all, p);
    var field := UpToNul(all);
    hide UpToNul, NameLength;
    assert forall i | 0 <= i < p :: field[i] == field[..p][i] == all[..p][i] == all[i];
    NameLengthIs(field, p);
  }

  lemma {:induction false} UpToNulPrefix(s: seq<Byte>, p: nat)
    requires p < |s| && forall i | 0 <= i < p :: s[i] != NUL
    ensures p <= |UpToNul(s)| && UpToNul(s)[..p] == s[..p]
    ensures s[p] != NUL ==> p < |UpToNul(s)| && UpToNul(s)[p] == s[p]
    ensures s[p] == NUL ==> p == |UpToNul(s)|
  {
    if p > 0 {
      UpToNulPrefix(s[1..], p - 1);
      assert UpToNul(s) == [s[0]] + UpToNul(s[1..]);
    }
  }

  // ---------------------------------------------------------------------------------------------------------
  // Reading it back

  /** What the shell reads up to the closing double quote (section 2.2.3 of the POSIX Shell Command Language): the value
      and what follows; None if the quote is not closed or something in it would be expanded. */
  function ReadQuoted(s: seq<Byte>): Option<(seq<Byte>, seq<Byte>)> {
    if s == [] then None
    else if s[0] == QUOTE then Some(([], s[1..]))
    else if s[0] == DOLLAR || s[0] == BACKQUOTE then None
    else if s[0] == BACKSLASH && |s| >= 2 && s[1] == NEWLINE then ReadQuoted(s[2..])
    else if s[0] == BACKSLASH && |s| >= 2 && s[1] in {DOLLAR, BACKQUOTE, QUOTE, BACKSLASH} then
      Prepend(s[1], ReadQuoted(s[2..]))
    else Prepend(s[0], ReadQuoted(s[1..]))
  }

  function Prepend(b: Byte, r: Option<(seq<Byte>, seq<Byte>)>): Option<(seq<Byte>, seq<Byte>)> {
    match r
    case None => None
    case Some(v) => Some(([b] + v.0, v.1))
  }

  /** The shell reads the printed value as the value itself: nothing in it is expanded, and the quote ends where it
      should. */
  lemma {:induction false} QuotedReadsBack(v: seq<Byte>, rest: seq<Byte>)
    ensures ReadQuoted(EscapeValue(v) + [QUOTE] + rest) == Some((v, rest))
  {
    var s := EscapeValue(v) + [QUOTE] + rest;
    if v == [] {
      assert s == [QUOTE] + rest && s[1..] == rest;
    } else {
      QuotedReadsBack(v[1..], rest);
      var tail := EscapeValue(v[1..]) + [QUOTE] + rest;
      if Special(v[0]) {
        assert s == [BACKSLASH, v[0]] + tail && s[2..] == tail;
      } else {
        assert s == [v[0]] + tail && s[1..] == tail;
      }
      assert [v[0]] + v[1..] == v;
    }
  }

  /** A name of the shell: letters, digits and underscores, of which the first is no digit. */
  predicate IsName(name: seq<Byte>) {
    && name != [] && !(48 <= name[0] <= 57)
    && forall i | 0 <= i < |name| ::
         65 <= name[i] <= 90 || 97 <= name[i] <= 122 || 48 <= name[i] <= 57 || name[i] == 95
  }

  lemma {:induction false} DecodeName(name: seq<Byte>, rest: seq<Byte>)
    requires forall i | 0 <= i < |name| :: NameByte(name[i])
    ensures Decode(name + rest) == name + Decode(rest)
  {
    if name == [] {
      assert name + rest == rest;
    } else {
      assert (name + rest)[1..] == name[1..] + rest;
      DecodeName(name[1..], rest);
      assert [name[0]] + (name[1..] + Decode(rest)) == name + Decode(rest);
    }
  }

  lemma {:induction false} TrimKeepsFront(a: seq<Byte>, b: seq<Byte>)
    requires a != [] && !IsSpace(a[|a| - 1])
    ensures TrimRight(a + b) == a + TrimRight(b)
  {
    if b == [] {
      assert a + b == a;
    } else {
      assert (a + b)[..|a + b| - 1] == a + b[..|b| - 1];
      if IsSpace(b[|b| - 1]) { TrimKeepsFront(a, b[..|b| - 1]); }
    }
  }

  lemma {:induction false} UpToNulOfNulFree(s: seq<Byte>)
    requires NUL !in s
    ensures UpToNul(s) == s
  {
    if s != [] {
      assert s[0] in s;
      UpToNulOfNulFree(s[1..]);
    }
  }

  /** The field a browser sends for a name and a value. */
  function Field(name: seq<Byte>, value: seq<Byte>): seq<Byte> {
    name + [EQUALS] + Encode(value)
  }

  lemma FieldParses(name: seq<Byte>, value: seq<Byte>)
    requires IsName(name)
    ensures Parsed(Field(name, value)) == name + [EQUALS] + TrimRight(value)
  {
    var f, front := Field(name, value), name + [EQUALS];
    assert f[0] == name[0] && SkipSpaces(f) == f;
    calc {
      Decode(f);
      { assert f == name + ([EQUALS] + Encode(value)); DecodeName(name, [EQUALS] + Encode(value)); }
      name + Decode([EQUALS] + Encode(value));
      { assert ([EQUALS] + Encode(value))[1..] == Encode(value); }
      name + ([EQUALS] + Decode(Encode(value)));
      { DecodeEncoded(value, []); assert Encode(value) + [] == Encode(value) && value + [] == value; }
      name + ([EQUALS] + value);
      front + value;
    }
    TrimKeepsFront(front, value);
  }

  lemma FieldSplits(name: seq<Byte>, value: seq<Byte>)
    requires IsName(name)
    ensures var field := name + [EQUALS] + value;
            && Accepted(field) && NameLength(field) == |name|
            && field[..|name|] == name && field[|name| + 1..] == value
  {
    var field := name + [EQUALS] + value;
    assert field[|name|] == EQUALS && field[0] == name[0];
    NameLengthIs(field, |name|);
  }

  lemma TrimmedInValue(name: seq<Byte>, value: seq<Byte>)
    requires IsName(name) && NUL !in value
    ensures NUL !in name + [EQUALS] + TrimRight(value)
  {
    forall b | b in TrimRight(value) ensures b in value {
      assert TrimRight(value) == value[..|TrimRight(value)|];
    }
  }

  lemma AssignmentReadsBack(name: seq<Byte>, value: seq<Byte>)
    ensures var out := FORM + name + [EQUALS, QUOTE] + EscapeValue(value) + [QUOTE, NEWLINE];
            var head := FORM + name + [EQUALS, QUOTE];
            head <= out && ReadQuoted(out[|head|..]) == Some((value, [NEWLINE]))
  {
    hide EscapeValue, ReadQuoted;
    var head, tail := FORM + name + [EQUALS, QUOTE], EscapeValue(value) + [QUOTE, NEWLINE];
    var out := FORM + name + [EQUALS, QUOTE] + EscapeValue(value) + [QUOTE, NEWLINE];
    assert out == head + tail;
    assert out[|head|..] == tail && tail == EscapeValue(value) + [QUOTE] + [NEWLINE];
    QuotedReadsBack(value, [NEWLINE]);
  }

  /** End to end: a field with any NUL-free value becomes an assignment from which the shell reads the value back, its
      trailing white space trimmed. An empty value is accepted like any other. */
  lemma FieldReachesShell(name: seq<Byte>, value: seq<Byte>)
    requires IsName(name) && NUL !in value
    ensures var out, head := Printed(Field(name, value)), FORM + name + [EQUALS, QUOTE];
            head <= out && ReadQuoted(out[|head|..]) == Some((TrimRight(value), [NEWLINE]))
  {
    hide Parsed, TrimRight, EscapeValue, ReadQuoted, NameLength, UpToNul, Accepted;
    var v := TrimRight(value);
    FieldParses(name, value);
    TrimmedInValue(name, value);
    UpToNulOfNulFree(name + [EQUALS] + v);
    FieldSplits(name, v);
    assert Printed(Field(name, value)) == FORM + name + [EQUALS, QUOTE] + EscapeValue(v) + [QUOTE, NEWLINE];
    AssignmentReadsBack(name, v);
  }

  /** How far a name reaches. */
  lemma {:induction false} NameLengthStops(s: seq<Byte>)
    ensures forall i | 0 <= i < NameLength(s) :: NameByte(s[i])
  {
    if s != [] && NameByte(s[0]) {
      NameLengthStops(s[1..]);
    }
  }

  /** Whatever the input, nothing is printed or one assignment is: a name, and a quoted value that the shell reads
      literally, up to the end of the line. The two are the decoded field's. */
  lemma AnythingPrintedReadsBack(input: seq<Byte>) returns (name: seq<Byte>, value: seq<Byte>)
    ensures Printed(input) != [] <==> Accepted(UpToNul(Parsed(input)))
    ensures Printed(input) != [] ==>
              var head := [70, 79, 82, 77, 95] + name + [61, 34];
              && IsName(name) && UpToNul(Parsed(input)) == name + [EQUALS] + value
              && head <= Printed(input) && ReadQuoted(Printed(input)[|head|..]) == Some((value, [NEWLINE]))
  {
    hide Parsed, UpToNul, EscapeValue, ReadQuoted;
    var field := UpToNul(Parsed(input));
    var n := NameLength(field);
    name, value := field[..n], if n < |field| then field[n + 1..] else [];
    if Accepted(field) {
      NameLengthStops(field);
      assert n > 0 by { NameIsNotEmpty(field); }
      assert field == name + [EQUALS] + value;
      AssignmentReadsBack(name, value);
    }
  }

  lemma NameIsNotEmpty(field: seq<Byte>)
    requires field != [] && NameStart(field[0])
    ensures NameLength(field) > 0
  {
  }
}
