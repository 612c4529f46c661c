/** The boot simulator's line splitter: a logical shell line is cut at its top-level operators ; & && | ||, leaving
    quotes, escapes and anything in parentheses alone. */
module SplitTop {
  import opened Wrappers

  /** A piece of the line and the operator after it. */
  datatype Segment = Segment(text: string, op: string)

  // ---------------------------------------------------------------------------------------------------------
  // The loop, which looks one character ahead

  /** What the loop takes at one position: how many characters, the quote and depth after them, and whether they are an
      operator. */
  datatype Token = Token(length: nat, quote: Option<char>, depth: nat, isOp: bool)

  function TokenAt(text: string, i: nat, quote: Option<char>, depth: nat): (t: Token)
    requires i < |text|
    ensures 1 <= t.length <= |text| - i
  {
    var c := text[i];
    var more := i + 1 < |text|;
    if quote.Some? then Token(1, if c == quote.value then None else quote, depth, false)
    else if c == '\'' || c == '"' then Token(1, Some(c), depth, false)
    else if c == '\\' && more then Token(2, None, depth, false)
    else if c == '$' && more && text[i + 1] == '(' then Token(2, None, depth + 1, false)
    else if c == '(' then Token(1, None, depth + 1, false)
    else if c == ')' then Token(1, None, if depth > 0 then depth - 1 else 0, false)
    else if depth == 0 && c == ';' then Token(1, None, 0, true)
    else if depth == 0 && (c == '&' || c == '|') then
      if more && text[i + 1] == c then Token(2, None, 0, true) else Token(1, None, 0, true)
    else Token(1, None, depth, false)
  }

  /** The segments from position i on, `start` being where the current one began. */
  function SplitFrom(text: string, start: nat, i: nat, quote: Option<char>, depth: nat): (segs: seq<Segment>)
    requires start <= i <= |text|
    ensures segs != []
    decreases |text| - i
  {
    if i == |text| then [Segment(text[start..], "")]
    else
      var t := TokenAt(text, i, quote, depth);
      var next := i + t.length;
      if t.isOp then [Segment(text[start..i], text[i..next])] + SplitFrom(text, next, next, t.quote, t.depth)
      else SplitFrom(text, start, next, t.quote, t.depth)
  }

  function Split(text: string): seq<Segment> {
    SplitFrom(text, 0, 0, None, 0)
  }

  /** The branches of the loop body. */
  method Scan(text: string, i: nat, quote: Option<char>, depth: nat)
    returns (length: nat, quote': Option<char>, depth': nat, isOp: bool)
    requires i < |text|
    ensures Token(length, quote', depth', isOp) == TokenAt(text, i, quote, depth)
  {
    var c := text[i];
    length, quote', depth', isOp := 1, quote, depth, false;
    if quote.Some? {
      if c == quote.value {
        quote' := None;
      }
    } else if c == '\'' || c == '"' {
      quote' := Some(c);
    } else if c == '\\' && i + 1 < |text| {
      length := 2;
    } else if c == '$' && i + 1 < |text| && text[i + 1] == '(' {
      depth' := depth + 1;
      length := 2;
    } else if c == '(' {
      depth' := depth + 1;
    } else if c == ')' {
      if depth > 0 {
        depth' := depth - 1;
      }
    } else if depth == 0 {
      if c == ';' {
        isOp := true;
      } else if c == '&' || c == '|' {
        isOp := true;
        if i + 1 < |text| && text[i + 1] == c {
          length := 2;
        }
      }
    }
  }

  method SplitLine(text: string) returns (segs: seq<Segment>)
    ensures segs == Split(text)
  {
    hide TokenAt, SplitFrom;
    segs := [];
    var buf, i, quote, depth := "", 0, None, 0;
    ghost var start := 0;
    assert [] + Split(text) == Split(text);
    while i < |text|
      invariant 0 <= start <= i <= |text|
      invariant buf == text[start..i]
      invariant segs + SplitFrom(text, start, i, quote, depth) == Split(text)
    {
      SplitOnce(text, start, i, quote, depth);
      var n, isOp;
      n, quote, depth, isOp := Scan(text, i, quote, depth);
      var taken := text[i..i + n];
      if isOp {
        PrependLast(segs, Segment(buf, taken), SplitFrom(text, i + n, i + n, quote, depth));
        segs := segs + [Segment(buf, taken)];
        buf := "";
        start := i + n;
      } else {
        assert text[start..i + n] == buf + taken;
        buf := buf + taken;
      }
      i := i + n;
    }
    SplitAtEnd(text, start, quote, depth);
    assert text[start..] == buf;
    segs := segs + [Segment(buf, "")];
  }

  lemma PrependLast(segs: seq<Segment>, s: Segment, rest: seq<Segment>)
    ensures segs + ([s] + rest) == segs + [s] + rest
  {
  }

  lemma SplitOnce(text: string, start: nat, i: nat, quote: Option<char>, depth: nat)
    requires start <= i < |text|
    ensures var t := TokenAt(text, i, quote, depth);
            var next := i + t.length;
            SplitFrom(text, start, i, quote, depth)
            == if t.isOp then [Segment(text[start..i], text[i..next])] + SplitFrom(text, next, next, t.quote, t.depth)
               else SplitFrom(text, start, next, t.quote, t.depth)
  {
    hide TokenAt;
  }

  lemma SplitAtEnd(text: string, start: nat, quote: Option<char>, depth: nat)
    requires start <= |text|
    ensures SplitFrom(text, start, |text|, quote, depth) == [Segment(text[start..], "")]
  {
  }

  // ---------------------------------------------------------------------------------------------------------
  // The shell's view, one character at a time

  /** The lexical state before a character: inside a quote, at a parenthesis depth, just after a backslash, or just
      after the first character of an operator that may be doubled. */
  datatype Lex = Lex(quote: Option<char>, depth: nat, escaped: bool, half: Option<char>)

  const OUTSIDE := Lex(None, 0, false, None)

  function Step(lex: Lex, c: char): Lex {
    if lex.escaped then lex.(escaped := false, half := None)
    else if lex.quote.Some? then Lex(if c == lex.quote.value then None else lex.quote, lex.depth, false, None)
    else if c == '\'' || c == '"' then Lex(Some(c), lex.depth, false, None)
    else if c == '\\' then Lex(None, lex.depth, true, None)
    else if c == '(' then Lex(None, lex.depth + 1, false, None)
    else if c == ')' then Lex(None, if lex.depth > 0 then lex.depth - 1 else 0, false, None)
    else if lex.depth == 0 && (c == '&' || c == '|') then
      Lex(None, 0, false, if lex.half == Some(c) then None else Some(c))
    else Lex(None, lex.depth, false, None)
  }

  function LexAt(text: string, p: nat): Lex
    requires p <= |text|
  {
    if p == 0 then OUTSIDE else Step(LexAt(text, p - 1), text[p - 1])
  }

  /** An operator begins with this character. */
  predicate Begins(lex: Lex, c: char) {
    !lex.escaped && lex.quote.None? && lex.depth == 0 && (c == ';' || ((c == '&' || c == '|') && lex.half != Some(c)))
  }

  predicate OpAt(text: string, p: nat)
    requires p < |text|
  {
    Begins(LexAt(text, p), text[p])
  }

  /** The operator that begins at p. */
  function Operator(text: string, p: nat): string
    requires p < |text|
  {
    if text[p] != ';' && p + 1 < |text| && text[p + 1] == text[p] then [text[p], text[p]] else [text[p]]
  }

  /** The segments are the text from `from` on, cut at every operator that begins outside quotes, escapes and
      parentheses, and nowhere else. */
  ghost predicate Exact(text: string, from: nat, segs: seq<Segment>)
    requires from <= |text|
    decreases |segs|
  {
    segs != [] &&
    var end := from + |segs[0].text|;
    && end <= |text| && text[from..end] == segs[0].text
    && (forall p | from <= p < end :: !OpAt(text, p))
    && if |segs| == 1 then end == |text| && segs[0].op == ""
       else
         && end < |text| && OpAt(text, end) && segs[0].op == Operator(text, end)
         && end + |segs[0].op| <= |text| && Exact(text, end + |segs[0].op|, segs[1..])
  }

  /** Loop and shell agree at a position: same quote and depth, no escape pending, and a half operator only if it is not
      being doubled. */
  ghost predicate Agree(text: string, i: nat, quote: Option<char>, depth: nat)
    requires i <= |text|
  {
    i < |text| ==>
      var lex := LexAt(text, i);
      lex.quote == quote && lex.depth == depth && !lex.escaped && lex.half != Some(text[i])
  }

  /** One token keeps them in agreement, and it is an operator exactly when one begins there; no operator begins inside
      any other token. */
  lemma TokenAgrees(text: string, i: nat, quote: Option<char>, depth: nat)
    requires i < |text| && Agree(text, i, quote, depth)
    ensures var t := TokenAt(text, i, quote, depth);
            && Agree(text, i + t.length, t.quote, t.depth)
            && (t.isOp <==> OpAt(text, i))
            && (t.isOp ==> text[i..i + t.length] == Operator(text, i))
            && (!t.isOp ==> forall p | i <= p < i + t.length :: !OpAt(text, p))
  {
    var t := TokenAt(text, i, quote, depth);
    assert LexAt(text, i + 1) == Step(LexAt(text, i), text[i]);
    if t.length == 2 {
      assert LexAt(text, i + 2) == Step(LexAt(text, i + 1), text[i + 1]);
    }
  }

  /** The splitter cuts exactly at the shell's top-level operators. */
  lemma {:induction false} SplitFromIsExact(text: string, start: nat, i: nat, quote: Option<char>, depth: nat)
    requires start <= i <= |text| && Agree(text, i, quote, depth)
    requires forall p | start <= p < i :: !OpAt(text, p)
    ensures Exact(text, start, SplitFrom(text, start, i, quote, depth))
    decreases |text| - i
  {
    hide OpAt, TokenAt, Operator, Agree;
    if i < |text| {
      var t := TokenAt(text, i, quote, depth);
      var next := i + t.length;
      TokenAgrees(text, i, quote, depth);
      if t.isOp {
        SplitFromIsExact(text, next, next, t.quote, t.depth);
        var rest := SplitFrom(text, next, next, t.quote, t.depth);
        var segs := SplitFrom(text, start, i, quote, depth);
        assert segs[1..] == rest && segs[0] == Segment(text[start..i], text[i..next]);
      } else {
        SplitFromIsExact(text, start, next, t.quote, t.depth);
      }
    }
  }

  lemma SplitIsExact(text: string)
    ensures Exact(text, 0, Split(text))
  {
    SplitFromIsExact(text, 0, 0, None, 0);
  }

  /** There is only one way to cut a line like that. */
  lemma {:induction false} ExactIsUnique(text: string, from: nat, a: seq<Segment>, b: seq<Segment>)
    requires from <= |text| && Exact(text, from, a) && Exact(text, from, b)
    ensures a == b
    decreases |a|
  {
    hide OpAt, Operator;
    var endA, endB := from + |a[0].text|, from + |b[0].text|;
    assert endA == endB;
    if |a| > 1 {
      ExactIsUnique(text, endA + |a[0].op|, a[1..], b[1..]);
      assert a == [a[0]] + a[1..] && b == [b[0]] + b[1..];
    }
  }

  // ---------------------------------------------------------------------------------------------------------
  // Consequences

  function Join(segs: seq<Segment>): string {
    if segs == [] then "" else segs[0].text + segs[0].op + Join(segs[1..])
  }

  lemma InThree(text: string, a: nat, b: nat, c: nat, front: string, middle: string, back: string)
    requires a <= b <= c <= |text| && front == text[a..b] && middle == text[b..c] && back == text[c..]
    ensures front + middle + back == text[a..]
  {
  }

  lemma ExactParts(text: string, from: nat, segs: seq<Segment>)
    requires from <= |text| && Exact(text, from, segs)
    ensures |segs| == 1 ==> segs[0].text == text[from..] && segs[0].op == ""
    ensures |segs| > 1 ==>
              var end := from + |segs[0].text|;
              var next := end + |segs[0].op|;
              && next <= |text| && segs[0].text == text[from..end] && segs[0].op == text[end..next]
              && Exact(text, next, segs[1..])
  {
    hide OpAt, Operator;
    if |segs| > 1 { OperatorIsText(text, from + |segs[0].text|); }
  }

  lemma NoOperator(text: string)
    ensures text + "" == text
  {
  }

  lemma JoinFirst(segs: seq<Segment>)
    requires segs != []
    ensures Join(segs) == segs[0].text + segs[0].op + Join(segs[1..])
    ensures |segs| == 1 ==> Join(segs) == segs[0].text + segs[0].op
  {
  }

  lemma {:induction false} ExactJoins(text: string, from: nat, segs: seq<Segment>)
    requires from <= |text| && Exact(text, from, segs)
    ensures Join(segs) == text[from..]
    decreases |segs|
  {
    assert segs != [];
    hide Exact, Join;
    ExactParts(text, from, segs);
    JoinFirst(segs);
    if |segs| > 1 {
      var end := from + |segs[0].text|;
      var next := end + |segs[0].op|;
      ExactJoins(text, next, segs[1..]);
      InThree(text, from, end, next, segs[0].text, segs[0].op, Join(segs[1..]));
    } else {
      NoOperator(segs[0].text);
    }
  }

  lemma OperatorIsText(text: string, p: nat)
    requires p < |text|
    ensures p + |Operator(text, p)| <= |text| && text[p..p + |Operator(text, p)|] == Operator(text, p)
  {
  }

  /** Nothing is lost: the segments with their operators make up the line again. */
  lemma SplitIsLossless(text: string)
    ensures Join(Split(text)) == text
  {
    SplitIsExact(text);
    ExactJoins(text, 0, Split(text));
    assert text[0..] == text;
  }

  /** A place where a segment begins: the shell is outside everything, and not in the middle of an operator. */
  ghost predicate CleanStart(text: string, from: nat)
    requires from <= |text|
  {
    from < |text| ==>
      var lex := LexAt(text, from);
      lex.quote.None? && lex.depth == 0 && !lex.escaped && lex.half != Some(text[from])
  }

  /** Read on its own, a stretch without operators looks as it does in its line. */
  lemma {:induction false} StretchReadsTheSame(text: string, from: nat, part: string, j: nat)
    requires from + |part| <= |text| && text[from..from + |part|] == part && CleanStart(text, from)
    requires forall p | from <= p < from + |part| :: !OpAt(text, p)
    requires j <= |part|
    ensures j > 0 ==> LexAt(part, j) == LexAt(text, from + j)
    ensures j < |part| ==> !OpAt(part, j)
  {
    if j > 0 {
      StretchReadsTheSame(text, from, part, j - 1);
      assert part[j - 1] == text[from + j - 1];
      assert !OpAt(text, from + j - 1);
    }
    if j < |part| {
      assert part[j] == text[from + j];
      assert !OpAt(text, from + j);
    }
  }

  lemma AfterOperator(text: string, p: nat)
    requires p < |text| && OpAt(text, p)
    ensures p + |Operator(text, p)| <= |text| && CleanStart(text, p + |Operator(text, p)|)
  {
    assert LexAt(text, p + 1) == Step(LexAt(text, p), text[p]);
    if |Operator(text, p)| == 2 {
      assert LexAt(text, p + 2) == Step(LexAt(text, p + 1), text[p + 1]);
    }
  }

  lemma {:induction false} SegmentsHaveNoOperators(text: string, from: nat, segs: seq<Segment>, k: nat)
    requires from <= |text| && Exact(text, from, segs) && CleanStart(text, from) && k < |segs|
    ensures Exact(segs[k].text, 0, [Segment(segs[k].text, "")])
    decreases |segs|
  {
    hide LexAt;
    if k == 0 {
      var part := segs[0].text;
      forall p | 0 <= p < |part| ensures !OpAt(part, p) {
        StretchReadsTheSame(text, from, part, p);
      }
    } else {
      var end := from + |segs[0].text|;
      AfterOperator(text, end);
      SegmentsHaveNoOperators(text, end + |segs[0].op|, segs[1..], k - 1);
    }
  }

  /** Splitting a segment again gives just that segment: no operator outside quotes, escapes and parentheses has stayed
      inside one. */
  lemma SegmentsAreFinal(text: string, k: nat)
    requires k < |Split(text)|
    ensures Split(Split(text)[k].text) == [Segment(Split(text)[k].text, "")]
  {
    SplitIsExact(text);
    SegmentsHaveNoOperators(text, 0, Split(text), k);
    var part := Split(text)[k].text;
    SplitIsExact(part);
    ExactIsUnique(part, 0, Split(part), [Segment(part, "")]);
  }
}
