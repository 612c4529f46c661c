/** Drawing the time stamp: a strip of glyphs is blended into an NV12 picture, luma and interleaved chroma, one glyph
    after the other. */
module Watermark {
  import opened Arithmetic
  import opened Bytes

  /** A glyph: luma and opacity for every pixel, chroma for every other row. */
  datatype Glyph = Glyph(y: seq<Byte>, c: seq<Byte>, alph: seq<Byte>)

  /** Where a picture of `width` columns is overlaid by `fgWidth` x `fgHeight` pixels. */
  datatype Place = Place(width: nat, left: nat, top: nat, fgWidth: nat, fgHeight: nat)

  // ---------------------------------------------------------------------------------------------------------
  // One pixel

  lemma WeightedSum(a: nat, b: nat, f: nat)
    requires a <= 256
    ensures 256 * (if b <= f then b else f) <= (256 - a) * b + f * a <= 256 * (if b <= f then f else b)
  {
    if b <= f {
      assert (256 - a) * b + f * a == 256 * b + (f - b) * a;
      assert 0 <= (f - b) * a <= (f - b) * 256 by { ProductBounds(f - b, a); }
    } else {
      assert (256 - a) * b + f * a == 256 * f + (b - f) * (256 - a);
      assert 0 <= (b - f) * (256 - a) <= (b - f) * 256 by { ProductBounds(b - f, 256 - a); }
    }
  }

  lemma ProductBounds(d: nat, a: nat)
    requires a <= 256
    ensures 0 <= d * a <= d * 256
  {
  }

  /** m is background b moved towards foreground f by a parts of 256, rounded down. */
  predicate IsBlend(m: Byte, a: Byte, b: Byte, f: Byte) {
    256 * m <= 256 * b + (f - b) * a < 256 * m + 256
  }

  /** The blend of background b and foreground f at opacity a. It never leaves the range of a byte: it lies between the
      two. */
  function Mix(a: Byte, b: Byte, f: Byte): (m: Byte)
    ensures (if b <= f then b else f) <= m <= (if b <= f then f else b)
    ensures IsBlend(m, a, b, f)
  {
    WeightedSum(a, b, f);
    assert (256 - a) * b + f * a == 256 * b + (f - b) * a;
    ((256 - a) * b + f * a) / 256
  }

  /** A fully transparent pixel leaves the background, and an opaque one comes within a level of the foreground. */
  lemma MixAtTheEnds(a: Byte, b: Byte, f: Byte)
    ensures a == 0 ==> Mix(a, b, f) == b
    ensures a == 255 ==> f - 1 <= Mix(a, b, f) <= f + 1
  {
    hide Mix;
  }

  /** The more opaque a pixel, the nearer to the foreground. */
  lemma MixMovesToForeground(a: Byte, a': Byte, b: Byte, f: Byte)
    requires a <= a'
    ensures b <= f ==> Mix(a, b, f) <= Mix(a', b, f)
    ensures f <= b ==> Mix(a', b, f) <= Mix(a, b, f)
  {
    hide Mix;
    if b <= f { ProductGrows(f - b, a, a'); } else { ProductGrows(b - f, a, a'); }
    assert (f - b) * a == -((b - f) * a) && (f - b) * a' == -((b - f) * a');
  }

  lemma ProductGrows(d: nat, a: nat, a': nat)
    requires a <= a'
    ensures d * a <= d * a'
  {
  }

  // ---------------------------------------------------------------------------------------------------------
  // One row

  /** `n` bytes of `bg` from `at` on blended with glyph bytes from `from` on. */
  ghost predicate RowBlended(was: seq<Byte>, now: seq<Byte>, at: nat, n: nat,
                             fg: seq<Byte>, from: nat, alph: seq<Byte>, afrom: nat)
  {
    && |now| == |was| && at + n <= |was| && from + n <= |fg| && afrom + n <= |alph|
    && forall k | 0 <= k < |was| ::
         now[k] == if at <= k < at + n then Mix(alph[afrom + k - at], was[k], fg[from + k - at]) else was[k]
  }

  /** The inner loop: a row of luma and, on even rows, the row of chroma below it. */
  method BlendRow(bgY: array<Byte>, y: nat, bgC: array<Byte>, c: nat,
                  g: Glyph, from: nat, cfrom: nat, n: nat, withChroma: bool)
    requires bgY != bgC
    requires y + n <= bgY.Length && from + n <= |g.y| && from + n <= |g.alph|
    requires withChroma ==> c + n <= bgC.Length && cfrom + n <= |g.c|
    modifies bgY, bgC
    ensures RowBlended(old(bgY[..]), bgY[..], y, n, g.y, from, g.alph, from)
    ensures withChroma ==> RowBlended(old(bgC[..]), bgC[..], c, n, g.c, cfrom, g.alph, from)
    ensures !withChroma ==> bgC[..] == old(bgC[..])
  {
    hide Mix;
    var j := 0;
    while j < n
      invariant 0 <= j <= n
      invariant RowBlended(old(bgY[..]), bgY[..], y, j, g.y, from, g.alph, from)
      invariant withChroma ==> RowBlended(old(bgC[..]), bgC[..], c, j, g.c, cfrom, g.alph, from)
      invariant !withChroma ==> bgC[..] == old(bgC[..])
    {
      bgY[y + j] := Mix(g.alph[from + j], bgY[y + j], g.y[from + j]);
      if withChroma {
        bgC[c + j] := Mix(g.alph[from + j], bgC[c + j], g.c[cfrom + j]);
      }
      j := j + 1;
    }
  }

  // ---------------------------------------------------------------------------------------------------------
  // One glyph

  /** The bytes that the rows of the overlay cover lie in the two planes. A row may run over the right end of the picture:
      it goes on at the beginning of the next. */
  predicate Fits(p: Place, lumaSize: nat, chromaSize: nat) {
    && p.fgWidth <= p.width
    && (p.fgHeight > 0 ==> LumaStart(p, p.fgHeight - 1) + p.fgWidth <= lumaSize)
    && (p.fgHeight > 0 ==> ChromaStart(p, (p.fgHeight + 1) / 2 - 1) + p.fgWidth <= chromaSize)
  }

  predicate GlyphFits(g: Glyph, fgWidth: nat, fgHeight: nat) {
    && fgHeight * fgWidth <= |g.y| && fgHeight * fgWidth <= |g.alph|
    && (fgHeight + 1) / 2 * fgWidth <= |g.c|
  }

  /** The byte lies in one of `rows` stretches of n bytes, the first at `start`, each a width further on. */
  predicate Under(width: nat, start: nat, n: nat, rows: nat, k: nat)
    requires width > 0
  {
    0 <= (k - start) / width < rows && (k - start) % width < n
  }

  lemma {:induction false} RowBound(i: nat, rows: nat, n: nat)
    requires i < rows
    ensures i * n + n <= rows * n
    decreases rows - i
  {
    assert (i + 1) * n == i * n + n;
    if i + 1 < rows { RowBound(i + 1, rows, n); }
  }

  /** A byte lies in the stretch of n bytes that begins `row` widths behind `start` exactly when quotient and remainder of
      its distance say so. */
  lemma InStretch(k: nat, width: nat, start: nat, row: nat, n: nat)
    requires width > 0 && n <= width
    ensures var at := start + row * width;
            && (at <= k < at + n <==> (k - start) / width == row && (k - start) % width < n)
            && ((k - start) / width == row ==> k - at == (k - start) % width)
  {
    var d := k - start;
    assert d == width * (d / width) + d % width;
    if start + row * width <= k < start + row * width + n {
      DivModUnique(d, width, row, d - row * width);
    }
  }

  /** Where row i of the overlay begins in the luma plane, chroma row i in the chroma plane, and row i in a glyph. */
  function LumaStart(p: Place, i: nat): nat {
    (p.top + i) * p.width + p.left
  }

  function ChromaStart(p: Place, i: nat): nat {
    (p.top / 2 + i) * p.width + p.left
  }

  function GlyphStart(p: Place, i: nat): nat {
    i * p.fgWidth
  }

  /** The pointers move to the next row by adding a width. */
  lemma NextRow(p: Place, i: nat)
    ensures LumaStart(p, i + 1) == LumaStart(p, i) + p.width
    ensures ChromaStart(p, i + 1) == ChromaStart(p, i) + p.width
    ensures GlyphStart(p, i + 1) == GlyphStart(p, i) + p.fgWidth
  {
  }

  lemma RowsFromFirst(p: Place, i: nat)
    ensures LumaStart(p, i) == LumaStart(p, 0) + i * p.width
    ensures ChromaStart(p, i) == ChromaStart(p, 0) + i * p.width
  {
    assert (p.top + i) * p.width == p.top * p.width + i * p.width;
    assert (p.top / 2 + i) * p.width == p.top / 2 * p.width + i * p.width;
  }

  lemma EarlierRow(p: Place, i: nat, j: nat)
    requires i <= j
    ensures LumaStart(p, i) <= LumaStart(p, j) && ChromaStart(p, i) <= ChromaStart(p, j)
  {
    RowsFromFirst(p, i);
    RowsFromFirst(p, j);
    assert j * p.width == i * p.width + (j - i) * p.width;
  }

  lemma RowsInBounds(p: Place, g: Glyph, i: nat, lumaSize: nat, chromaSize: nat)
    requires Fits(p, lumaSize, chromaSize) && GlyphFits(g, p.fgWidth, p.fgHeight)
    ensures i < p.fgHeight ==>
              && LumaStart(p, i) + p.fgWidth <= lumaSize
              && GlyphStart(p, i) + p.fgWidth <= |g.y| && GlyphStart(p, i) + p.fgWidth <= |g.alph|
    ensures i < (p.fgHeight + 1) / 2 ==>
              && ChromaStart(p, i) + p.fgWidth <= chromaSize
              && GlyphStart(p, i) + p.fgWidth <= |g.c|
  {
    hide LumaStart, ChromaStart;
    if i < p.fgHeight {
      EarlierRow(p, i, p.fgHeight - 1);
      RowBound(i, p.fgHeight, p.fgWidth);
    }
    if i < (p.fgHeight + 1) / 2 {
      EarlierRow(p, i, (p.fgHeight + 1) / 2 - 1);
      RowBound(i, (p.fgHeight + 1) / 2, p.fgWidth);
    }
  }

  /** A luma byte after the first `rows` rows of the glyph have been blended. */
  function LumaAt(p: Place, g: Glyph, rows: nat, b: Byte, k: nat): Byte
    requires p.width > 0 && rows <= p.fgHeight && GlyphFits(g, p.fgWidth, p.fgHeight)
  {
    if Under(p.width, LumaStart(p, 0), p.fgWidth, rows, k) then
      var i, j := (k - LumaStart(p, 0)) / p.width, (k - LumaStart(p, 0)) % p.width;
      RowBound(i, p.fgHeight, p.fgWidth);
      Mix(g.alph[i * p.fgWidth + j], b, g.y[i * p.fgWidth + j])
    else b
  }

  /** A chroma byte after the first `rows` chroma rows: each takes its opacity from the even luma row it belongs to. */
  function ChromaAt(p: Place, g: Glyph, rows: nat, b: Byte, k: nat): Byte
    requires p.width > 0 && rows <= (p.fgHeight + 1) / 2 && GlyphFits(g, p.fgWidth, p.fgHeight)
  {
    if Under(p.width, ChromaStart(p, 0), p.fgWidth, rows, k) then
      var i, j := (k - ChromaStart(p, 0)) / p.width, (k - ChromaStart(p, 0)) % p.width;
      RowBound(i, (p.fgHeight + 1) / 2, p.fgWidth);
      RowBound(2 * i, p.fgHeight, p.fgWidth);
      Mix(g.alph[2 * i * p.fgWidth + j], b, g.c[i * p.fgWidth + j])
    else b
  }

  ghost predicate LumaBlended(p: Place, g: Glyph, rows: nat, was: seq<Byte>, now: seq<Byte>)
    requires p.width > 0 && rows <= p.fgHeight && GlyphFits(g, p.fgWidth, p.fgHeight)
  {
    |now| == |was| && forall k | 0 <= k < |was| :: now[k] == LumaAt(p, g, rows, was[k], k)
  }

  ghost predicate ChromaBlended(p: Place, g: Glyph, rows: nat, was: seq<Byte>, now: seq<Byte>)
    requires p.width > 0 && rows <= (p.fgHeight + 1) / 2 && GlyphFits(g, p.fgWidth, p.fgHeight)
  {
    |now| == |was| && forall k | 0 <= k < |was| :: now[k] == ChromaAt(p, g, rows, was[k], k)
  }

  lemma LumaRow(p: Place, g: Glyph, i: nat, was: seq<Byte>, mid: seq<Byte>, now: seq<Byte>)
    requires p.width > 0 && p.fgWidth <= p.width && i < p.fgHeight && GlyphFits(g, p.fgWidth, p.fgHeight)
    requires LumaBlended(p, g, i, was, mid)
    requires RowBlended(mid, now, LumaStart(p, i), p.fgWidth, g.y, GlyphStart(p, i), g.alph, GlyphStart(p, i))
    ensures LumaBlended(p, g, i + 1, was, now)
  {
    RowsFromFirst(p, i);
    hide Mix, LumaStart;
    forall k | 0 <= k < |was|
      ensures now[k] == LumaAt(p, g, i + 1, was[k], k)
    {
      InStretch(k, p.width, LumaStart(p, 0), i, p.fgWidth);
      assert mid[k] == LumaAt(p, g, i, was[k], k);
    }
  }

  lemma ChromaRow(p: Place, g: Glyph, i: nat, was: seq<Byte>, mid: seq<Byte>, now: seq<Byte>)
    requires p.width > 0 && p.fgWidth <= p.width && i < (p.fgHeight + 1) / 2 && GlyphFits(g, p.fgWidth, p.fgHeight)
    requires ChromaBlended(p, g, i, was, mid)
    requires RowBlended(mid, now, ChromaStart(p, i), p.fgWidth, g.c, GlyphStart(p, i), g.alph, GlyphStart(p, 2 * i))
    ensures ChromaBlended(p, g, i + 1, was, now)
  {
    RowsFromFirst(p, i);
    hide Mix, ChromaStart;
    forall k | 0 <= k < |was|
      ensures now[k] == ChromaAt(p, g, i + 1, was[k], k)
    {
      InStretch(k, p.width, ChromaStart(p, 0), i, p.fgWidth);
      assert mid[k] == ChromaAt(p, g, i, was[k], k);
    }
  }

  /** yuv420sp_blending, the C path. The positions in the four buffers are advanced from row to row as its pointers
      are. */
  method Blend(p: Place, bgY: array<Byte>, bgC: array<Byte>, g: Glyph)
    requires bgY != bgC && p.width > 0
    requires Fits(p, bgY.Length, bgC.Length) && GlyphFits(g, p.fgWidth, p.fgHeight)
    modifies bgY, bgC
    ensures LumaBlended(p, g, p.fgHeight, old(bgY[..]), bgY[..])
    ensures ChromaBlended(p, g, (p.fgHeight + 1) / 2, old(bgC[..]), bgC[..])
  {
    var y := p.top * p.width + p.left;
    var c := p.top / 2 * p.width + p.left;
    assert y == LumaStart(p, 0) && c == ChromaStart(p, 0);
    BlendRows(p, bgY, bgC, g, y, c);
  }

  /** The body of the outer loop, from its positions in the four buffers; `wasY` and `wasC` are the picture before the
      first row. */
  method BlendNextRow(p: Place, bgY: array<Byte>, bgC: array<Byte>, g: Glyph, i: nat, y: nat, c: nat, fg: nat, fgc: nat,
                      ghost wasY: seq<Byte>, ghost wasC: seq<Byte>)
    requires bgY != bgC && p.width > 0 && i < p.fgHeight
    requires Fits(p, bgY.Length, bgC.Length) && GlyphFits(g, p.fgWidth, p.fgHeight)
    requires y == LumaStart(p, i) && fg == GlyphStart(p, i)
    requires c == ChromaStart(p, (i + 1) / 2) && fgc == GlyphStart(p, (i + 1) / 2)
    requires LumaBlended(p, g, i, wasY, bgY[..]) && ChromaBlended(p, g, (i + 1) / 2, wasC, bgC[..])
    modifies bgY, bgC
    ensures LumaBlended(p, g, i + 1, wasY, bgY[..]) && ChromaBlended(p, g, (i + 2) / 2, wasC, bgC[..])
  {
    hide Mix, LumaBlended, ChromaBlended, RowBlended, LumaStart, ChromaStart, GlyphStart, Fits, GlyphFits;
    FitsAcross(p, bgY.Length, bgC.Length);
    ghost var midY, midC := bgY[..], bgC[..];
    RowsInBounds(p, g, i, bgY.Length, bgC.Length);
    RowsInBounds(p, g, (i + 1) / 2, bgY.Length, bgC.Length);
    BlendRow(bgY, y, bgC, c, g, fg, fgc, p.fgWidth, i % 2 == 0);
    LumaRow(p, g, i, wasY, midY, bgY[..]);
    if i % 2 == 0 {
      ChromaRow(p, g, i / 2, wasC, midC, bgC[..]);
    }
  }

  method BlendRows(p: Place, bgY: array<Byte>, bgC: array<Byte>, g: Glyph, y0: nat, c0: nat)
    requires bgY != bgC && p.width > 0
    requires Fits(p, bgY.Length, bgC.Length) && GlyphFits(g, p.fgWidth, p.fgHeight)
    requires y0 == LumaStart(p, 0) && c0 == ChromaStart(p, 0)
    modifies bgY, bgC
    ensures LumaBlended(p, g, p.fgHeight, old(bgY[..]), bgY[..])
    ensures ChromaBlended(p, g, (p.fgHeight + 1) / 2, old(bgC[..]), bgC[..])
  {
    hide Mix, LumaBlended, ChromaBlended, RowBlended, LumaStart, ChromaStart, GlyphStart, Fits, GlyphFits;
    var y, c, fg, fgc := y0, c0, 0, 0;
    NoGlyphRows(p);
    FitsAcross(p, bgY.Length, bgC.Length);
    NothingBlended(p, g, bgY[..], bgC[..]);
    var i := 0;
    while i < p.fgHeight
      invariant 0 <= i <= p.fgHeight
      invariant y == LumaStart(p, i) && fg == GlyphStart(p, i)
      invariant c == ChromaStart(p, (i + 1) / 2) && fgc == GlyphStart(p, (i + 1) / 2)
      invariant LumaBlended(p, g, i, old(bgY[..]), bgY[..])
      invariant ChromaBlended(p, g, (i + 1) / 2, old(bgC[..]), bgC[..])
    {
      BlendNextRow(p, bgY, bgC, g, i, y, c, fg, fgc, old(bgY[..]), old(bgC[..]));
      NextRow(p, i);
      NextRow(p, (i + 1) / 2);
      if i % 2 == 0 {
        c := c + p.width;
        fgc := fgc + p.fgWidth;
      }
      y := y + p.width;
      fg := fg + p.fgWidth;
      i := i + 1;
    }
  }

  lemma NoGlyphRows(p: Place)
    ensures GlyphStart(p, 0) == 0
  {
  }

  lemma FitsAcross(p: Place, lumaSize: nat, chromaSize: nat)
    requires Fits(p, lumaSize, chromaSize)
    ensures p.fgWidth <= p.width
  {
  }

  lemma NothingBlended(p: Place, g: Glyph, y: seq<Byte>, c: seq<Byte>)
    requires p.width > 0 && GlyphFits(g, p.fgWidth, p.fgHeight)
    ensures LumaBlended(p, g, 0, y, y) && ChromaBlended(p, g, 0, c, c)
  {
  }

  // ---------------------------------------------------------------------------------------------------------
  // A strip of glyphs

  datatype Plane = Luma | Chroma

  /** Glyphs of one size side by side, from column x and row `top` on. */
  datatype Strip = Strip(width: nat, x: nat, top: nat, w: nat, h: nat, glyphs: seq<Glyph>)

  /** The glyphs have their planes, and the strip is not wider than the picture. */
  predicate Drawable(s: Strip) {
    && s.width > 0 && s.w * |s.glyphs| <= s.width
    && forall n | 0 <= n < |s.glyphs| :: GlyphFits(s.glyphs[n], s.w, s.h)
  }

  function PlaceOf(s: Strip, n: nat): Place {
    Place(s.width, s.x + s.w * n, s.top, s.w, s.h)
  }

  /** A byte of a plane after the n-th glyph alone has been blended. */
  function PixelAt(plane: Plane, s: Strip, n: nat, b: Byte, k: nat): Byte
    requires Drawable(s) && n < |s.glyphs|
  {
    match plane
    case Luma => LumaAt(PlaceOf(s, n), s.glyphs[n], s.h, b, k)
    case Chroma => ChromaAt(PlaceOf(s, n), s.glyphs[n], (s.h + 1) / 2, b, k)
  }

  /** Where the strip begins in a plane. */
  function Origin(plane: Plane, s: Strip): nat {
    match plane
    case Luma => LumaStart(PlaceOf(s, 0), 0)
    case Chroma => ChromaStart(PlaceOf(s, 0), 0)
  }

  /** The composite of the first m glyphs: every column of the strip belongs to one glyph, and only that one is blended
      over it. */
  function Composite(plane: Plane, s: Strip, m: nat, b: Byte, k: nat): Byte
    requires Drawable(s) && m <= |s.glyphs|
  {
    var column := (k - Origin(plane, s)) % s.width;
    if s.w > 0 && column < s.w * m then
      QuotientBelow(column, s.w, m);
      PixelAt(plane, s, column / s.w, b, k)
    else b
  }

  lemma QuotientBelow(d: nat, w: nat, m: nat)
    requires w > 0 && d < w * m
    ensures d / w < m
  {
    assert d == w * (d / w) + d % w;
    if d / w >= m { ProductMonotone(w, m, d / w); assert false; }
  }

  lemma ProductMonotone(w: nat, a: nat, b: nat)
    requires a <= b
    ensures w * a <= w * b
  {
    assert w * b == w * a + w * (b - a);
  }

  ghost predicate Composed(plane: Plane, s: Strip, m: nat, was: seq<Byte>, now: seq<Byte>)
    requires Drawable(s) && m <= |s.glyphs|
  {
    |now| == |was| && forall k | 0 <= k < |was| :: now[k] == Composite(plane, s, m, was[k], k)
  }

  function StartOf(plane: Plane, p: Place): nat {
    match plane
    case Luma => LumaStart(p, 0)
    case Chroma => ChromaStart(p, 0)
  }

  function RowsOf(plane: Plane, s: Strip): nat {
    match plane
    case Luma => s.h
    case Chroma => (s.h + 1) / 2
  }

  lemma GlyphOrigin(plane: Plane, s: Strip, n: nat)
    ensures StartOf(plane, PlaceOf(s, n)) == Origin(plane, s) + s.w * n
  {
    assert s.w * 0 == 0;
  }

  lemma GlyphInside(s: Strip, n: nat)
    requires Drawable(s) && n < |s.glyphs|
    ensures s.w * n + s.w <= s.width
  {
    ProductMonotone(s.w, n + 1, |s.glyphs|);
    assert s.w * (n + 1) == s.w * n + s.w;
  }

  /** Distances from the strip's origin and from a glyph's: in the glyph's columns they have the same quotient and the
      remainders differ by where the glyph begins; in all others the second remainder is not the glyph's. */
  lemma DistanceFromGlyph(d: int, width: nat, begin: nat, w: nat)
    requires width > 0 && begin + w <= width
    ensures begin <= d % width < begin + w ==> (d - begin) / width == d / width && (d - begin) % width == d % width - begin
    ensures !(begin <= d % width < begin + w) ==> (d - begin) % width >= w
  {
    var q, r := d / width, d % width;
    assert d == width * q + r;
    if r >= begin {
      DivModUnique(d - begin, width, q, r - begin);
    } else {
      assert width * (q - 1) == width * q - width;
      DivModUnique(d - begin, width, q - 1, r - begin + width);
    }
  }

  lemma NotUnderGlyph(plane: Plane, s: Strip, n: nat, b: Byte, k: nat)
    requires Drawable(s) && n < |s.glyphs|
    requires !Under(s.width, StartOf(plane, PlaceOf(s, n)), s.w, RowsOf(plane, s), k)
    ensures PixelAt(plane, s, n, b, k) == b
  {
    hide GlyphFits, LumaStart, ChromaStart, Mix, Under;
  }

  /** A glyph changes nothing outside its columns. */
  lemma OutsideColumns(plane: Plane, s: Strip, n: nat, b: Byte, k: nat)
    requires Drawable(s) && n < |s.glyphs|
    requires var column := (k - Origin(plane, s)) % s.width; column < s.w * n || s.w * n + s.w <= column
    ensures PixelAt(plane, s, n, b, k) == b
  {
    hide PixelAt, GlyphFits, LumaStart, ChromaStart, Origin, StartOf, PlaceOf, RowsOf;
    GlyphOrigin(plane, s, n);
    GlyphInside(s, n);
    DistanceFromGlyph(k - Origin(plane, s), s.width, s.w * n, s.w);
    NotUnderGlyph(plane, s, n, b, k);
  }

  lemma OneMoreGlyph(plane: Plane, s: Strip, m: nat, b: Byte, k: nat)
    requires Drawable(s) && m < |s.glyphs|
    ensures PixelAt(plane, s, m, Composite(plane, s, m, b, k), k) == Composite(plane, s, m + 1, b, k)
  {
    hide PixelAt, GlyphFits, Origin;
    var column := (k - Origin(plane, s)) % s.width;
    assert s.w * (m + 1) == s.w * m + s.w;
    if column < s.w * m || s.w * m + s.w <= column {
      OutsideColumns(plane, s, m, Composite(plane, s, m, b, k), k);
    } else {
      DivModUnique(column, s.w, m, column - s.w * m);
    }
  }

  /** What one call of Blend does to a plane. */
  ghost predicate GlyphBlended(plane: Plane, s: Strip, n: nat, was: seq<Byte>, now: seq<Byte>)
    requires Drawable(s) && n < |s.glyphs|
  {
    |now| == |was| && forall k | 0 <= k < |was| :: now[k] == PixelAt(plane, s, n, was[k], k)
  }

  lemma GlyphComposes(plane: Plane, s: Strip, m: nat, was: seq<Byte>, mid: seq<Byte>, now: seq<Byte>)
    requires Drawable(s) && m < |s.glyphs|
    requires Composed(plane, s, m, was, mid) && GlyphBlended(plane, s, m, mid, now)
    ensures Composed(plane, s, m + 1, was, now)
  {
    hide PixelAt, Composite;
    forall k | 0 <= k < |was| ensures now[k] == Composite(plane, s, m + 1, was[k], k) {
      OneMoreGlyph(plane, s, m, was[k], k);
    }
  }

  lemma NothingComposed(plane: Plane, s: Strip, was: seq<Byte>)
    requires Drawable(s)
    ensures Composed(plane, s, 0, was, was)
  {
  }

  /** The bytes that the strip covers lie in the two planes. */
  predicate StripFits(s: Strip, lumaSize: nat, chromaSize: nat) {
    s.h > 0 ==>
      && LumaStart(PlaceOf(s, 0), s.h - 1) + s.w * |s.glyphs| <= lumaSize
      && ChromaStart(PlaceOf(s, 0), (s.h + 1) / 2 - 1) + s.w * |s.glyphs| <= chromaSize
  }

  lemma GlyphHasRoom(s: Strip, n: nat, lumaSize: nat, chromaSize: nat)
    requires Drawable(s) && StripFits(s, lumaSize, chromaSize) && n < |s.glyphs|
    ensures Fits(PlaceOf(s, n), lumaSize, chromaSize)
  {
    GlyphInside(s, n);
    ProductMonotone(s.w, n + 1, |s.glyphs|);
    assert s.w * (n + 1) == s.w * n + s.w && s.w * 0 == 0;
  }

  method BlendGlyph(s: Strip, n: nat, bgY: array<Byte>, bgC: array<Byte>)
    requires bgY != bgC && Drawable(s) && n < |s.glyphs| && StripFits(s, bgY.Length, bgC.Length)
    modifies bgY, bgC
    ensures GlyphBlended(Luma, s, n, old(bgY[..]), bgY[..])
    ensures GlyphBlended(Chroma, s, n, old(bgC[..]), bgC[..])
  {
    hide Fits, LumaAt, ChromaAt, StripFits;
    GlyphHasRoom(s, n, bgY.Length, bgC.Length);
    Blend(PlaceOf(s, n), bgY, bgC, s.glyphs[n]);
  }

  /** watermark_blending: a strip wider than the picture is refused; otherwise the glyphs blended one by one make up one
      composite. */
  method BlendStrip(s: Strip, bgY: array<Byte>, bgC: array<Byte>) returns (ret: int)
    requires bgY != bgC
    requires s.w * |s.glyphs| <= s.width ==> Drawable(s) && StripFits(s, bgY.Length, bgC.Length)
    modifies bgY, bgC
    ensures ret == if s.w * |s.glyphs| > s.width then -1 else 0
    ensures ret == -1 ==> bgY[..] == old(bgY[..]) && bgC[..] == old(bgC[..])
    ensures ret == 0 ==> Composed(Luma, s, |s.glyphs|, old(bgY[..]), bgY[..])
    ensures ret == 0 ==> Composed(Chroma, s, |s.glyphs|, old(bgC[..]), bgC[..])
  {
    hide Composed, GlyphBlended, StripFits, GlyphFits, Drawable;
    if s.w * |s.glyphs| > s.width {
      return -1;
    }
    NothingComposed(Luma, s, bgY[..]);
    NothingComposed(Chroma, s, bgC[..]);
    var i := 0;
    while i < |s.glyphs|
      invariant 0 <= i <= |s.glyphs|
      invariant Composed(Luma, s, i, old(bgY[..]), bgY[..])
      invariant Composed(Chroma, s, i, old(bgC[..]), bgC[..])
    {
      ghost var midY, midC := bgY[..], bgC[..];
      BlendGlyph(s, i, bgY, bgC);
      GlyphComposes(Luma, s, i, old(bgY[..]), midY, bgY[..]);
      GlyphComposes(Chroma, s, i, old(bgC[..]), midC, bgC[..]);
      i := i + 1;
    }
    return 0;
  }

  /** In the columns of glyph n the composite is that glyph's blend. */
  lemma CompositeOfColumn(plane: Plane, s: Strip, n: nat, j: nat, b: Byte, k: nat)
    requires Drawable(s) && n < |s.glyphs| && j < s.w && (k - Origin(plane, s)) % s.width == s.w * n + j
    ensures Composite(plane, s, |s.glyphs|, b, k) == PixelAt(plane, s, n, b, k)
  {
    hide PixelAt, GlyphFits, Origin;
    ProductMonotone(s.w, n + 1, |s.glyphs|);
    assert s.w * (n + 1) == s.w * n + s.w;
    DivModUnique(s.w * n + j, s.w, n, j);
  }

  lemma LumaPixel(p: Place, g: Glyph, i: nat, j: nat, b: Byte, k: nat)
    requires p.width > 0 && GlyphFits(g, p.fgWidth, p.fgHeight) && i < p.fgHeight && j < p.fgWidth
    requires (k - LumaStart(p, 0)) / p.width == i && (k - LumaStart(p, 0)) % p.width == j
    ensures GlyphStart(p, i) + j < |g.alph| && GlyphStart(p, i) + j < |g.y|
    ensures LumaAt(p, g, p.fgHeight, b, k) == Mix(g.alph[GlyphStart(p, i) + j], b, g.y[GlyphStart(p, i) + j])
  {
    hide Mix, LumaStart;
    RowBound(i, p.fgHeight, p.fgWidth);
  }

  lemma ChromaPixel(p: Place, g: Glyph, i: nat, j: nat, b: Byte, k: nat)
    requires p.width > 0 && GlyphFits(g, p.fgWidth, p.fgHeight) && i < (p.fgHeight + 1) / 2 && j < p.fgWidth
    requires (k - ChromaStart(p, 0)) / p.width == i && (k - ChromaStart(p, 0)) % p.width == j
    ensures GlyphStart(p, 2 * i) + j < |g.alph| && GlyphStart(p, i) + j < |g.c|
    ensures ChromaAt(p, g, (p.fgHeight + 1) / 2, b, k)
         == Mix(g.alph[GlyphStart(p, 2 * i) + j], b, g.c[GlyphStart(p, i) + j])
  {
    hide Mix, ChromaStart;
    RowBound(i, (p.fgHeight + 1) / 2, p.fgWidth);
    RowBound(2 * i, p.fgHeight, p.fgWidth);
  }

  /** Position of the byte in row i and column j of glyph n. */
  function PositionOf(plane: Plane, s: Strip, n: nat, i: nat, j: nat): nat {
    match plane
    case Luma => LumaStart(PlaceOf(s, n), i) + j
    case Chroma => ChromaStart(PlaceOf(s, n), i) + j
  }

  lemma RowAndColumn(plane: Plane, s: Strip, n: nat, i: nat, j: nat)
    requires Drawable(s) && n < |s.glyphs| && j < s.w
    ensures var k, p := PositionOf(plane, s, n, i, j), PlaceOf(s, n);
            && (k - Origin(plane, s)) % s.width == s.w * n + j
            && (k - StartOf(plane, p)) / s.width == i && (k - StartOf(plane, p)) % s.width == j
  {
    GlyphInside(s, n);
    PositionFromStart(plane, s, n, i, j);
    GlyphOrigin(plane, s, n);
    hide *;
    Distances(PositionOf(plane, s, n, i, j), StartOf(plane, PlaceOf(s, n)), Origin(plane, s), s.width, s.w * n, i, j);
  }

  /** A position in row i and column j behind a start, and so in column `left` + j behind an origin `left` before. */
  lemma Distances(k: int, start: int, origin: int, width: nat, left: nat, i: nat, j: nat)
    requires k == start + i * width + j && start == origin + left && left + j < width
    ensures (k - origin) % width == left + j && (k - start) / width == i && (k - start) % width == j
  {
    DistanceOf(k - start, width, i, j);
    DistanceOf(k - origin, width, i, left + j);
  }

  lemma PositionFromStart(plane: Plane, s: Strip, n: nat, i: nat, j: nat)
    ensures PositionOf(plane, s, n, i, j) == StartOf(plane, PlaceOf(s, n)) + i * s.width + j
  {
    RowsFromFirst(PlaceOf(s, n), i);
    hide LumaStart, ChromaStart;
  }

  lemma DistanceOf(d: int, width: nat, row: nat, column: nat)
    requires column < width && d == row * width + column
    ensures d / width == row && d % width == column
  {
    DivModUnique(d, width, row, column);
  }

  /** Where row i of a glyph begins in the two planes and in the glyph itself. */
  lemma StartsOf(s: Strip, n: nat, i: nat)
    ensures LumaStart(PlaceOf(s, n), i) == (s.top + i) * s.width + s.x + s.w * n
    ensures ChromaStart(PlaceOf(s, n), i) == (s.top / 2 + i) * s.width + s.x + s.w * n
    ensures GlyphStart(PlaceOf(s, n), i) == i * s.w
  {
  }

  /** The composite in coordinates: column j of row i of glyph n lies in row `top` + i and column x + w * n + j of the
      picture, and its byte there is blended with the glyph's own at the glyph's own opacity. */
  lemma CompositeLuma(s: Strip, n: nat, i: nat, j: nat, b: Byte, k: nat, at: nat)
    requires Drawable(s) && n < |s.glyphs| && i < s.h && j < s.w
    requires k == (s.top + i) * s.width + s.x + s.w * n + j && at == i * s.w + j
    ensures var g := s.glyphs[n];
            && at < |g.alph| && at < |g.y|
            && IsBlend(Composite(Luma, s, |s.glyphs|, b, k), g.alph[at], b, g.y[at])
  {
    StartsOf(s, n, i);
    var p := PlaceOf(s, n);
    assert k == PositionOf(Luma, s, n, i, j) && at == GlyphStart(p, i) + j;
    hide Mix, IsBlend, Composite, LumaAt, LumaStart, GlyphStart, Origin, PositionOf, GlyphFits;
    RowAndColumn(Luma, s, n, i, j);
    CompositeOfColumn(Luma, s, n, j, b, k);
    LumaPixel(p, s.glyphs[n], i, j, b, k);
  }

  /** And in the chroma plane, whose row i belongs to the rows 2i and 2i+1 of the glyph and is blended at the opacity of
      the first of them. */
  lemma CompositeChroma(s: Strip, n: nat, i: nat, j: nat, b: Byte, k: nat, at: nat, alphAt: nat)
    requires Drawable(s) && n < |s.glyphs| && i < (s.h + 1) / 2 && j < s.w
    requires k == (s.top / 2 + i) * s.width + s.x + s.w * n + j && at == i * s.w + j && alphAt == 2 * i * s.w + j
    ensures var g := s.glyphs[n];
            && alphAt < |g.alph| && at < |g.c|
            && IsBlend(Composite(Chroma, s, |s.glyphs|, b, k), g.alph[alphAt], b, g.c[at])
  {
    StartsOf(s, n, i);
    StartsOf(s, n, 2 * i);
    var p := PlaceOf(s, n);
    assert k == PositionOf(Chroma, s, n, i, j) && at == GlyphStart(p, i) + j && alphAt == GlyphStart(p, 2 * i) + j;
    hide Mix, IsBlend, Composite, ChromaAt, ChromaStart, GlyphStart, Origin, PositionOf, GlyphFits;
    RowAndColumn(Chroma, s, n, i, j);
    CompositeOfColumn(Chroma, s, n, j, b, k);
    ChromaPixel(p, s.glyphs[n], i, j, b, k);
  }

  /** A byte in a glyph's columns but not in its rows. */
  lemma OutsideRows(plane: Plane, s: Strip, n: nat, b: Byte, k: nat)
    requires Drawable(s) && n < |s.glyphs|
    requires s.w * n <= (k - Origin(plane, s)) % s.width < s.w * n + s.w
    requires !(0 <= (k - Origin(plane, s)) / s.width < RowsOf(plane, s))
    ensures PixelAt(plane, s, n, b, k) == b
  {
    hide PixelAt, GlyphFits, LumaStart, ChromaStart, Origin, StartOf, PlaceOf, RowsOf;
    GlyphOrigin(plane, s, n);
    GlyphInside(s, n);
    DistanceFromGlyph(k - Origin(plane, s), s.width, s.w * n, s.w);
    NotUnderGlyph(plane, s, n, b, k);
  }

  lemma GlyphOfColumn(column: nat, w: nat, m: nat)
    requires 0 < w && column < w * m
    ensures column / w < m && w * (column / w) <= column < w * (column / w) + w
  {
    QuotientBelow(column, w, m);
    assert column == w * (column / w) + column % w;
  }

  /** A byte outside the strip's rows and columns is as before. */
  lemma CompositeElsewhere(plane: Plane, s: Strip, b: Byte, k: nat)
    requires Drawable(s) && !Under(s.width, Origin(plane, s), s.w * |s.glyphs|, RowsOf(plane, s), k)
    ensures Composite(plane, s, |s.glyphs|, b, k) == b
  {
    hide GlyphFits, PixelAt, Origin, RowsOf;
    var column := (k - Origin(plane, s)) % s.width;
    if s.w > 0 && column < s.w * |s.glyphs| {
      GlyphOfColumn(column, s.w, |s.glyphs|);
      OutsideRows(plane, s, column / s.w, b, k);
    }
  }

  lemma EvenProduct(a: nat, m: nat)
    requires a % 2 == 0
    ensures a * m % 2 == 0 && m * a % 2 == 0
  {
    assert a * m == 2 * (a / 2 * m) && m * a == a * m;
  }

  lemma ParityOfPosition(s: Strip, n: nat, i: nat, j: nat)
    requires s.width % 2 == 0 && s.w % 2 == 0
    ensures PositionOf(Chroma, s, n, i, j) % 2 == (s.x + j) % 2
  {
    var above, before := (s.top / 2 + i) * s.width, s.w * n;
    EvenProduct(s.width, s.top / 2 + i);
    EvenProduct(s.w, n);
    assert PositionOf(Chroma, s, n, i, j) == above + (s.x + before) + j;
    ParityOfSum(above, before, s.x, j);
  }

  lemma ParityOfSum(above: nat, before: nat, x: nat, j: nat)
    requires above % 2 == 0 && before % 2 == 0
    ensures (above + (x + before) + j) % 2 == (x + j) % 2
    ensures (before + j) % 2 == j % 2
    ensures (x + j) % 2 == j % 2 <==> x % 2 == 0
  {
  }

  /** Interleaved chroma has U at even positions and V at odd ones, in the picture and in a glyph of even width. The byte
      of the glyph that a byte of the picture is blended with is of its own kind exactly when the strip begins in an even
      column. */
  lemma ChromaStaysAligned(s: Strip, n: nat, i: nat, j: nat, b: Byte, k: nat, at: nat, alphAt: nat)
    requires Drawable(s) && n < |s.glyphs| && i < (s.h + 1) / 2 && j < s.w && s.width % 2 == 0 && s.w % 2 == 0
    requires k == (s.top / 2 + i) * s.width + s.x + s.w * n + j && at == i * s.w + j && alphAt == 2 * i * s.w + j
    ensures var g := s.glyphs[n];
            && alphAt < |g.alph| && at < |g.c|
            && IsBlend(Composite(Chroma, s, |s.glyphs|, b, k), g.alph[alphAt], b, g.c[at])
            && (k % 2 == at % 2 <==> s.x % 2 == 0)
  {
    ParityOfPosition(s, n, i, j);
    EvenProduct(s.w, i);
    ParityOfSum(0, i * s.w, s.x, j);
    StartsOf(s, n, i);
    assert k == PositionOf(Chroma, s, n, i, j);
    hide *;
    CompositeChroma(s, n, i, j, b, k, at, alphAt);
  }

  /** All pixels of the glyphs are fully transparent. */
  predicate Transparent(s: Strip) {
    forall n, at | 0 <= n < |s.glyphs| && 0 <= at < |s.glyphs[n].alph| :: s.glyphs[n].alph[at] == 0
  }

  lemma {:induction false} TransparentSoFar(plane: Plane, s: Strip, m: nat, b: Byte, k: nat)
    requires Drawable(s) && m <= |s.glyphs| && Transparent(s)
    ensures Composite(plane, s, m, b, k) == b
    decreases m
  {
    if m > 0 {
      TransparentSoFar(plane, s, m - 1, b, k);
      TransparentGlyph(plane, s, m - 1, b, k);
      OneMoreGlyph(plane, s, m - 1, b, k);
    } else {
      hide PixelAt, Transparent;
    }
  }

  lemma TransparentLuma(p: Place, g: Glyph, rows: nat, b: Byte, k: nat)
    requires p.width > 0 && rows <= p.fgHeight && GlyphFits(g, p.fgWidth, p.fgHeight)
    requires forall at | 0 <= at < |g.alph| :: g.alph[at] == 0
    ensures LumaAt(p, g, rows, b, k) == b
  {
    if Under(p.width, LumaStart(p, 0), p.fgWidth, rows, k) {
      var i, j := (k - LumaStart(p, 0)) / p.width, (k - LumaStart(p, 0)) % p.width;
      hide Mix, LumaStart;
      RowBound(i, p.fgHeight, p.fgWidth);
      MixAtTheEnds(g.alph[i * p.fgWidth + j], b, g.y[i * p.fgWidth + j]);
    }
  }

  lemma TransparentChroma(p: Place, g: Glyph, rows: nat, b: Byte, k: nat)
    requires p.width > 0 && rows <= (p.fgHeight + 1) / 2 && GlyphFits(g, p.fgWidth, p.fgHeight)
    requires forall at | 0 <= at < |g.alph| :: g.alph[at] == 0
    ensures ChromaAt(p, g, rows, b, k) == b
  {
    if Under(p.width, ChromaStart(p, 0), p.fgWidth, rows, k) {
      var i, j := (k - ChromaStart(p, 0)) / p.width, (k - ChromaStart(p, 0)) % p.width;
      hide Mix, ChromaStart;
      RowBound(i, (p.fgHeight + 1) / 2, p.fgWidth);
      RowBound(2 * i, p.fgHeight, p.fgWidth);
      MixAtTheEnds(g.alph[2 * i * p.fgWidth + j], b, g.c[i * p.fgWidth + j]);
    }
  }

  lemma TransparentGlyph(plane: Plane, s: Strip, n: nat, b: Byte, k: nat)
    requires Drawable(s) && n < |s.glyphs| && Transparent(s)
    ensures PixelAt(plane, s, n, b, k) == b
  {
    var g, p := s.glyphs[n], PlaceOf(s, n);
    assert GlyphFits(g, s.w, s.h) && forall at | 0 <= at < |g.alph| :: g.alph[at] == 0;
    hide Transparent, Drawable, GlyphFits, LumaAt, ChromaAt;
    match plane
    case Luma => TransparentLuma(p, g, s.h, b, k);
    case Chroma => TransparentChroma(p, g, (s.h + 1) / 2, b, k);
  }

  /** A strip of fully transparent pixels leaves the whole picture as it was. */
  lemma TransparentLeavesPicture(plane: Plane, s: Strip, was: seq<Byte>, now: seq<Byte>)
    requires Drawable(s) && Transparent(s) && Composed(plane, s, |s.glyphs|, was, now)
    ensures now == was
  {
    hide Composite, Transparent;
    forall k | 0 <= k < |was| ensures now[k] == was[k] { TransparentSoFar(plane, s, |s.glyphs|, was[k], k); }
  }
}
