/** The glyphs of the time stamp are read from ARGB bitmaps and converted to the planes that blending works on. */
module GlyphBitmap {
  import opened Arithmetic
  import opened Bytes
  import Nv12
  import opened Watermark

  datatype Pixel = Pixel(blue: Byte, green: Byte, red: Byte, alpha: Byte)

  // ---------------------------------------------------------------------------------------------------------
  // One pixel

  /** Division in C truncates towards zero. */
  function Quotient(n: int, d: int): int
    requires d > 0
  {
    if n >= 0 then n / d else -(-n / d)
  }

  /** An int stored into an unsigned char. */
  function AsByte(v: int): Byte {
    v % 256
  }

  function LumaOf(p: Pixel): Byte {
    (299 * p.red + 587 * p.green + 114 * p.blue) / 1000
  }

  function CbOf(p: Pixel): Byte {
    AsByte(128 + Quotient(564 * (p.blue - LumaOf(p)), 1000))
  }

  function CrOf(p: Pixel): Byte {
    AsByte(128 + Quotient(713 * (p.red - LumaOf(p)), 1000))
  }

  /** A truncated quotient is the exact one less a fraction, towards zero. */
  lemma QuotientBounds(n: int, d: int)
    requires d > 0
    ensures n >= 0 ==> 0 <= d * Quotient(n, d) <= n < d * Quotient(n, d) + d
    ensures n <= 0 ==> d * Quotient(n, d) - d < n <= d * Quotient(n, d) <= 0
  {
    var m := if n >= 0 then n else -n;
    var q := m / d;
    assert m == d * q + m % d;
    assert d * -q == -(d * q);
    ProductAtLeast(d, q);
  }

  /** How far a colour lies from its luma. */
  lemma Spread(p: Pixel)
    ensures 1000 * LumaOf(p) <= 299 * p.red + 587 * p.green + 114 * p.blue < 1000 * LumaOf(p) + 1000
    ensures -226 < p.blue - LumaOf(p) < 227
    ensures -179 < p.red - LumaOf(p) < 180
  {
  }

  lemma InRange(v: int)
    requires 0 <= v < 256
    ensures AsByte(v) == v
  {
  }

  /** For no colour does the chroma leave the range of a byte, so nothing wraps on storing it. */
  lemma ChromaNeverWraps(p: Pixel)
    ensures CbOf(p) == 128 + Quotient(564 * (p.blue - LumaOf(p)), 1000) && 2 <= CbOf(p)
    ensures CrOf(p) == 128 + Quotient(713 * (p.red - LumaOf(p)), 1000) && 2 <= CrOf(p)
  {
    hide LumaOf, Quotient, AsByte;
    Spread(p);
    QuotientBounds(564 * (p.blue - LumaOf(p)), 1000);
    QuotientBounds(713 * (p.red - LumaOf(p)), 1000);
    InRange(128 + Quotient(564 * (p.blue - LumaOf(p)), 1000));
    InRange(128 + Quotient(713 * (p.red - LumaOf(p)), 1000));
  }

  function Abs(v: int): nat {
    if v < 0 then -v else v
  }

  /** The colour that a luma and two chroma values stand for. */
  function RedOf(y: Byte, cr: Byte): int {
    y + Quotient(1000 * (cr - 128), 713)
  }

  function BlueOf(y: Byte, cb: Byte): int {
    y + Quotient(1000 * (cb - 128), 564)
  }

  function GreenOf(y: Byte, cb: Byte, cr: Byte): int {
    Quotient(1000 * y - 299 * RedOf(y, cr) - 114 * BlueOf(y, cb), 587)
  }

  /** A difference d of which a fraction k is stored, both rounded towards zero, comes back within two. */
  lemma Recovered(d: int, k: int)
    requires 500 < k < 1000
    ensures Abs(Quotient(1000 * Quotient(k * d, 1000), k) - d) <= 2
  {
    hide Quotient;
    var q := Quotient(k * d, 1000);
    QuotientBounds(k * d, 1000);
    QuotientBounds(1000 * q, k);
    var e := Quotient(1000 * q, k) - d;
    assert k * e == k * Quotient(1000 * q, k) - k * d;
    ScaledBounds(k, e);
  }

  lemma ScaledBounds(k: int, e: int)
    requires k > 500 && -1000 - k < k * e < 1000 + k
    ensures Abs(e) <= 2
  {
    ProductAtLeast(k, e - 2);
    ProductAtLeast(k, e + 2);
    assert k * (e - 2) == k * e - 2 * k && k * (e + 2) == k * e + 2 * k;
  }

  /** Converting a colour and back changes red and blue by two levels at most, and green by four. */
  lemma ColourRecovered(p: Pixel)
    ensures var y, cb, cr := LumaOf(p), CbOf(p), CrOf(p);
            && Abs(RedOf(y, cr) - p.red) <= 2
            && Abs(BlueOf(y, cb) - p.blue) <= 2
            && Abs(GreenOf(y, cb, cr) - p.green) <= 4
  {
    hide Quotient, LumaOf, CbOf, CrOf;
    ChromaNeverWraps(p);
    Recovered(p.red - LumaOf(p), 713);
    Recovered(p.blue - LumaOf(p), 564);
    Spread(p);
    QuotientBounds(1000 * LumaOf(p) - 299 * RedOf(LumaOf(p), CrOf(p)) - 114 * BlueOf(LumaOf(p), CbOf(p)), 587);
  }

  // ---------------------------------------------------------------------------------------------------------
  // Planes

  predicate HasPixels(src: seq<Byte>, n: int) {
    4 * n <= |src|
  }

  function PixelAt(src: seq<Byte>, k: nat): Pixel
    requires HasPixels(src, k + 1)
  {
    Pixel(src[4 * k], src[4 * k + 1], src[4 * k + 2], src[4 * k + 3])
  }

  /** Luma and opacity of n pixels from the k-th on. */
  function LumaRun(src: seq<Byte>, k: nat, n: nat): seq<Byte>
    requires HasPixels(src, k + n)
  {
    seq<Byte>(n, j requires 0 <= j < n => LumaOf(PixelAt(src, k + j)))
  }

  function AlphaRun(src: seq<Byte>, k: nat, n: nat): seq<Byte>
    requires HasPixels(src, k + n)
  {
    seq<Byte>(n, j requires 0 <= j < n => PixelAt(src, k + j).alpha)
  }

  /** The even columns give Cb, the odd ones Cr. */
  function ChromaOf(p: Pixel, j: nat): Byte {
    if j % 2 == 0 then CbOf(p) else CrOf(p)
  }

  function ChromaRun(src: seq<Byte>, k: nat, n: nat): seq<Byte>
    requires HasPixels(src, k + n)
  {
    seq<Byte>(n, j requires 0 <= j < n => ChromaOf(PixelAt(src, k + j), j))
  }

  /** The bitmap has h rows of w pixels. */
  predicate IsBitmap(src: seq<Byte>, w: nat, h: nat) {
    HasPixels(src, Nv12.RowAt(w, h))
  }

  lemma RowInBitmap(src: seq<Byte>, w: nat, h: nat, i: nat)
    requires IsBitmap(src, w, h) && i < h
    ensures HasPixels(src, Nv12.RowAt(w, i) + w)
  {
    Nv12.RowAtNext(w, i);
    Nv12.RowAtMonotone(w, i + 1, h);
  }

  /** The chroma of the first n even rows. */
  function ChromaPlane(src: seq<Byte>, w: nat, h: nat, n: nat): (c: seq<Byte>)
    requires IsBitmap(src, w, h) && n <= (h + 1) / 2
    ensures |c| == Nv12.RowAt(w, n)
  {
    if n == 0 then Nv12.RowAtNext(w, 0); []
    else
      RowInBitmap(src, w, h, 2 * (n - 1));
      Nv12.RowAtNext(w, n - 1);
      ChromaPlane(src, w, h, n - 1) + ChromaRun(src, Nv12.RowAt(w, 2 * (n - 1)), w)
  }

  /** The glyph that a bitmap is converted to. */
  function Converted(src: seq<Byte>, w: nat, h: nat): Glyph
    requires IsBitmap(src, w, h)
  {
    Glyph(LumaRun(src, 0, Nv12.RowAt(w, h)), ChromaPlane(src, w, h, (h + 1) / 2), AlphaRun(src, 0, Nv12.RowAt(w, h)))
  }

  lemma MoreRuns(src: seq<Byte>, k: nat, n: nat)
    requires HasPixels(src, k + n + 1)
    ensures LumaRun(src, k, n + 1) == LumaRun(src, k, n) + [LumaOf(PixelAt(src, k + n))]
    ensures AlphaRun(src, k, n + 1) == AlphaRun(src, k, n) + [PixelAt(src, k + n).alpha]
    ensures ChromaRun(src, k, n + 1) == ChromaRun(src, k, n) + [ChromaOf(PixelAt(src, k + n), n)]
  {
    hide LumaOf, ChromaOf;
  }

  /** *p++ = b */
  method Put(a: array<Byte>, at: nat, b: Byte)
    requires at < a.Length
    modifies a
    ensures a[..at + 1] == old(a[..at]) + [b]
  {
    a[at] := b;
  }

  /** One row: luma, opacity, and on even rows chroma, from the given positions on. */
  method ConvertRow(src: seq<Byte>, s: nat, w: nat, y: array<Byte>, alph: array<Byte>, d: nat,
                    c: array<Byte>, e: nat, even: bool)
    requires y != c && alph != c && y != alph
    requires s == 4 * d && HasPixels(src, d + w) && d + w <= y.Length && d + w <= alph.Length
    requires even ==> e + w <= c.Length
    requires y[..d] == LumaRun(src, 0, d) && alph[..d] == AlphaRun(src, 0, d)
    modifies y, alph, c
    ensures y[..d + w] == LumaRun(src, 0, d + w) && alph[..d + w] == AlphaRun(src, 0, d + w)
    ensures even ==> c[..e + w] == old(c[..e]) + ChromaRun(src, d, w)
    ensures !even ==> c[..] == old(c[..])
  {
    hide LumaOf, ChromaOf, LumaRun, AlphaRun, ChromaRun;
    EmptyRuns(src, d);
    ghost var was := c[..];
    var j := 0;
    while j < w
      invariant 0 <= j <= w
      invariant y[..d + j] == LumaRun(src, 0, d + j)
      invariant alph[..d + j] == AlphaRun(src, 0, d + j)
      invariant even ==> c[..e + j] == was[..e] + ChromaRun(src, d, j)
      invariant !even ==> c[..] == was
    {
      var p := Pixel(src[s + 4 * j], src[s + 4 * j + 1], src[s + 4 * j + 2], src[s + 4 * j + 3]);
      assert p == PixelAt(src, d + j);
      MoreRuns(src, 0, d + j);
      MoreRuns(src, d, j);
      Put(y, d + j, LumaOf(p));
      if even {
        Put(c, e + j, ChromaOf(p, j));
      }
      Put(alph, d + j, p.alpha);
      j := j + 1;
    }
  }

  /** argb2yuv420sp. The positions in the four buffers advance as its pointers do. */
  method Argb2Yuv420sp(src: seq<Byte>, w: nat, h: nat, y: array<Byte>, c: array<Byte>, alph: array<Byte>)
    requires y != c && alph != c && y != alph
    requires IsBitmap(src, w, h)
    requires y.Length == alph.Length == Nv12.RowAt(w, h) && c.Length == Nv12.RowAt(w, (h + 1) / 2)
    modifies y, alph, c
    ensures Glyph(y[..], c[..], alph[..]) == Converted(src, w, h)
  {
    hide Nv12.RowAt, LumaRun, AlphaRun, ChromaRun;
    Nv12.RowAtNext(w, 0);
    var i, d, e := 0, 0, 0;
    EmptyRuns(src, 0);
    while i < h
      invariant 0 <= i <= h && d == Nv12.RowAt(w, i) <= y.Length && e == Nv12.RowAt(w, (i + 1) / 2) <= c.Length
      invariant HasPixels(src, d)
      invariant y[..d] == LumaRun(src, 0, d) && alph[..d] == AlphaRun(src, 0, d)
      invariant c[..e] == ChromaPlane(src, w, h, (i + 1) / 2)
    {
      RowInBitmap(src, w, h, i);
      Nv12.RowAtNext(w, i);
      Nv12.RowAtNext(w, (i + 1) / 2);
      Nv12.RowAtMonotone(w, i + 1, h);
      Nv12.RowAtMonotone(w, (i + 2) / 2, (h + 1) / 2);
      ConvertRow(src, 4 * d, w, y, alph, d, c, e, i % 2 == 0);
      d := d + w;
      if i % 2 == 0 {
        e := e + w;
      }
      i := i + 1;
    }
    assert y[..] == y[..d] && alph[..] == alph[..d] && c[..] == c[..e];
  }

  lemma EmptyRuns(src: seq<Byte>, k: nat)
    requires HasPixels(src, k)
    ensures LumaRun(src, 0, 0) == [] && AlphaRun(src, 0, 0) == [] && ChromaRun(src, k, 0) == []
  {
  }

  // ---------------------------------------------------------------------------------------------------------
  // From the bitmaps to the picture

  /** Chroma byte j of row i comes from pixel j of row 2i. */
  lemma {:induction false} ChromaOfPixel(src: seq<Byte>, w: nat, h: nat, n: nat, i: nat, j: nat)
    requires IsBitmap(src, w, h) && n <= (h + 1) / 2 && i < n && j < w
    ensures Nv12.RowAt(w, i) + j < Nv12.RowAt(w, n) && HasPixels(src, Nv12.RowAt(w, 2 * i) + j + 1)
    ensures var p := PixelAt(src, Nv12.RowAt(w, 2 * i) + j);
            ChromaPlane(src, w, h, n)[Nv12.RowAt(w, i) + j] == ChromaOf(p, j)
  {
    hide Nv12.RowAt, ChromaOf;
    RowInBitmap(src, w, h, 2 * i);
    Nv12.RowAtNext(w, i);
    Nv12.RowAtMonotone(w, i + 1, n);
    RowInBitmap(src, w, h, 2 * (n - 1));
    Nv12.RowAtNext(w, n - 1);
    if i < n - 1 {
      ChromaOfPixel(src, w, h, n - 1, i, j);
    }
  }

  /** A converted bitmap is a glyph that can be drawn. */
  lemma ConvertedFits(src: seq<Byte>, w: nat, h: nat)
    requires IsBitmap(src, w, h)
    ensures GlyphFits(Converted(src, w, h), w, h)
  {
    Nv12.RowAtIsProduct(w, h);
    Nv12.RowAtIsProduct(w, (h + 1) / 2);
    hide ChromaPlane, Nv12.RowAt;
    assert h * w == w * h && (h + 1) / 2 * w == w * ((h + 1) / 2);
  }

  /** A strip of converted bitmaps. */
  ghost predicate StripOf(s: Strip, bitmaps: seq<seq<Byte>>) {
    && |s.glyphs| == |bitmaps|
    && forall n | 0 <= n < |bitmaps| ::
         IsBitmap(bitmaps[n], s.w, s.h) && s.glyphs[n] == Converted(bitmaps[n], s.w, s.h)
  }

  /** A strip that is not refused, in a picture that has columns. */
  predicate Placed(s: Strip) {
    0 < s.width && s.w * |s.glyphs| <= s.width
  }

  lemma StripIsDrawable(s: Strip, bitmaps: seq<seq<Byte>>)
    requires Placed(s) && StripOf(s, bitmaps)
    ensures Drawable(s)
  {
    hide GlyphFits, Converted;
    forall n | 0 <= n < |s.glyphs| ensures GlyphFits(s.glyphs[n], s.w, s.h) {
      ConvertedFits(bitmaps[n], s.w, s.h);
    }
  }

  /** A converted bitmap's luma and opacity, pixel by pixel. */
  lemma ConvertedPixel(src: seq<Byte>, w: nat, h: nat, i: nat, j: nat)
    requires IsBitmap(src, w, h) && i < h && j < w
    ensures HasPixels(src, Nv12.RowAt(w, i) + j + 1) && Nv12.RowAt(w, i) + j < Nv12.RowAt(w, h)
    ensures var g, p := Converted(src, w, h), PixelAt(src, Nv12.RowAt(w, i) + j);
            && |g.y| == |g.alph| == Nv12.RowAt(w, h)
            && g.y[Nv12.RowAt(w, i) + j] == LumaOf(p) && g.alph[Nv12.RowAt(w, i) + j] == p.alpha
  {
    hide LumaOf, Nv12.RowAt, ChromaPlane, PixelAt;
    Nv12.RowAtNext(w, i);
    Nv12.RowAtMonotone(w, i + 1, h);
  }

  /** The four bytes of pixel k of a bitmap: blue, green, red and opacity. */
  lemma BytesOfPixel(src: seq<Byte>, k: nat)
    requires 4 * k + 4 <= |src|
    ensures HasPixels(src, k + 1)
    ensures PixelAt(src, k)
         == Pixel(blue := src[4 * k], green := src[4 * k + 1], red := src[4 * k + 2], alpha := src[4 * k + 3])
  {
  }

  /** From bitmap to picture: pixel j of row i of the n-th bitmap is drawn with its own luma at its own opacity. */
  lemma DrawnLuma(s: Strip, bitmaps: seq<seq<Byte>>, n: nat, i: nat, j: nat, b: Byte, k: nat, q: nat)
    requires Placed(s) && StripOf(s, bitmaps) && n < |bitmaps| && i < s.h && j < s.w
    requires k == (s.top + i) * s.width + s.x + s.w * n + j && q == i * s.w + j
    ensures Drawable(s) && 4 * q + 4 <= |bitmaps[n]|
    ensures var src := bitmaps[n];
            var p := Pixel(blue := src[4 * q], green := src[4 * q + 1], red := src[4 * q + 2], alpha := src[4 * q + 3]);
            IsBlend(Composite(Luma, s, |s.glyphs|, b, k), p.alpha, b, LumaOf(p))
  {
    StripIsDrawable(s, bitmaps);
    RowStart(s, i);
    ConvertedPixel(bitmaps[n], s.w, s.h, i, j);
    BytesOfPixel(bitmaps[n], q);
    hide IsBlend, LumaOf, Composite, Drawable, Nv12.RowAt, Converted, PixelAt, Placed;
    CompositeLuma(s, n, i, j, b, k, q);
  }

  lemma RowStart(s: Strip, i: nat)
    ensures Nv12.RowAt(s.w, i) == i * s.w
  {
    Nv12.RowAtIsProduct(s.w, i);
    assert i * s.w == s.w * i;
  }

  /** Its chroma is drawn too when i is even: Cb in even columns and Cr in odd ones, at the pixel's own opacity. */
  lemma DrawnChroma(s: Strip, bitmaps: seq<seq<Byte>>, n: nat, i: nat, j: nat, b: Byte, k: nat, at: nat, q: nat)
    requires Placed(s) && StripOf(s, bitmaps) && n < |bitmaps| && i < (s.h + 1) / 2 && j < s.w
    requires k == (s.top / 2 + i) * s.width + s.x + s.w * n + j && at == i * s.w + j && q == 2 * i * s.w + j
    ensures Drawable(s) && 4 * q + 4 <= |bitmaps[n]|
    ensures var src := bitmaps[n];
            var p := Pixel(blue := src[4 * q], green := src[4 * q + 1], red := src[4 * q + 2], alpha := src[4 * q + 3]);
            IsBlend(Composite(Chroma, s, |s.glyphs|, b, k), p.alpha, b, if j % 2 == 0 then CbOf(p) else CrOf(p))
  {
    StripIsDrawable(s, bitmaps);
    RowStart(s, i);
    RowStart(s, 2 * i);
    ConvertedChroma(bitmaps[n], s.w, s.h, i, j);
    BytesOfPixel(bitmaps[n], q);
    ChromaByColumn(PixelAt(bitmaps[n], q), j);
    hide IsBlend, LumaOf, CbOf, CrOf, ChromaOf, Composite, Drawable, Nv12.RowAt, Converted, PixelAt, Placed;
    CompositeChroma(s, n, i, j, b, k, at, q);
  }

  lemma ChromaByColumn(p: Pixel, j: nat)
    ensures ChromaOf(p, j) == if j % 2 == 0 then CbOf(p) else CrOf(p)
  {
  }

  /** The chroma of a pixel of an even row, and its opacity. */
  lemma ConvertedChroma(src: seq<Byte>, w: nat, h: nat, i: nat, j: nat)
    requires IsBitmap(src, w, h) && i < (h + 1) / 2 && j < w
    ensures HasPixels(src, Nv12.RowAt(w, 2 * i) + j + 1)
    ensures var g, p := Converted(src, w, h), PixelAt(src, Nv12.RowAt(w, 2 * i) + j);
            && Nv12.RowAt(w, i) + j < |g.c| && Nv12.RowAt(w, 2 * i) + j < |g.alph|
            && g.c[Nv12.RowAt(w, i) + j] == ChromaOf(p, j) && g.alph[Nv12.RowAt(w, 2 * i) + j] == p.alpha
  {
    hide LumaOf, ChromaOf, Nv12.RowAt, ChromaPlane, PixelAt;
    ConvertedPixel(src, w, h, 2 * i, j);
    ChromaOfPixel(src, w, h, (h + 1) / 2, i, j);
  }
}
