/** Snapshots: a decoded JPEG's three planes are packed into one NV12 buffer, and the JPEG encoder is fed rows read back
    out of such a buffer, possibly cropped. */
module Nv12 {
  import opened Arithmetic
  import opened Bytes

  /** Planes as the JPEG decoder leaves them, with row strides that may exceed the picture's width. */
  datatype Planes = Planes(y: seq<Byte>, yStride: nat, cb: seq<Byte>, cr: seq<Byte>, cStride: nat)

  // ---------------------------------------------------------------------------------------------------------
  // Packing

  /** Where row i of a plane begins. */
  function RowAt(stride: nat, i: nat): nat {
    if i == 0 then 0 else RowAt(stride, i - 1) + stride
  }

  lemma {:induction false} RowAtIsProduct(stride: nat, i: nat)
    ensures RowAt(stride, i) == stride * i
  {
    if i > 0 {
      RowAtIsProduct(stride, i - 1);
      assert stride * i == stride * (i - 1) + stride;
    }
  }

  lemma RowAtNext(stride: nat, i: nat)
    ensures RowAt(stride, i + 1) == RowAt(stride, i) + stride
    ensures RowAt(stride, 0) == 0
  {
  }

  lemma {:induction false} RowAtSum(stride: nat, i: nat, j: nat)
    ensures RowAt(stride, i + j) == RowAt(stride, i) + RowAt(stride, j)
  {
    if j > 0 {
      RowAtSum(stride, i, j - 1);
      assert i + j - 1 == i + (j - 1);
    }
  }

  lemma RowAtMonotone(stride: nat, i: nat, j: nat)
    requires i <= j
    ensures RowAt(stride, i) <= RowAt(stride, j)
  {
    RowAtSum(stride, i, j - i);
  }

  /** The planes hold a w x h picture. */
  predicate Holds(p: Planes, w: nat, h: nat) {
    && w <= p.yStride && RowAt(p.yStride, h) <= |p.y|
    && w / 2 <= p.cStride && RowAt(p.cStride, h / 2) <= |p.cb| && RowAt(p.cStride, h / 2) <= |p.cr|
  }

  /** The first w bytes of each of the first n rows, one row after the other. */
  function Rows(data: seq<Byte>, stride: nat, w: nat, n: nat): (r: seq<Byte>)
    requires w <= stride && RowAt(stride, n) <= |data|
    ensures |r| == RowAt(w, n)
  {
    if n == 0 then RowAtNext(w, 0); []
    else
      RowAtNext(stride, n - 1); RowAtNext(w, n - 1);
      Rows(data, stride, w, n - 1) + data[RowAt(stride, n - 1)..RowAt(stride, n - 1) + w]
  }

  /** n bytes of Cb and n of Cr, taking turns. */
  function Interleaved(cb: seq<Byte>, cr: seq<Byte>, from: nat, n: nat): (r: seq<Byte>)
    requires from + n <= |cb| && from + n <= |cr|
    ensures |r| == 2 * n
  {
    if n == 0 then [] else Interleaved(cb, cr, from, n - 1) + [cb[from + n - 1], cr[from + n - 1]]
  }

  /** n rows of interleaved chroma. At an odd width the last byte of a row stays what it was in `junk`, which is what the
      part of the buffer behind the luma held before. */
  function ChromaRows(p: Planes, w: nat, n: nat, junk: seq<Byte>): (r: seq<Byte>)
    requires w / 2 <= p.cStride && RowAt(p.cStride, n) <= |p.cb| && RowAt(p.cStride, n) <= |p.cr|
    requires RowAt(w, n) <= |junk|
    ensures |r| == RowAt(w, n)
  {
    if n == 0 then RowAtNext(w, 0); []
    else
      RowAtNext(p.cStride, n - 1); RowAtNext(w, n - 1);
      ChromaRows(p, w, n - 1, junk) + Interleaved(p.cb, p.cr, RowAt(p.cStride, n - 1), w / 2)
      + junk[RowAt(w, n - 1) + 2 * (w / 2)..RowAt(w, n)]
  }

  /** An NV12 buffer: all luma rows, then all rows of interleaved chroma. For even sizes that is the whole buffer. */
  function Packed(p: Planes, w: nat, h: nat, junk: seq<Byte>): (r: seq<Byte>)
    requires Holds(p, w, h) && RowAt(w, h / 2) <= |junk|
    ensures |r| == RowAt(w, h) + |junk|
  {
    Rows(p.y, p.yStride, w, h) + ChromaRows(p, w, h / 2, junk) + junk[RowAt(w, h / 2)..]
  }

  lemma SizeOfPicture(w: nat, h: nat)
    ensures w * h == RowAt(w, h) && w * h * 3 / 2 >= RowAt(w, h) + RowAt(w, h / 2)
    ensures w % 2 == 0 && h % 2 == 0 ==> w * h * 3 / 2 == RowAt(w, h) + RowAt(w, h / 2)
  {
    RowAtIsProduct(w, h);
    RowAtSum(w, h / 2, h / 2);
    if h % 2 == 1 { RowAtNext(w, h - 1); }
    HalfOfEven(w, h);
  }

  lemma HalfOfEven(w: nat, h: nat)
    ensures h % 2 == 0 ==> RowAt(w, h) == 2 * RowAt(w, h / 2)
    ensures RowAt(w, h) >= 2 * RowAt(w, h / 2)
  {
    RowAtSum(w, h / 2, h / 2);
    RowAtMonotone(w, h / 2 + h / 2, h);
    if h % 2 == 0 { assert h / 2 + h / 2 == h; }
  }

  /** The repacking loops of JPGtoYUV, for any size; `junk` is what malloc left behind the luma. */
  method Pack(p: Planes, w: nat, h: nat) returns (out: array<Byte>, ghost junk: seq<Byte>)
    requires Holds(p, w, h)
    ensures fresh(out) && out.Length == w * h * 3 / 2
    ensures RowAt(w, h / 2) <= |junk| && out[..] == Packed(p, w, h, junk)
  {
    SizeOfPicture(w, h);
    out := new Byte[w * h * 3 / 2];
    junk := out[RowAt(w, h)..];
    hide RowAt;
    PackLuma(p, w, h, out);
    PackChroma(p, w, h, out, w * h, junk);
  }

  method PackLuma(p: Planes, w: nat, h: nat, out: array<Byte>)
    requires w <= p.yStride && RowAt(p.yStride, h) <= |p.y| && RowAt(w, h) <= out.Length
    modifies out
    ensures out[..RowAt(w, h)] == Rows(p.y, p.yStride, w, h)
    ensures out[RowAt(w, h)..] == old(out[RowAt(w, h)..])
  {
    hide RowAt;
    RowAtNext(w, 0);
    RowAtMonotone(p.yStride, 0, h);
    ghost var was := out[..];
    var i := 0;
    while i < h
      invariant 0 <= i <= h && RowAt(p.yStride, i) <= |p.y| && RowAt(w, i) <= out.Length
      invariant out[..] == Rows(p.y, p.yStride, w, i) + was[RowAt(w, i)..]
    {
      RowAtNext(w, i);
      RowAtNext(p.yStride, i);
      RowAtMonotone(w, i + 1, h);
      RowAtMonotone(p.yStride, i + 1, h);
      PackLumaLine(p, w, out, was, i);
      i := i + 1;
    }
  }

  /** The body of the luma loop. */
  method PackLumaLine(p: Planes, w: nat, out: array<Byte>, ghost was: seq<Byte>, i: nat)
    requires w <= p.yStride && RowAt(p.yStride, i + 1) <= |p.y| && RowAt(w, i + 1) <= |was| == out.Length
    requires RowAt(w, i) + w == RowAt(w, i + 1) && RowAt(p.yStride, i) + p.yStride == RowAt(p.yStride, i + 1)
    requires out[..] == Rows(p.y, p.yStride, w, i) + was[RowAt(w, i)..]
    modifies out
    ensures out[..] == Rows(p.y, p.yStride, w, i + 1) + was[RowAt(w, i + 1)..]
  {
    hide RowAt;
    ghost var before, rows := out[..], Rows(p.y, p.yStride, w, i);
    CopyRow(out, RowAt(w, i), p.y, RowAt(p.yStride, i), w);
    FullRowAppended(before, out[..], rows, p.y[RowAt(p.yStride, i)..RowAt(p.yStride, i) + w], was, RowAt(w, i));
  }

  lemma FullRowAppended(before: seq<Byte>, now: seq<Byte>, rows: seq<Byte>, row: seq<Byte>, was: seq<Byte>, k: nat)
    requires |rows| == k && k + |row| <= |was| && |now| == |before| && before == rows + was[k..]
    requires now[..k + |row|] == before[..k] + row && now[k + |row|..] == before[k + |row|..]
    ensures now == rows + row + was[k + |row|..]
  {
    assert before[..k] == rows;
    assert before[k + |row|..] == was[k..][|row|..] == was[k + |row|..];
    assert now == now[..k + |row|] + now[k + |row|..];
  }

  /** memcpy(out + at, data + from, n) */
  method CopyRow(out: array<Byte>, at: nat, data: seq<Byte>, from: nat, n: nat)
    requires at + n <= out.Length && from + n <= |data|
    modifies out
    ensures out[..at + n] == old(out[..at]) + data[from..from + n]
    ensures out[at + n..] == old(out[at + n..])
  {
    forall k | 0 <= k < n {
      out[at + k] := data[from + k];
    }
  }

  /** There are n rows of chroma, in the planes and in the buffer behind the luma. */
  predicate HasRows(p: Planes, w: nat, n: nat, junk: seq<Byte>) {
    w / 2 <= p.cStride && RowAt(p.cStride, n) <= |p.cb| && RowAt(p.cStride, n) <= |p.cr| && RowAt(w, n) <= |junk|
  }

  /** The buffer once the first i rows of chroma have been packed. */
  ghost predicate PackedUpTo(buf: seq<Byte>, p: Planes, w: nat, luma: seq<Byte>, junk: seq<Byte>, i: nat)
    requires HasRows(p, w, i, junk)
  {
    buf == luma + ChromaRows(p, w, i, junk) + junk[RowAt(w, i)..]
  }

  lemma HoldsRows(p: Planes, w: nat, h: nat, junk: seq<Byte>)
    requires Holds(p, w, h) && RowAt(w, h / 2) <= |junk|
    ensures HasRows(p, w, h / 2, junk)
  {
    hide RowAt;
  }

  lemma FewerRows(p: Planes, w: nat, n: nat, junk: seq<Byte>, i: nat)
    requires HasRows(p, w, n, junk) && i <= n
    ensures HasRows(p, w, i, junk)
  {
    RowAtMonotone(p.cStride, i, n);
    RowAtMonotone(w, i, n);
  }

  /** Behind the luma no chroma has been packed yet. */
  lemma LumaPacked(buf: seq<Byte>, p: Planes, w: nat, h: nat, base: nat, junk: seq<Byte>)
    requires Holds(p, w, h) && RowAt(w, h / 2) <= |junk| && base <= |buf| && junk == buf[base..]
    ensures HasRows(p, w, h / 2, junk) && HasRows(p, w, 0, junk)
    ensures PackedUpTo(buf, p, w, buf[..base], junk, 0)
  {
    HoldsRows(p, w, h, junk);
    FewerRows(p, w, h / 2, junk, 0);
    assert buf == buf[..base] + junk && junk[0..] == junk && buf[..base] + [] == buf[..base];
  }

  /** `base` is the size of the luma plane, w * h. */
  method PackChroma(p: Planes, w: nat, h: nat, out: array<Byte>, base: nat, ghost junk: seq<Byte>)
    requires Holds(p, w, h) && base == RowAt(w, h)
    requires out.Length >= RowAt(w, h) + RowAt(w, h / 2)
    requires out[..base] == Rows(p.y, p.yStride, w, h) && out[base..] == junk
    modifies out
    ensures out[..] == Packed(p, w, h, junk)
  {
    ghost var luma := out[..base];
    hide *;
    LumaPacked(out[..], p, w, h, base, junk);
    PackChromaLines(p, w, h / 2, out, base, luma, junk);
    PackedIsAll(out[..], p, w, h, luma, junk);
  }

  /** The chroma loop, over n lines. */
  method PackChromaLines(p: Planes, w: nat, n: nat, out: array<Byte>, base: nat,
                         ghost luma: seq<Byte>, ghost junk: seq<Byte>)
    requires HasRows(p, w, n, junk) && HasRows(p, w, 0, junk) && base == |luma|
    requires PackedUpTo(out[..], p, w, luma, junk, 0)
    modifies out
    ensures PackedUpTo(out[..], p, w, luma, junk, n)
  {
    hide *;
    var i := 0;
    while i < n
      invariant 0 <= i <= n && HasRows(p, w, i, junk)
      invariant PackedUpTo(out[..], p, w, luma, junk, i)
    {
      FewerRows(p, w, n, junk, i + 1);
      PackChromaLine(p, w, out, base, luma, junk, i);
      i := i + 1;
    }
  }

  lemma PackedIsAll(buf: seq<Byte>, p: Planes, w: nat, h: nat, luma: seq<Byte>, junk: seq<Byte>)
    requires Holds(p, w, h) && HasRows(p, w, h / 2, junk) && luma == Rows(p.y, p.yStride, w, h)
    requires PackedUpTo(buf, p, w, luma, junk, h / 2)
    ensures buf == Packed(p, w, h, junk)
  {
    hide RowAt, Rows, ChromaRows;
  }

  /** The body of the chroma loop. */
  method PackChromaLine(p: Planes, w: nat, out: array<Byte>, base: nat,
                        ghost luma: seq<Byte>, ghost junk: seq<Byte>, i: nat)
    requires HasRows(p, w, i, junk) && HasRows(p, w, i + 1, junk) && base == |luma|
    requires PackedUpTo(out[..], p, w, luma, junk, i)
    modifies out
    ensures PackedUpTo(out[..], p, w, luma, junk, i + 1)
  {
    hide *;
    ghost var was := out[..];
    LineFits(was, p, w, luma, junk, i);
    PackChromaRow(p, w / 2, out, base + RowAt(w, i), RowAt(p.cStride, i));
    LineAppended(was, out[..], p, w, luma, junk, i);
  }

  lemma LineFits(buf: seq<Byte>, p: Planes, w: nat, luma: seq<Byte>, junk: seq<Byte>, i: nat)
    requires HasRows(p, w, i, junk) && HasRows(p, w, i + 1, junk) && PackedUpTo(buf, p, w, luma, junk, i)
    ensures RowAt(p.cStride, i) + w / 2 <= |p.cb| && RowAt(p.cStride, i) + w / 2 <= |p.cr|
    ensures |luma| + RowAt(w, i) + 2 * (w / 2) <= |buf|
  {
    RowAtNext(w, i);
    RowAtNext(p.cStride, i);
    hide RowAt;
  }

  lemma ChromaRowsNext(p: Planes, w: nat, i: nat, junk: seq<Byte>)
    requires HasRows(p, w, i, junk) && HasRows(p, w, i + 1, junk)
    requires RowAt(p.cStride, i) + w / 2 <= |p.cb| && RowAt(p.cStride, i) + w / 2 <= |p.cr|
    ensures RowAt(w, i) + 2 * (w / 2) <= RowAt(w, i + 1)
    ensures ChromaRows(p, w, i + 1, junk)
         == ChromaRows(p, w, i, junk) + Interleaved(p.cb, p.cr, RowAt(p.cStride, i), w / 2)
            + junk[RowAt(w, i) + 2 * (w / 2)..RowAt(w, i + 1)]
  {
    RowAtNext(w, i);
    hide RowAt, Interleaved;
  }

  lemma LineAppended(was: seq<Byte>, now: seq<Byte>, p: Planes, w: nat, luma: seq<Byte>, junk: seq<Byte>, i: nat)
    requires HasRows(p, w, i, junk) && HasRows(p, w, i + 1, junk) && PackedUpTo(was, p, w, luma, junk, i)
    requires RowAt(p.cStride, i) + w / 2 <= |p.cb| && RowAt(p.cStride, i) + w / 2 <= |p.cr|
    requires |now| == |was| && |luma| + RowAt(w, i) + 2 * (w / 2) <= |was|
    requires var at := |luma| + RowAt(w, i);
             && now[..at + 2 * (w / 2)] == was[..at] + Interleaved(p.cb, p.cr, RowAt(p.cStride, i), w / 2)
             && now[at + 2 * (w / 2)..] == was[at + 2 * (w / 2)..]
    ensures PackedUpTo(now, p, w, luma, junk, i + 1)
  {
    ChromaRowsNext(p, w, i, junk);
    RowAtNext(w, i);
    hide RowAt, Interleaved, ChromaRows;
    var k, rows, row := RowAt(w, i), ChromaRows(p, w, i, junk), Interleaved(p.cb, p.cr, RowAt(p.cStride, i), w / 2);
    assert now == luma + (rows + row + junk[k + 2 * (w / 2)..k + w]) + junk[k + w..] by {
      RowAppended(was, now, |luma| + k, 2 * (w / 2), w, luma, rows, row, junk, k);
    }
  }

  /** A row of w bytes of which the first n have been written, behind what has been packed. */
  lemma RowAppended(was: seq<Byte>, now: seq<Byte>, at: nat, n: nat, w: nat,
                    luma: seq<Byte>, rows: seq<Byte>, row: seq<Byte>, junk: seq<Byte>, k: nat)
    requires n <= w && k + w <= |junk| && at == |luma| + |rows|
    requires was == luma + rows + junk[k..] && |now| == |was|
    requires now[..at + n] == was[..at] + row && now[at + n..] == was[at + n..]
    ensures now == luma + (rows + row + junk[k + n..k + w]) + junk[k + w..]
  {
    assert was[..at] == luma + rows;
    assert was[at + n..] == junk[k..][n..] == junk[k + n..k + w] + junk[k + w..];
    assert now == now[..at + n] + now[at + n..];
  }

  method PutPair(out: array<Byte>, at: nat, u: Byte, v: Byte)
    requires at + 2 <= out.Length
    modifies out
    ensures out[..at + 2] == old(out[..at]) + [u, v]
    ensures out[at + 2..] == old(out[at + 2..])
  {
    out[at] := u;
    out[at + 1] := v;
  }

  /** One chroma row: n pairs from position `at` on. */
  method PackChromaRow(p: Planes, n: nat, out: array<Byte>, at: nat, from: nat)
    requires from + n <= |p.cb| && from + n <= |p.cr| && at + 2 * n <= out.Length
    modifies out
    ensures out[..at + 2 * n] == old(out[..at]) + Interleaved(p.cb, p.cr, from, n)
    ensures out[at + 2 * n..] == old(out[at + 2 * n..])
  {
    ghost var was := out[..];
    var j := 0;
    while j < n
      invariant 0 <= j <= n
      invariant out[..at + 2 * j] == was[..at] + Interleaved(p.cb, p.cr, from, j)
      invariant out[at + 2 * j..] == was[at + 2 * j..]
    {
      ghost var mid := out[..];
      var k := at + 2 * j;
      PutPair(out, k, p.cb[from + j], p.cr[from + j]);
      assert mid[k..][2..] == mid[k + 2..] && was[k..][2..] == was[k + 2..];
      j := j + 1;
    }
  }

  // ---------------------------------------------------------------------------------------------------------
  // What the packed buffer holds where

  lemma {:induction false} RowsPixel(data: seq<Byte>, stride: nat, w: nat, n: nat, i: nat, x: nat)
    requires w <= stride && RowAt(stride, n) <= |data| && i < n && x < w
    ensures RowAt(w, i) + x < RowAt(w, n) && RowAt(stride, i) + x < |data|
    ensures Rows(data, stride, w, n)[RowAt(w, i) + x] == data[RowAt(stride, i) + x]
  {
    hide RowAt;
    RowAtNext(stride, n - 1);
    RowAtNext(w, n - 1);
    if i < n - 1 {
      RowsPixel(data, stride, w, n - 1, i, x);
    }
  }

  lemma {:induction false} InterleavedPixel(cb: seq<Byte>, cr: seq<Byte>, from: nat, n: nat, k: nat)
    requires from + n <= |cb| && from + n <= |cr| && k < n
    ensures Interleaved(cb, cr, from, n)[2 * k] == cb[from + k]
    ensures Interleaved(cb, cr, from, n)[2 * k + 1] == cr[from + k]
  {
    if k < n - 1 { InterleavedPixel(cb, cr, from, n - 1, k); }
  }

  lemma {:induction false} ChromaRowsPixel(p: Planes, w: nat, n: nat, junk: seq<Byte>, i: nat, k: nat)
    requires RowAt(w, n) <= |junk| && w / 2 <= p.cStride && RowAt(p.cStride, n) <= |p.cb| && RowAt(p.cStride, n) <= |p.cr|
    requires i < n && k < w / 2
    ensures RowAt(w, i) + 2 * k + 1 < RowAt(w, n)
    ensures RowAt(p.cStride, i) + k < |p.cb| && RowAt(p.cStride, i) + k < |p.cr|
    ensures ChromaRows(p, w, n, junk)[RowAt(w, i) + 2 * k] == p.cb[RowAt(p.cStride, i) + k]
    ensures ChromaRows(p, w, n, junk)[RowAt(w, i) + 2 * k + 1] == p.cr[RowAt(p.cStride, i) + k]
  {
    hide RowAt, Interleaved;
    RowAtNext(p.cStride, n - 1);
    RowAtNext(w, n - 1);
    if i < n - 1 {
      ChromaRowsPixel(p, w, n - 1, junk, i, k);
    } else {
      InterleavedPixel(p.cb, p.cr, RowAt(p.cStride, i), w / 2, k);
    }
  }

  // ---------------------------------------------------------------------------------------------------------
  // Reading rows for the encoder

  /** Two neighbouring pixels, which share their chroma. */
  method WritePair(tmp: array<Byte>, j: nat, y0: Byte, y1: Byte, u: Byte, v: Byte)
    requires j + 6 <= tmp.Length
    modifies tmp
    ensures tmp[..j + 6] == old(tmp[..j]) + [y0, u, v, y1, u, v]
  {
    tmp[j + 0] := y0;
    tmp[j + 1] := u;
    tmp[j + 2] := v;
    tmp[j + 3] := y1;
    tmp[j + 4] := u;
    tmp[j + 5] := v;
  }

  /** One row of the loop of YUVtoJPG: three bytes a pixel, the chroma of two neighbours shared. */
  method ReadRow(input: seq<Byte>, offset: nat, uv: nat, n: nat) returns (row: seq<Byte>)
    requires n % 2 == 0 && offset + n <= |input| && offset + uv + n <= |input|
    ensures row == RowSamples(input, offset, offset + uv, n)
  {
    hide RowSamples;
    NoSamples(input, offset, offset + uv);
    var tmp := new Byte[n * 3];
    var i, j := 0, 0;
    while i < n
      invariant 0 <= i <= n && i % 2 == 0 && j == 3 * i
      invariant tmp[..j] == RowSamples(input, offset, offset + uv, i)
    {
      assert i + 2 <= n;
      MoreSamples(input, offset, offset + uv, i);
      WritePair(tmp, j, input[offset + i], input[offset + i + 1], input[offset + uv + i], input[offset + uv + i + 1]);
      i, j := i + 2, j + 6;
    }
    row := tmp[..];
    assert tmp[..] == tmp[..j];
  }

  function RowSamples(input: seq<Byte>, luma: nat, chroma: nat, n: nat): (r: seq<Byte>)
    requires n % 2 == 0 && luma + n <= |input| && chroma + n <= |input|
    ensures |r| == 3 * n
  {
    if n == 0 then []
    else
      var u, v := input[chroma + n - 2], input[chroma + n - 1];
      RowSamples(input, luma, chroma, n - 2) + [input[luma + n - 2], u, v, input[luma + n - 1], u, v]
  }

  lemma NoSamples(input: seq<Byte>, luma: nat, chroma: nat)
    requires luma <= |input| && chroma <= |input|
    ensures RowSamples(input, luma, chroma, 0) == []
  {
  }

  lemma MoreSamples(input: seq<Byte>, luma: nat, chroma: nat, i: nat)
    requires i % 2 == 0 && luma + i + 2 <= |input| && chroma + i + 2 <= |input|
    ensures RowSamples(input, luma, chroma, i + 2)
         == RowSamples(input, luma, chroma, i)
            + [input[luma + i], input[chroma + i], input[chroma + i + 1],
               input[luma + i + 1], input[chroma + i], input[chroma + i + 1]]
  {
  }

  lemma {:induction false} SampleOfPixel(input: seq<Byte>, luma: nat, chroma: nat, n: nat, x: nat)
    requires n % 2 == 0 && luma + n <= |input| && chroma + n <= |input| && x < n
    ensures var r := RowSamples(input, luma, chroma, n);
            && r[3 * x] == input[luma + x]
            && r[3 * x + 1] == input[chroma + 2 * (x / 2)] && r[3 * x + 2] == input[chroma + 2 * (x / 2) + 1]
    decreases n
  {
    hide RowSamples;
    MoreSamples(input, luma, chroma, n - 2);
    if x < n - 2 {
      SampleOfPixel(input, luma, chroma, n - 2, x);
    } else {
      assert x / 2 == (n - 2) / 2 && 2 * (x / 2) == n - 2;
    }
  }

  /** Where pixel x of scanline s of a crop lies in the picture, where its 2 x 2 block does, and which column of blocks the
      reader goes to. */
  function PictureRow(hsl: nat, s: nat): nat { s + hsl / 2 }

  function PictureColumn(wsl: nat, x: nat): nat { wsl / 2 + x }

  function BlockRow(hsl: nat, s: nat): nat { PictureRow(hsl, s) / 2 }

  function BlockColumn(wsl: nat, x: nat): nat { PictureColumn(wsl, x) / 2 }

  function ReadColumn(wsl: nat, x: nat): nat { wsl / 2 + x / 2 }

  /** Where the row reader looks for scanline s of a crop of wsl columns and hsl rows in all: the row's luma, and how
      much further on its chroma. */
  function Offset(width: nat, wsl: nat, hsl: nat, s: nat): nat {
    RowAt(width, PictureRow(hsl, s)) + PictureColumn(wsl, 0)
  }

  function Uv(width: nat, height: nat, wsl: nat, hsl: nat, s: nat): nat
    requires PictureRow(hsl, s) < height
  {
    RowAt(width, height - (PictureRow(hsl, s) + 1) / 2) + PictureColumn(wsl, 0)
  }

  /** The two positions as the loop works them out. */
  lemma LoopPositions(width: nat, height: nat, wsl: nat, hsl: nat, s: nat)
    requires PictureRow(hsl, s) < height
    ensures Offset(width, wsl, hsl, s) == (s + hsl / 2) * width + wsl / 2
    ensures Uv(width, height, wsl, hsl, s) == width * (height - (s + hsl / 2 + 1) / 2) + wsl / 2
  {
    hide RowAt;
    var row := s + hsl / 2;
    RowAtIsProduct(width, row);
    RowAtIsProduct(width, height - (row + 1) / 2);
    assert width * row == row * width;
  }

  /** Chroma in terms of rows: luma begins half the crop into its row, but the chroma offset counts that half twice. */
  lemma RowPositions(width: nat, height: nat, wsl: nat, hsl: nat, s: nat)
    requires wsl % 2 == 0 && PictureRow(hsl, s) < height
    ensures Offset(width, wsl, hsl, s) + Uv(width, height, wsl, hsl, s)
         == RowAt(width, height) + RowAt(width, BlockRow(hsl, s)) + wsl
  {
    hide RowAt, PictureRow;
    var r := PictureRow(hsl, s);
    var half := (r + 1) / 2;
    assert r == half + r / 2 && height == (height - half) + half;
    RowAtSum(width, half, r / 2);
    RowAtSum(width, height - half, half);
  }

  /** An even crop of a picture of even width. At an odd height there is no chroma for the last row, so that the row has
      to be cropped. */
  predicate Croppable(width: nat, height: nat, wsl: nat, hsl: nat) {
    && width % 2 == 0 && wsl % 2 == 0 && hsl % 2 == 0 && wsl <= width && hsl <= height
    && (height % 2 == 0 || hsl > 0)
  }

  lemma CropInPicture(w: nat, h: nat, wsl: nat, hsl: nat, s: nat, x: nat)
    requires Croppable(w, h, wsl, hsl) && s < h - hsl && x < w - wsl
    ensures PictureColumn(wsl, x) < w && BlockColumn(wsl, x) < w / 2 && ReadColumn(wsl, x) < w / 2
  {
  }

  lemma LineInPicture(w: nat, h: nat, wsl: nat, hsl: nat, s: nat)
    requires Croppable(w, h, wsl, hsl) && s < h - hsl
    ensures PictureRow(hsl, s) < h && BlockRow(hsl, s) < h / 2
    ensures wsl % 2 == 0 && wsl <= w && (w - wsl) % 2 == 0 && PictureColumn(wsl, 0) + (w - wsl) <= w
  {
  }

  /** Every index of the reader is inside the buffer, at any crop. */
  lemma RowInBounds(width: nat, height: nat, wsl: nat, hsl: nat, s: nat)
    requires Croppable(width, height, wsl, hsl) && s < height - hsl
    ensures PictureRow(hsl, s) < height
    ensures Offset(width, wsl, hsl, s) + (width - wsl) <= RowAt(width, height) + RowAt(width, height / 2)
    ensures Offset(width, wsl, hsl, s) + Uv(width, height, wsl, hsl, s) + (width - wsl)
         <= RowAt(width, height) + RowAt(width, height / 2)
  {
    LineInPicture(width, height, wsl, hsl, s);
    hide RowAt, Uv, PictureRow, PictureColumn, BlockRow, Croppable;
    RowPositions(width, height, wsl, hsl, s);
    RowAtNext(width, PictureRow(hsl, s));
    RowAtMonotone(width, PictureRow(hsl, s) + 1, height);
    RowAtNext(width, BlockRow(hsl, s));
    RowAtMonotone(width, BlockRow(hsl, s) + 1, height / 2);
  }

  predicate IsPicture(input: seq<Byte>, width: nat, height: nat) {
    |input| >= RowAt(width, height) + RowAt(width, height / 2)
  }

  lemma RowFits(input: seq<Byte>, width: nat, height: nat, wsl: nat, hsl: nat, s: nat)
    requires Croppable(width, height, wsl, hsl) && IsPicture(input, width, height) && s < height - hsl
    ensures PictureRow(hsl, s) < height && wsl <= width && (width - wsl) % 2 == 0
    ensures Offset(width, wsl, hsl, s) + (width - wsl) <= |input|
    ensures Offset(width, wsl, hsl, s) + Uv(width, height, wsl, hsl, s) + (width - wsl) <= |input|
  {
    LineInPicture(width, height, wsl, hsl, s);
    RowInBounds(width, height, wsl, hsl, s);
    hide RowAt, Offset, Uv, Croppable, PictureRow, PictureColumn, BlockRow;
  }

  /** A scanline of the crop. */
  function ScanRow(input: seq<Byte>, width: nat, height: nat, wsl: nat, hsl: nat, s: nat): (row: seq<Byte>)
    requires Croppable(width, height, wsl, hsl) && IsPicture(input, width, height) && s < height - hsl
    ensures |row| == 3 * (width - wsl)
  {
    RowFits(input, width, height, wsl, hsl, s);
    var offset, uv := Offset(width, wsl, hsl, s), Uv(width, height, wsl, hsl, s);
    RowSamples(input, offset, offset + uv, width - wsl)
  }

  lemma ScanRowIs(input: seq<Byte>, width: nat, height: nat, wsl: nat, hsl: nat, s: nat)
    returns (offset: nat, uv: nat, n: nat)
    requires Croppable(width, height, wsl, hsl) && IsPicture(input, width, height) && s < height - hsl
    ensures PictureRow(hsl, s) < height && n == width - wsl && n % 2 == 0
    ensures offset == Offset(width, wsl, hsl, s) && uv == Uv(width, height, wsl, hsl, s)
    ensures offset + n <= |input| && offset + uv + n <= |input|
    ensures ScanRow(input, width, height, wsl, hsl, s) == RowSamples(input, offset, offset + uv, n)
  {
    hide RowAt, Offset, Uv, RowSamples, PictureRow, IsPicture;
    RowFits(input, width, height, wsl, hsl, s);
    offset, uv, n := Offset(width, wsl, hsl, s), Uv(width, height, wsl, hsl, s), width - wsl;
  }

  /** The body of the scanline loop. */
  method ReadScanLine(input: seq<Byte>, width: nat, height: nat, wsl: nat, hsl: nat, s: nat) returns (row: seq<Byte>)
    requires Croppable(width, height, wsl, hsl) && IsPicture(input, width, height) && s < height - hsl
    ensures row == ScanRow(input, width, height, wsl, hsl, s)
  {
    LineInPicture(width, height, wsl, hsl, s);
    hide RowAt, Offset, Uv, RowSamples, ScanRow, IsPicture, Croppable, BlockRow;
    var offset := (s + hsl / 2) * width + wsl / 2;
    var uv := width * (height - (s + hsl / 2 + 1) / 2) + wsl / 2;
    LoopPositions(width, height, wsl, hsl, s);
    ghost var offset', uv', n := ScanRowIs(input, width, height, wsl, hsl, s);
    row := ReadRow(input, offset, uv, width - wsl);
  }

  predicate Refused(width: nat, height: nat, destWidth: nat, destHeight: nat) {
    || width < destWidth || height < destHeight
    || (width - destWidth) % 2 == 1 || (height - destHeight) % 2 == 1
  }

  /** A length with as much cut off before what is kept as behind it. */
  predicate Framed(all: nat, cut: nat, kept: nat) {
    all == cut + kept + cut
  }

  /** A crop is accepted exactly when it takes as many columns from the left as from the right, and as many rows from the
      top as from the bottom. */
  lemma AcceptedExactly(width: nat, height: nat, destWidth: nat, destHeight: nat)
    ensures !Refused(width, height, destWidth, destHeight)
       <==> exists side: nat, end: nat :: Framed(width, side, destWidth) && Framed(height, end, destHeight)
  {
    if !Refused(width, height, destWidth, destHeight) {
      var side, end := (width - destWidth) / 2, (height - destHeight) / 2;
      assert Framed(width, side, destWidth) && Framed(height, end, destHeight);
    }
  }

  /** The rows handed to the encoder, or nothing when the crop is refused. */
  method YuvToRows(input: seq<Byte>, width: nat, height: nat, destWidth: nat, destHeight: nat)
    returns (ret: int, rows: seq<seq<Byte>>)
    requires !Refused(width, height, destWidth, destHeight) ==>
               Croppable(width, height, width - destWidth, height - destHeight) && IsPicture(input, width, height)
    ensures ret == if Refused(width, height, destWidth, destHeight) then -1 else 0
    ensures ret == -1 ==> rows == []
    ensures ret == 0 ==> |rows| == destHeight
    ensures ret == 0 ==> forall s | 0 <= s < destHeight ::
              rows[s] == ScanRow(input, width, height, width - destWidth, height - destHeight, s)
  {
    rows := [];
    if width < destWidth || height < destHeight {
      return -1, [];
    }
    var wsl, hsl := width - destWidth, height - destHeight;
    if wsl % 2 == 1 || hsl % 2 == 1 {
      return -1, [];
    }
    hide RowAt, ScanRow, IsPicture;
    var line := 0;
    while line < destHeight
      invariant 0 <= line <= destHeight && |rows| == line
      invariant forall s | 0 <= s < line :: rows[s] == ScanRow(input, width, height, wsl, hsl, s)
    {
      var row := ReadScanLine(input, width, height, wsl, hsl, line);
      rows := rows + [row];
      line := line + 1;
    }
    ret := 0;
  }

  // ---------------------------------------------------------------------------------------------------------
  // Packing, then reading

  lemma InPlane(data: seq<Byte>, stride: nat, w: nat, n: nat, i: nat, k: nat)
    requires w <= stride && RowAt(stride, n) <= |data| && i < n && k < w
    ensures RowAt(stride, i) + k < |data|
  {
    RowAtNext(stride, i);
    RowAtMonotone(stride, i + 1, n);
  }

  /** The samples of the decoded planes: Y[i][k] of the picture, and Cb[i][k] and Cr[i][k] of its 2 x 2 blocks. */
  function LumaAt(p: Planes, w: nat, h: nat, i: nat, k: nat): Byte
    requires Holds(p, w, h) && i < h && k < w
  {
    InPlane(p.y, p.yStride, w, h, i, k);
    p.y[RowAt(p.yStride, i) + k]
  }

  function CbAt(p: Planes, w: nat, h: nat, i: nat, k: nat): Byte
    requires Holds(p, w, h) && i < h / 2 && k < w / 2
  {
    InPlane(p.cb, p.cStride, w / 2, h / 2, i, k);
    p.cb[RowAt(p.cStride, i) + k]
  }

  function CrAt(p: Planes, w: nat, h: nat, i: nat, k: nat): Byte
    requires Holds(p, w, h) && i < h / 2 && k < w / 2
  {
    InPlane(p.cr, p.cStride, w / 2, h / 2, i, k);
    p.cr[RowAt(p.cStride, i) + k]
  }

  lemma PackedLuma(p: Planes, w: nat, h: nat, junk: seq<Byte>, i: nat, x: nat)
    requires Holds(p, w, h) && RowAt(w, h / 2) <= |junk| && i < h && x < w
    ensures RowAt(w, i) + x < |Packed(p, w, h, junk)|
    ensures Packed(p, w, h, junk)[RowAt(w, i) + x] == LumaAt(p, w, h, i, x)
  {
    hide RowAt, Rows, ChromaRows;
    RowsPixel(p.y, p.yStride, w, h, i, x);
  }

  lemma PackedChroma(p: Planes, w: nat, h: nat, junk: seq<Byte>, i: nat, k: nat)
    requires Holds(p, w, h) && RowAt(w, h / 2) <= |junk| && i < h / 2 && k < w / 2
    ensures RowAt(w, h) + RowAt(w, i) + 2 * k + 1 < |Packed(p, w, h, junk)|
    ensures Packed(p, w, h, junk)[RowAt(w, h) + RowAt(w, i) + 2 * k] == CbAt(p, w, h, i, k)
    ensures Packed(p, w, h, junk)[RowAt(w, h) + RowAt(w, i) + 2 * k + 1] == CrAt(p, w, h, i, k)
  {
    hide RowAt, Rows, ChromaRows;
    ChromaRowsPixel(p, w, h / 2, junk, i, k);
  }

  lemma ColumnsAre(w: nat, h: nat, wsl: nat, hsl: nat, x: nat)
    requires Croppable(w, h, wsl, hsl)
    ensures PictureColumn(wsl, x) == PictureColumn(wsl, 0) + x && 2 * ReadColumn(wsl, x) == wsl + 2 * (x / 2)
  {
  }

  /** Three bytes of a row in terms of where its luma and its chroma begin. */
  lemma SampleSlice(input: seq<Byte>, luma0: nat, chroma0: nat, n: nat, x: nat, luma: nat, chroma: nat)
    requires n % 2 == 0 && luma0 + n <= |input| && chroma0 + n <= |input| && x < n
    requires luma == luma0 + x && chroma == chroma0 + 2 * (x / 2)
    ensures luma < |input| && chroma + 1 < |input|
    ensures RowSamples(input, luma0, chroma0, n)[3 * x..3 * x + 3] == [input[luma], input[chroma], input[chroma + 1]]
  {
    SampleOfPixel(input, luma0, chroma0, n, x);
  }

  /** The bytes of the buffer that make up pixel x of a scanline. */
  lemma ScannedPixel(input: seq<Byte>, w: nat, h: nat, wsl: nat, hsl: nat, s: nat, x: nat, luma: nat, chroma: nat)
    requires Croppable(w, h, wsl, hsl) && IsPicture(input, w, h)
    requires s < h - hsl && x < w - wsl
    requires luma == RowAt(w, PictureRow(hsl, s)) + PictureColumn(wsl, x)
    requires chroma == RowAt(w, h) + RowAt(w, BlockRow(hsl, s)) + 2 * ReadColumn(wsl, x)
    ensures luma < |input| && chroma + 1 < |input|
    ensures ScanRow(input, w, h, wsl, hsl, s)[3 * x..3 * x + 3] == [input[luma], input[chroma], input[chroma + 1]]
  {
    LineInPicture(w, h, wsl, hsl, s);
    ColumnsAre(w, h, wsl, hsl, x);
    hide *;
    var luma0 := RowAt(w, PictureRow(hsl, s)) + PictureColumn(wsl, 0);
    var chroma0 := RowAt(w, h) + RowAt(w, BlockRow(hsl, s)) + wsl;
    ScanRowSamples(input, w, h, wsl, hsl, s, luma0, chroma0);
    SampleSlice(input, luma0, chroma0, w - wsl, x, luma, chroma);
  }

  lemma ScanRowSamples(input: seq<Byte>, w: nat, h: nat, wsl: nat, hsl: nat, s: nat, luma0: nat, chroma0: nat)
    requires Croppable(w, h, wsl, hsl) && IsPicture(input, w, h) && s < h - hsl
    requires luma0 == RowAt(w, PictureRow(hsl, s)) + PictureColumn(wsl, 0)
    requires chroma0 == RowAt(w, h) + RowAt(w, BlockRow(hsl, s)) + wsl
    ensures luma0 + (w - wsl) <= |input| && chroma0 + (w - wsl) <= |input|
    ensures ScanRow(input, w, h, wsl, hsl, s) == RowSamples(input, luma0, chroma0, w - wsl)
  {
    LineInPicture(w, h, wsl, hsl, s);
    hide RowAt, RowSamples, Uv, IsPicture, Croppable, PictureRow, PictureColumn, BlockRow;
    RowFits(input, w, h, wsl, hsl, s);
    RowPositions(w, h, wsl, hsl, s);
  }

  /** What the reader makes of pixel x of scanline s of a crop of a packed picture. */
  function CropPixel(p: Planes, w: nat, h: nat, junk: seq<Byte>, wsl: nat, hsl: nat, s: nat, x: nat): (px: seq<Byte>)
    requires Croppable(w, h, wsl, hsl) && Holds(p, w, h) && RowAt(w, h / 2) <= |junk|
    requires s < h - hsl && x < w - wsl
    ensures |px| == 3
  {
    ScanRow(Packed(p, w, h, junk), w, h, wsl, hsl, s)[3 * x..3 * x + 3]
  }

  lemma PackedIsPicture(p: Planes, w: nat, h: nat, junk: seq<Byte>)
    requires Holds(p, w, h) && RowAt(w, h / 2) <= |junk|
    ensures IsPicture(Packed(p, w, h, junk), w, h)
  {
    hide RowAt, Holds;
  }

  /** Luma comes from the pixel's own place in the picture, chroma from the block column that half the crop's width and
      half the pixel's number add up to. */
  lemma CroppedPixel(p: Planes, w: nat, h: nat, junk: seq<Byte>, wsl: nat, hsl: nat, s: nat, x: nat)
    requires Croppable(w, h, wsl, hsl) && Holds(p, w, h) && RowAt(w, h / 2) <= |junk|
    requires s < h - hsl && x < w - wsl
    ensures PictureRow(hsl, s) < h && BlockRow(hsl, s) < h / 2
    ensures PictureColumn(wsl, x) < w && ReadColumn(wsl, x) < w / 2
    ensures CropPixel(p, w, h, junk, wsl, hsl, s, x)
         == [LumaAt(p, w, h, PictureRow(hsl, s), PictureColumn(wsl, x)),
             CbAt(p, w, h, BlockRow(hsl, s), ReadColumn(wsl, x)),
             CrAt(p, w, h, BlockRow(hsl, s), ReadColumn(wsl, x))]
  {
    hide RowAt, Packed, ScanRow, Holds, LumaAt, CbAt, CrAt, Croppable, IsPicture;
    hide PictureRow, PictureColumn, BlockRow, ReadColumn;
    LineInPicture(w, h, wsl, hsl, s);
    CropInPicture(w, h, wsl, hsl, s, x);
    PackedIsPicture(p, w, h, junk);
    var luma := RowAt(w, PictureRow(hsl, s)) + PictureColumn(wsl, x);
    var chroma := RowAt(w, h) + RowAt(w, BlockRow(hsl, s)) + 2 * ReadColumn(wsl, x);
    PackedLuma(p, w, h, junk, PictureRow(hsl, s), PictureColumn(wsl, x));
    PackedChroma(p, w, h, junk, BlockRow(hsl, s), ReadColumn(wsl, x));
    ScannedPixel(Packed(p, w, h, junk), w, h, wsl, hsl, s, x, luma, chroma);
  }

  /** Round trip at full width, for any even vertical crop: every pixel gets exactly its own luma and the chroma of its
      2 x 2 block. */
  lemma RoundTrip(p: Planes, w: nat, h: nat, junk: seq<Byte>, hsl: nat, s: nat, x: nat)
    requires Croppable(w, h, 0, hsl) && Holds(p, w, h) && RowAt(w, h / 2) <= |junk| && s < h - hsl && x < w
    ensures s + hsl / 2 < h && (s + hsl / 2) / 2 < h / 2 && x / 2 < w / 2
    ensures CropPixel(p, w, h, junk, 0, hsl, s, x)
         == [LumaAt(p, w, h, s + hsl / 2, x),
             CbAt(p, w, h, (s + hsl / 2) / 2, x / 2), CrAt(p, w, h, (s + hsl / 2) / 2, x / 2)]
  {
    hide CropPixel, LumaAt, CbAt, CrAt, Holds, RowAt, Croppable;
    CroppedPixel(p, w, h, junk, 0, hsl, s, x);
    assert PictureColumn(0, x) == x && ReadColumn(0, x) == x / 2;
  }

  /** The reader gives pixel x of scanline s of a crop the chroma of the pixel's own 2 x 2 block in the picture. */
  ghost predicate OwnChroma(p: Planes, w: nat, h: nat, junk: seq<Byte>, wsl: nat, hsl: nat, s: nat, x: nat)
    requires Croppable(w, h, wsl, hsl) && Holds(p, w, h) && RowAt(w, h / 2) <= |junk|
    requires s < h - hsl && x < w - wsl
  {
    LineInPicture(w, h, wsl, hsl, s);
    CropInPicture(w, h, wsl, hsl, s, x);
    var i, k := BlockRow(hsl, s), BlockColumn(wsl, x);
    CropPixel(p, w, h, junk, wsl, hsl, s, x)[1..] == [CbAt(p, w, h, i, k), CrAt(p, w, h, i, k)]
  }

  /** All samples zero but the Cb sample at `at`. */
  function OneBlue(w: nat, h: nat, at: nat): (p: Planes)
    ensures Holds(p, w, h)
  {
    var none := seq<Byte>(RowAt(w / 2, h / 2), _ => 0);
    Planes(seq<Byte>(RowAt(w, h), _ => 0), w, seq<Byte>(RowAt(w / 2, h / 2), k => if k == at then 1 else 0), none, w / 2)
  }

  lemma OneBlueAt(w: nat, h: nat, i: nat, k: nat, k': nat)
    requires i < h / 2 && k < w / 2 && k' < w / 2 && k != k'
    ensures var p := OneBlue(w, h, RowAt(w / 2, i) + k); CbAt(p, w, h, i, k) == 1 && CbAt(p, w, h, i, k') == 0
  {
    hide RowAt;
    var p := OneBlue(w, h, RowAt(w / 2, i) + k);
    InPlane(p.cb, p.cStride, w / 2, h / 2, i, k);
    InPlane(p.cb, p.cStride, w / 2, h / 2, i, k');
  }

  /** A picture in which the first pixel of a crop gets the wrong chroma. */
  lemma WrongChroma(w: nat, h: nat, wsl: nat, hsl: nat) returns (p: Planes, junk: seq<Byte>)
    requires Croppable(w, h, wsl, hsl) && 0 < wsl < w && hsl < h
    ensures Holds(p, w, h) && RowAt(w, h / 2) <= |junk| && !OwnChroma(p, w, h, junk, wsl, hsl, 0, 0)
  {
    hide RowAt, CropPixel, OneBlue, CbAt, CrAt, LumaAt, Croppable, Holds;
    hide PictureRow, PictureColumn, BlockRow, ReadColumn, BlockColumn;
    ColumnsDiffer(w, h, wsl, hsl);
    LineInPicture(w, h, wsl, hsl, 0);
    CropInPicture(w, h, wsl, hsl, 0, 0);
    var i := BlockRow(hsl, 0);
    p := OneBlue(w, h, RowAt(w / 2, i) + ReadColumn(wsl, 0));
    junk := seq<Byte>(RowAt(w, h / 2), _ => 0);
    CroppedPixel(p, w, h, junk, wsl, hsl, 0, 0);
    OneBlueAt(w, h, i, ReadColumn(wsl, 0), BlockColumn(wsl, 0));
  }

  lemma ColumnsDiffer(w: nat, h: nat, wsl: nat, hsl: nat)
    requires Croppable(w, h, wsl, hsl) && 0 < wsl
    ensures ReadColumn(wsl, 0) != BlockColumn(wsl, 0)
  {
  }

  /** A crop gives every pixel of every picture its own chroma exactly when nothing is cropped from the width. */
  lemma OwnChromaIffFullWidth(w: nat, h: nat, wsl: nat, hsl: nat)
    requires Croppable(w, h, wsl, hsl) && wsl < w && hsl < h
    ensures (forall p: Planes, junk: seq<Byte>, s: nat, x: nat
               | Holds(p, w, h) && RowAt(w, h / 2) <= |junk| && s < h - hsl && x < w - wsl ::
                 OwnChroma(p, w, h, junk, wsl, hsl, s, x))
       <==> wsl == 0
  {
    hide RowAt, Holds, OwnChroma;
    if wsl == 0 {
      forall p: Planes, junk: seq<Byte>, s: nat, x: nat
        | Holds(p, w, h) && RowAt(w, h / 2) <= |junk| && s < h - hsl && x < w - wsl
        ensures OwnChroma(p, w, h, junk, wsl, hsl, s, x)
      {
        OwnChromaAtFullWidth(p, w, h, junk, hsl, s, x);
      }
    } else {
      var p, junk := WrongChroma(w, h, wsl, hsl);
      assert !OwnChroma(p, w, h, junk, wsl, hsl, 0, 0);
    }
  }

  lemma OwnChromaAtFullWidth(p: Planes, w: nat, h: nat, junk: seq<Byte>, hsl: nat, s: nat, x: nat)
    requires Croppable(w, h, 0, hsl) && Holds(p, w, h) && RowAt(w, h / 2) <= |junk| && s < h - hsl && x < w
    ensures OwnChroma(p, w, h, junk, 0, hsl, s, x)
  {
    hide CropPixel, LumaAt, CbAt, CrAt, Holds, RowAt, Croppable;
    CroppedPixel(p, w, h, junk, 0, hsl, s, x);
    assert BlockColumn(0, x) == ReadColumn(0, x);
  }
}
