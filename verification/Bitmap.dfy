/** Pixel buffers: clipped fills and blits on a flat byte array with a row stride. */
module Bitmap {
  import opened Common

  datatype Format = Rgba8888 | A8

  datatype Rect = Rect(x: int, y: int, w: int, h: int)

  /** The row and the byte column of a byte of the buffer. */
  function Row(i: nat, stride: nat): nat
    requires stride > 0
  {
    i / stride
  }

  function Col(i: nat, stride: nat): nat
    requires stride > 0
  {
    i % stride
  }

  /** Byte `i` belongs to a pixel of columns `x0..x1` and rows `y0..y1`. */
  predicate Within(i: nat, stride: nat, x0: int, y0: int, x1: int, y1: int)
    requires stride > 0
  {
    y0 <= Row(i, stride) < y1 && x0 <= Col(i, stride) / 4 < x1
  }

  /** The bytes of a pixel in memory order: blue, green, red, opaque. */
  function PixelByte(color: Rgb, k: nat): byte
    requires k < 4
  {
    match k case 0 => color.b case 1 => color.g case 2 => color.r case _ => 255
  }

  lemma {:induction false} RowsApart(a: nat, b: nat, stride: nat)
    ensures a < b ==> a * stride + stride <= b * stride
  {
    if a < b {
      RowsApart(a, b - 1, stride);
      assert b * stride == (b - 1) * stride + stride;
    }
  }

  lemma SpanOfProducts(i: nat, q: nat, qs: nat, c: nat, stride: nat, y: nat, ys: nat, x0: nat, x1: nat)
    requires x0 <= x1 && 4 * x1 <= stride && i == qs + c && c < stride
    requires (q < y ==> qs + stride <= ys) && (y < q ==> ys + stride <= qs) && (q == y ==> qs == ys)
    ensures ys + 4 * x0 <= i < ys + 4 * x1 <==> q == y && x0 <= c / 4 < x1
    ensures q == y ==> (i - (ys + 4 * x0)) % 4 == c % 4
  {
  }

  /** A span of bytes inside one row, seen as a set of indices. */
  lemma SpanInRow(i: nat, stride: nat, y: nat, x0: nat, x1: nat, start: nat)
    requires x0 <= x1 && 4 * x1 <= stride && stride > 0 && start == y * stride + 4 * x0
    ensures start <= i < start + 4 * (x1 - x0) <==> Within(i, stride, x0, y, x1, y + 1)
    ensures Row(i, stride) == y ==> (i - start) % 4 == Col(i, stride) % 4
    ensures Row(i, stride) == y ==> i - start == Col(i, stride) - 4 * x0
  {
    var q, c := Row(i, stride), Col(i, stride);
    assert i == q * stride + c;
    RowsApart(q, y, stride);
    RowsApart(y, q, stride);
    SpanOfProducts(i, q, q * stride, c, stride, y, y * stride, x0, x1);
  }

  lemma RowFits(y: nat, h: nat, stride: nat, length: nat)
    requires y < h && h * stride <= length
    ensures y * stride + stride <= length
  {
    assert (y + 1) * stride <= h * stride;
  }

  /** Byte `k` of the pixel at `(x, y)`. */
  lemma PixelPlace(i: nat, stride: nat, x: nat, y: nat, k: nat)
    requires k < 4 && 4 * x + k < stride && i == y * stride + (4 * x + k)
    ensures Row(i, stride) == y && Col(i, stride) == 4 * x + k
    ensures Col(i, stride) / 4 == x && Col(i, stride) % 4 == k
  {
    var q, c := Row(i, stride), Col(i, stride);
    assert i == q * stride + c;
    RowsApart(q, y, stride);
    RowsApart(y, q, stride);
  }

  /** A pixel in memory: blue, green, red, and opaque. */
  lemma PixelBytes(color: Rgb, k: nat)
    requires k < 4
    ensures PixelByte(color, k) == [color.b, color.g, color.r, 255][k]
  {
  }

  lemma WithinMeans(i: nat, stride: nat, x: nat, y: nat, k: nat, x0: int, y0: int, x1: int, y1: int)
    requires k < 4 && 4 * x + k < stride && i == y * stride + (4 * x + k)
    ensures Within(i, stride, x0, y0, x1, y1) <==> x0 <= x < x1 && y0 <= y < y1
  {
    PixelPlace(i, stride, x, y, k);
  }

  class Bitmap {
    const pixels: array<byte>
    const w: nat
    const h: nat
    const stride: nat
    const fmt: Format

    ghost predicate Valid() {
      && stride > 0 && h * stride <= pixels.Length
      && (if fmt.Rgba8888? then 4 * w else w) <= stride
    }

    constructor (pixels: array<byte>, w: nat, h: nat, stride: nat, fmt: Format)
      requires stride > 0 && h * stride <= pixels.Length
      requires (if fmt.Rgba8888? then 4 * w else w) <= stride
      ensures Valid() && this.pixels == pixels && this.w == w && this.h == h && this.stride == stride
      ensures this.fmt == fmt
    {
      this.pixels, this.w, this.h, this.stride, this.fmt := pixels, w, h, stride, fmt;
    }

    /** Byte `i` belongs to a pixel of this bitmap that `r` covers. */
    ghost predicate Covered(i: nat, r: Option<Rect>)
      requires Valid()
    {
      && Within(i, stride, 0, 0, w, h)
      && (r.None? || Within(i, stride, r.value.x, r.value.y, r.value.x + r.value.w, r.value.y + r.value.h))
    }

    /** A fill covers the pixels of this bitmap that lie in the rectangle. */
    lemma CoveredMeans(i: nat, x: nat, y: nat, k: nat, r: Option<Rect>)
      requires Valid() && k < 4 && 4 * x + k < stride && i == y * stride + (4 * x + k)
      ensures Covered(i, r) <==>
              && x < w && y < h
              && (r.None? || (r.value.x <= x < r.value.x + r.value.w && r.value.y <= y < r.value.y + r.value.h))
    {
      WithinMeans(i, stride, x, y, k, 0, 0, w, h);
      if r.Some? {
        WithinMeans(i, stride, x, y, k, r.value.x, r.value.y, r.value.x + r.value.w, r.value.y + r.value.h);
      }
    }

    /** Stores one pixel word `n` times from byte `start` on. */
    method FillSpan(start: nat, n: nat, color: Rgb)
      requires start + 4 * n <= pixels.Length
      modifies pixels
      ensures forall i :: 0 <= i < pixels.Length ==>
        pixels[i] == if start <= i < start + 4 * n then PixelByte(color, (i - start) % 4) else old(pixels[i])
    {
      for x := 0 to n
        invariant forall i :: 0 <= i < pixels.Length ==>
          pixels[i] == if start <= i < start + 4 * x then PixelByte(color, (i - start) % 4) else old(pixels[i])
      {
        var p := start + 4 * x;
        pixels[p], pixels[p + 1], pixels[p + 2], pixels[p + 3] := color.b, color.g, color.r, 255;
      }
    }

    /** Fills the columns `x0..x1` of row `y`. */
    method FillRow(y: nat, x0: nat, x1: nat, color: Rgb)
      requires Valid() && fmt.Rgba8888? && y < h && x0 <= x1 <= w
      modifies pixels
      ensures forall i :: 0 <= i < pixels.Length ==>
        pixels[i] == if Within(i, stride, x0, y, x1, y + 1) then PixelByte(color, Col(i, stride) % 4)
                     else old(pixels[i])
    {
      RowFits(y, h, stride, pixels.Length);
      var start := y * stride + 4 * x0;
      FillSpan(start, x1 - x0, color);
      forall i | 0 <= i < pixels.Length
        ensures pixels[i] == if Within(i, stride, x0, y, x1, y + 1) then PixelByte(color, Col(i, stride) % 4)
                             else old(pixels[i])
      {
        SpanInRow(i, stride, y, x0, x1, start);
      }
    }

    /** Fills the pixels `r` covers, or all of them, and touches no other byte. */
    method FillRect(r: Option<Rect>, color: Rgb)
      requires Valid()
      modifies pixels
      ensures forall i :: 0 <= i < pixels.Length ==>
        pixels[i] == if fmt.Rgba8888? && Covered(i, r) then PixelByte(color, Col(i, stride) % 4)
                     else old(pixels[i])
    {
      if fmt != Rgba8888 {
        return;
      }
      var x0, y0, x1, y1 := 0, 0, w as int, h as int;
      if r.Some? {
        if r.value.x > x0 { x0 := r.value.x; }
        if r.value.y > y0 { y0 := r.value.y; }
        if r.value.x + r.value.w < x1 { x1 := r.value.x + r.value.w; }
        if r.value.y + r.value.h < y1 { y1 := r.value.y + r.value.h; }
      }
      assert forall i: nat {:trigger Within(i, stride, x0, y0, x1, y1)} ::
          Covered(i, r) <==> Within(i, stride, x0, y0, x1, y1);
      if x0 >= x1 || y0 >= y1 {
        return;
      }
      for y := y0 to y1
        invariant forall i :: 0 <= i < pixels.Length ==>
          pixels[i] == if Within(i, stride, x0, y0, x1, y) then PixelByte(color, Col(i, stride) % 4)
                       else old(pixels[i])
      {
        FillRow(y, x0, x1, color);
      }
    }

    /** Byte `i` lies under `src` drawn at `(dx, dy)`. */
    ghost predicate UnderSource(i: nat, dx: int, dy: int, src: Bitmap)
      requires Valid()
    {
      Within(i, stride, 0, 0, w, h) && Within(i, stride, dx, dy, dx + src.w, dy + src.h)
    }

    /** The byte of `src` that lands on byte `i`. */
    ghost function SourceIndex(i: nat, dx: int, dy: int, src: Bitmap): (k: nat)
      requires Valid() && src.Valid() && src.fmt.Rgba8888? && UnderSource(i, dx, dy, src)
      ensures k < src.pixels.Length
    {
      RowFits(Row(i, stride) - dy, src.h, src.stride, src.pixels.Length);
      (Row(i, stride) - dy) * src.stride + (Col(i, stride) - 4 * dx)
    }

    /** Under a source drawn at `(dx, dy)`, pixel `(x, y)` shows the source's pixel `(x - dx, y - dy)`. */
    lemma SourceMeans(i: nat, x: nat, y: nat, k: nat, dx: int, dy: int, src: Bitmap)
      requires Valid() && src.Valid() && src.fmt.Rgba8888?
      requires k < 4 && 4 * x + k < stride && i == y * stride + (4 * x + k)
      ensures UnderSource(i, dx, dy, src) <==>
              x < w && y < h && dx <= x < dx + src.w && dy <= y < dy + src.h
      ensures UnderSource(i, dx, dy, src) ==>
                SourceIndex(i, dx, dy, src) == (y - dy) * src.stride + (4 * (x - dx) + k)
    {
      WithinMeans(i, stride, x, y, k, 0, 0, w, h);
      WithinMeans(i, stride, x, y, k, dx, dy, dx + src.w, dy + src.h);
      PixelPlace(i, stride, x, y, k);
    }

    /** `memcpy` between two buffers. */
    method CopySpan(start: nat, src: array<byte>, from: nat, n: nat)
      requires src != pixels && start + n <= pixels.Length && from + n <= src.Length
      modifies pixels
      ensures forall i :: 0 <= i < pixels.Length ==>
        pixels[i] == if start <= i < start + n then src[from + (i - start)] else old(pixels[i])
    {
      forall k | 0 <= k < n {
        pixels[start + k] := src[from + k];
      }
    }

    lemma SourceInRow(i: nat, y: nat, x0: nat, x1: nat, src: Bitmap, sx: nat, sy: nat, dx: int, dy: int,
                      start: nat, from: nat)
      requires Valid() && src.Valid() && src.fmt.Rgba8888? && fmt.Rgba8888?
      requires start == y * stride + 4 * x0 && from == sy * src.stride + 4 * sx
      requires y < h && x0 <= x1 <= w && sx + (x1 - x0) <= src.w && sy < src.h
      requires sx == x0 - dx && sy == y - dy
      ensures start <= i < start + 4 * (x1 - x0) <==> Within(i, stride, x0, y, x1, y + 1)
      ensures Within(i, stride, x0, y, x1, y + 1) ==> UnderSource(i, dx, dy, src)
      ensures Within(i, stride, x0, y, x1, y + 1) ==> SourceIndex(i, dx, dy, src) == from + (i - start)
    {
      SpanInRow(i, stride, y, x0, x1, start);
      if Within(i, stride, x0, y, x1, y + 1) {
        assert Row(i, stride) - dy == sy;
        assert Col(i, stride) - 4 * dx == 4 * sx + (Col(i, stride) - 4 * x0);
      }
    }

    /** Copies one source row, from column `sx` on, to the columns `x0..x1` of row `y`. */
    method BlitRow(y: nat, x0: nat, x1: nat, src: Bitmap, sx: nat, sy: nat, dx: int, dy: int)
      requires Valid() && src.Valid() && fmt.Rgba8888? && src.fmt.Rgba8888? && src.pixels != pixels
      requires y < h && x0 <= x1 <= w && sx + (x1 - x0) <= src.w && sy < src.h
      requires sx == x0 - dx && sy == y - dy
      modifies pixels
      ensures forall i :: 0 <= i < pixels.Length ==>
        pixels[i] == if Within(i, stride, x0, y, x1, y + 1) then src.pixels[SourceIndex(i, dx, dy, src)]
                     else old(pixels[i])
    {
      RowFits(y, h, stride, pixels.Length);
      RowFits(sy, src.h, src.stride, src.pixels.Length);
      var start, from := y * stride + 4 * x0, sy * src.stride + 4 * sx;
      CopySpan(start, src.pixels, from, 4 * (x1 - x0));
      forall i | 0 <= i < pixels.Length
        ensures pixels[i] == if Within(i, stride, x0, y, x1, y + 1) then src.pixels[SourceIndex(i, dx, dy, src)]
                             else old(pixels[i])
      {
        SourceInRow(i, y, x0, x1, src, sx, sy, dx, dy, start, from);
      }
    }

    /** Draws `src` at `(dx, dy)`, clipped to this bitmap, and touches no other byte. */
    method Blit(dx: int, dy: int, src: Bitmap)
      requires Valid() && src.Valid() && src.pixels != pixels
      modifies pixels
      ensures forall i :: 0 <= i < pixels.Length ==>
        pixels[i] == if fmt.Rgba8888? && src.fmt.Rgba8888? && UnderSource(i, dx, dy, src)
                     then src.pixels[SourceIndex(i, dx, dy, src)] else old(pixels[i])
    {
      if fmt != Rgba8888 || src.fmt != Rgba8888 {
        return;
      }
      var x, y := dx, dy;
      var sx0, sy0, sx1, sy1 := 0, 0, src.w as int, src.h as int;
      if x < 0 { sx0 := sx0 - x; x := 0; }
      if y < 0 { sy0 := sy0 - y; y := 0; }
      if x + (sx1 - sx0) > w { sx1 := sx0 + (w - x); }
      if y + (sy1 - sy0) > h { sy1 := sy0 + (h - y); }
      var x1, y1 := x + (sx1 - sx0), y + (sy1 - sy0);
      assert forall i: nat {:trigger Within(i, stride, x, y, x1, y1)} ::
          UnderSource(i, dx, dy, src) <==> Within(i, stride, x, y, x1, y1);
      if sx0 >= sx1 || sy0 >= sy1 {
        return;
      }
      for s := sy0 to sy1
        invariant forall i :: 0 <= i < pixels.Length ==>
          pixels[i] == if Within(i, stride, x, y, x1, y + (s - sy0)) then src.pixels[SourceIndex(i, dx, dy, src)]
                       else old(pixels[i])
      {
        BlitRow(y + (s - sy0), x, x1, src, sx0, s, dx, dy);
      }
    }
  }
}
