/** The dirty box: what a frame's draws touch, and what is handed to the compositor. */
module Damage {
  import opened Common
  import opened Bitmap

  /** The box of columns `x0..x1` and rows `y0..y1`. */
  datatype Box = Box(x0: int, y0: int, x1: int, y1: int) {
    predicate Has(x: int, y: int) {
      x0 <= x < x1 && y0 <= y < y1
    }

    predicate Inside(w: nat, h: nat) {
      0 <= x0 < x1 <= w && 0 <= y0 < y1 <= h
    }
  }

  ghost predicate Contains(outer: Box, inner: Box) {
    forall x, y :: inner.Has(x, y) ==> outer.Has(x, y)
  }

  function Min(a: int, b: int): int { if a < b then a else b }

  function Max(a: int, b: int): int { if a > b then a else b }

  /** The part of a rectangle that lies on a `w` by `h` screen. */
  function Clip(r: Rect, w: nat, h: nat): Option<Box> {
    var b := Box(Max(r.x, 0), Max(r.y, 0), Min(r.x + r.w, w), Min(r.y + r.h, h));
    if b.x0 < b.x1 && b.y0 < b.y1 then Some(b) else None
  }

  function Hull(a: Option<Box>, b: Option<Box>): Option<Box> {
    if a.None? then b
    else if b.None? then a
    else Some(Box(Min(a.value.x0, b.value.x0), Min(a.value.y0, b.value.y0),
                  Max(a.value.x1, b.value.x1), Max(a.value.y1, b.value.y1)))
  }

  lemma ClipExact(r: Rect, w: nat, h: nat)
    ensures Clip(r, w, h).Some? ==> Clip(r, w, h).value.Inside(w, h)
    ensures forall x, y :: 0 <= x < w && 0 <= y < h && r.x <= x < r.x + r.w && r.y <= y < r.y + r.h
              <==> Clip(r, w, h).Some? && Clip(r, w, h).value.Has(x, y)
  {
  }

  /** The hull contains both boxes and lies in every box that does. */
  lemma HullLeast(a: Box, b: Box, outer: Box)
    requires a.x0 < a.x1 && a.y0 < a.y1 && b.x0 < b.x1 && b.y0 < b.y1
    ensures Contains(Hull(Some(a), Some(b)).value, a) && Contains(Hull(Some(a), Some(b)).value, b)
    ensures Contains(outer, a) && Contains(outer, b) ==> Contains(outer, Hull(Some(a), Some(b)).value)
  {
    if Contains(outer, a) && Contains(outer, b) {
      assert a.Has(a.x0, a.y0) && a.Has(a.x1 - 1, a.y1 - 1);
      assert b.Has(b.x0, b.y0) && b.Has(b.x1 - 1, b.y1 - 1);
    }
  }

  class DirtyBox {
    var x0: int
    var y0: int
    var x1: int
    var y1: int
    var empty: bool

    function Value(): Option<Box>
      reads this
    {
      if empty then None else Some(Box(x0, y0, x1, y1))
    }

    constructor ()
      ensures Value() == None
    {
      x0, y0, x1, y1, empty := 0, 0, 0, 0, true;
    }

    method Reset()
      modifies this
      ensures Value() == None
    {
      x0, y0, x1, y1 := 0, 0, 0, 0;
      empty := true;
    }

    method Include(a0: int, b0: int, a1: int, b1: int)
      modifies this
      ensures Value() == Hull(old(Value()), Some(Box(a0, b0, a1, b1)))
    {
      if empty {
        x0, y0, x1, y1 := a0, b0, a1, b1;
        empty := false;
      } else {
        if a0 < x0 { x0 := a0; }
        if b0 < y0 { y0 := b0; }
        if a1 > x1 { x1 := a1; }
        if b1 > y1 { y1 := b1; }
      }
    }

    method Extend(x: int, y: int, w: int, h: int, clipW: nat, clipH: nat)
      modifies this
      ensures Value() == Hull(old(Value()), Clip(Rect(x, y, w, h), clipW, clipH))
    {
      if w <= 0 || h <= 0 { return; }
      var a0 := if x < 0 then 0 else x;
      var b0 := if y < 0 then 0 else y;
      var a1, b1 := x + w, y + h;
      if a1 > clipW { a1 := clipW; }
      if b1 > clipH { b1 := clipH; }
      if a0 >= a1 || b0 >= b1 { return; }
      Include(a0, b0, a1, b1);
    }
  }

  /** Byte `i` of the frame buffer is part of a pixel in the box. */
  ghost predicate InBox(i: nat, stride: nat, box: Option<Box>)
    requires stride > 0
  {
    box.Some? && box.value.Has(Col(i, stride) / 4, Row(i, stride))
  }

  /** One frame on a latched buffer, from begin to end. */
  class Frame {
    const fb: Bitmap
    const dirty: DirtyBox
    ghost var start: seq<byte>

    /** Every byte that differs from the frame's start lies in the dirty box, and the box on screen. */
    ghost predicate Valid()
      reads this, dirty, fb.pixels
    {
      && fb.Valid() && fb.fmt.Rgba8888? && |start| == fb.pixels.Length
      && (dirty.Value().Some? ==> dirty.Value().value.Inside(fb.w, fb.h))
      && forall i :: 0 <= i < |start| ==> fb.pixels[i] != start[i] ==> InBox(i, fb.stride, dirty.Value())
    }

    /** begin_frame: the box is reset. */
    constructor (fb: Bitmap)
      requires fb.Valid() && fb.fmt.Rgba8888?
      ensures Valid() && this.fb == fb && fresh(dirty)
      ensures start == fb.pixels[..] && dirty.Value() == None
    {
      this.fb := fb;
      dirty := new DirtyBox();
      start := fb.pixels[..];
    }

    /** Extends the box over a rectangle that contains every byte just changed. */
    lemma BoxCovers(before: Option<Box>, i: nat, r: Rect)
      requires fb.Valid()
      requires InBox(i, fb.stride, before)
               || (Within(i, fb.stride, 0, 0, fb.w, fb.h) && Within(i, fb.stride, r.x, r.y, r.x + r.w, r.y + r.h))
      ensures InBox(i, fb.stride, Hull(before, Clip(r, fb.w, fb.h)))
    {
      ClipExact(r, fb.w, fb.h);
    }

    lemma BoxStaysInside(before: Option<Box>, r: Rect)
      requires before.Some? ==> before.value.Inside(fb.w, fb.h)
      ensures var box := Hull(before, Clip(r, fb.w, fb.h)); box.Some? ==> box.value.Inside(fb.w, fb.h)
    {
    }

    method FillRect(dst: Option<Rect>, color: Rgb)
      requires Valid()
      modifies fb.pixels, dirty
      ensures Valid() && start == old(start)
      ensures forall i :: 0 <= i < |start| ==>
        fb.pixels[i] == if fb.Covered(i, dst) then PixelByte(color, Col(i, fb.stride) % 4) else old(fb.pixels[i])
    {
      ghost var before := dirty.Value();
      var r := if dst.Some? then dst.value else Rect(0, 0, fb.w, fb.h);
      fb.FillRect(dst, color);
      dirty.Extend(r.x, r.y, r.w, r.h, fb.w, fb.h);
      BoxStaysInside(before, r);
      forall i | 0 <= i < |start| && fb.pixels[i] != start[i]
        ensures InBox(i, fb.stride, dirty.Value())
      {
        BoxCovers(before, i, r);
      }
    }

    /** Clears the whole screen. */
    method Clear(color: Rgb)
      requires Valid()
      modifies fb.pixels, dirty
      ensures Valid() && start == old(start)
      ensures forall i :: 0 <= i < |start| ==>
        fb.pixels[i] == if fb.Covered(i, None) then PixelByte(color, Col(i, fb.stride) % 4) else old(fb.pixels[i])
    {
      FillRect(None, color);
    }

    /** Draws a bitmap: an overlay, an indicator, or a glyph from the cache. */
    method DrawBitmap(x: int, y: int, src: Bitmap)
      requires Valid() && src.Valid() && src.pixels != fb.pixels
      modifies fb.pixels, dirty
      ensures Valid() && start == old(start)
      ensures forall i :: 0 <= i < |start| ==>
        fb.pixels[i] == if src.fmt.Rgba8888? && fb.UnderSource(i, x, y, src)
                        then src.pixels[fb.SourceIndex(i, x, y, src)] else old(fb.pixels[i])
    {
      ghost var before := dirty.Value();
      ghost var r := Rect(x, y, src.w, src.h);
      fb.Blit(x, y, src);
      dirty.Extend(x, y, src.w, src.h, fb.w, fb.h);
      BoxStaysInside(before, r);
      forall i | 0 <= i < |start| && fb.pixels[i] != start[i]
        ensures InBox(i, fb.stride, dirty.Value())
      {
        BoxCovers(before, i, r);
      }
    }

    /**
     * end_frame: the rectangle `(x, y, w, h)` to re-upload, or none when nothing was drawn.
     * Whatever the frame changed is inside it.
     */
    method EndFrame(wasFull: bool) returns (post: Option<Rect>)
      requires Valid()
      ensures post == if dirty.Value().None? then None
                      else if wasFull then Some(Rect(0, 0, fb.w, fb.h))
                      else var b := dirty.Value().value; Some(Rect(b.x0, b.y0, b.x1 - b.x0, b.y1 - b.y0))
      ensures post.None? ==> fb.pixels[..] == start
      ensures post.Some? ==> forall i :: 0 <= i < |start| && fb.pixels[i] != start[i] ==>
        var r := post.value; Within(i, fb.stride, r.x, r.y, r.x + r.w, r.y + r.h)
      ensures post.Some? ==> var r := post.value;
        0 <= r.x && 0 <= r.y && 0 < r.w && 0 < r.h && r.x + r.w <= fb.w && r.y + r.h <= fb.h
    {
      post := None;
      if !dirty.empty {
        if wasFull {
          post := Some(Rect(0, 0, fb.w, fb.h));
        } else {
          post := Some(Rect(dirty.x0, dirty.y0, dirty.x1 - dirty.x0, dirty.y1 - dirty.y0));
        }
      }
    }
  }
}
