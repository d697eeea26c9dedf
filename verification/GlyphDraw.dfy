/** Drawing a glyph: cache, blit and dirty box together. */
module GlyphDraw {
  import opened Common
  import opened Bitmap
  import opened Damage
  import opened GlyphCache

  /** Byte `i` of the frame buffer lies under a glyph drawn at `(x, y)`. */
  ghost predicate UnderGlyph(fb: Bitmap, i: nat, x: int, y: int, img: Image)
    requires fb.Valid()
  {
    Within(i, fb.stride, 0, 0, fb.w, fb.h) && Within(i, fb.stride, x, y, x + img.w, y + img.h)
  }

  /** The byte of the glyph that lands on byte `i`. */
  ghost function GlyphByte(fb: Bitmap, i: nat, x: int, y: int, img: Image): byte
    requires fb.Valid() && img.Fits() && UnderGlyph(fb, i, x, y, img)
  {
    RowFits(Row(i, fb.stride) - y, img.h, img.stride, |img.bytes|);
    img.bytes[(Row(i, fb.stride) - y) * img.stride + (Col(i, fb.stride) - 4 * x)]
  }

  /** Draws a rendered glyph. */
  method DrawImage(frame: Frame, x: int, y: int, img: Image)
    requires frame.Valid() && img.Fits()
    modifies frame.fb.pixels, frame.dirty
    ensures frame.Valid() && frame.start == old(frame.start)
    ensures forall i :: 0 <= i < |frame.start| ==>
      frame.fb.pixels[i] == if UnderGlyph(frame.fb, i, x, y, img) then GlyphByte(frame.fb, i, x, y, img)
                            else old(frame.fb.pixels[i])
  {
    var pixels := new byte[|img.bytes|](k requires 0 <= k < |img.bytes| => img.bytes[k]);
    var src := new Bitmap(pixels, img.w, img.h, img.stride, Rgba8888);
    frame.DrawBitmap(x, y, src);
    assert forall k :: 0 <= k < |img.bytes| ==> src.pixels[k] == img.bytes[k];
  }

  /**
   * Draws a glyph: exactly the pixels under it change, to those a fresh render of it has, and
   * they are in the dirty box. A glyph that cannot be rendered changes nothing.
   */
  method DrawGlyph(frame: Frame, cache: Cache, x: int, y: int, g: Glyph) returns (ok: bool)
    requires frame.Valid() && cache.Valid()
    requires forall font: nat, h: Glyph :: cache.render(font, h).Some? ==> cache.render(font, h).value.Fits()
    modifies frame.fb.pixels, frame.dirty, cache.entries
    ensures frame.Valid() && cache.Valid() && frame.start == old(frame.start)
    ensures ok <==> cache.render(cache.font, g).Some?
    ensures ok ==>
      var img := cache.render(cache.font, g).value;
      forall i :: 0 <= i < |frame.start| ==>
        frame.fb.pixels[i] == if UnderGlyph(frame.fb, i, x, y, img) then GlyphByte(frame.fb, i, x, y, img)
                              else old(frame.fb.pixels[i])
    ensures !ok ==> frame.fb.pixels[..] == old(frame.fb.pixels[..]) && frame.dirty.Value() == old(frame.dirty.Value())
  {
    var bm := cache.Lookup(g);
    if bm.None? {
      return false;
    }
    DrawImage(frame, x, y, bm.value);
    return true;
  }
}
