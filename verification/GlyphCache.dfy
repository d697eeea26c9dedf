/** The direct-mapped cache of rendered glyphs. */
module GlyphCache {
  import opened Common

  /** What a glyph's picture depends on besides the font. */
  datatype Glyph = Glyph(codepoint: bv32, style: bv32, fg: Rgb, bg: Rgb)

  /** A rendered glyph: rows of four-byte pixels. */
  datatype Image = Image(w: nat, h: nat, stride: nat, bytes: seq<byte>) {
    predicate Fits() {
      stride > 0 && 4 * w <= stride && h * stride <= |bytes|
    }
  }

  const CACHE_SIZE: nat := 2048

  function ColorKey(c: Rgb): nat {
    c.r * 0x1_0000 + c.g * 0x100 + c.b
  }

  /** Comparing packed colours is comparing colours. */
  lemma ColorKeyInjective(c: Rgb, d: Rgb)
    requires ColorKey(c) == ColorKey(d)
    ensures c == d
  {
  }

  function Index(h: bv32): (i: nat)
    ensures i < CACHE_SIZE
  {
    (h as nat) % CACHE_SIZE
  }

  function Hash(g: Glyph): bv32 {
    (g.codepoint * 2654435761) ^ ((ColorKey(g.fg) as bv32) * 2246822519)
    ^ ((ColorKey(g.bg) as bv32) * 3266489917) ^ (g.style * 668265263)
  }

  datatype Entry = Entry(codepoint: bv32, style: bv32, fgKey: nat, bgKey: nat, bm: Option<Image>)

  /** An occupied entry holds the picture of the glyph its keys name. */
  ghost predicate EntryOk(e: Entry, font: nat, render: (nat, Glyph) -> Option<Image>) {
    e.bm.Some? ==>
      forall g: Glyph ::
        (g.codepoint == e.codepoint && g.style == e.style && ColorKey(g.fg) == e.fgKey && ColorKey(g.bg) == e.bgKey)
        ==> render(font, g) == e.bm
  }

  class Cache {
    const entries: array<Entry>
    var font: nat
    /** The font library: what a fresh render of a glyph gives, if it succeeds. */
    const render: (nat, Glyph) -> Option<Image>

    ghost predicate Valid()
      reads this, entries
    {
      entries.Length == CACHE_SIZE && forall i :: 0 <= i < CACHE_SIZE ==> EntryOk(entries[i], font, render)
    }

    constructor (font: nat, render: (nat, Glyph) -> Option<Image>)
      ensures Valid() && this.font == font && this.render == render && fresh(entries)
    {
      this.font, this.render := font, render;
      entries := new Entry[CACHE_SIZE](_ => Entry(0, 0, 0, 0, None));
    }

    lemma Stored(g: Glyph, bm: Option<Image>)
      requires bm == render(font, g)
      ensures EntryOk(Entry(g.codepoint, g.style, ColorKey(g.fg), ColorKey(g.bg), bm), font, render)
    {
      forall h: Glyph | h.codepoint == g.codepoint && h.style == g.style
                        && ColorKey(h.fg) == ColorKey(g.fg) && ColorKey(h.bg) == ColorKey(g.bg)
        ensures render(font, h) == bm
      {
        ColorKeyInjective(h.fg, g.fg);
        ColorKeyInjective(h.bg, g.bg);
        assert h == g;
      }
    }

    /** Hit or miss, the picture is the one a fresh render would give. */
    method Lookup(g: Glyph) returns (bm: Option<Image>)
      requires Valid()
      modifies entries
      ensures Valid() && bm == render(font, g)
      ensures var slot := entries[Index(Hash(g))];
        if bm.Some? then slot == Entry(g.codepoint, g.style, ColorKey(g.fg), ColorKey(g.bg), bm) else slot.bm.None?
      ensures forall i :: 0 <= i < CACHE_SIZE && i != Index(Hash(g)) ==> entries[i] == old(entries[i])
    {
      var fgKey, bgKey, i := ColorKey(g.fg), ColorKey(g.bg), Index(Hash(g));
      var e := entries[i];
      if e.bm.Some? && e.codepoint == g.codepoint && e.style == g.style && e.fgKey == fgKey && e.bgKey == bgKey {
        assert EntryOk(entries[i], font, render);
        return e.bm;
      }
      bm := render(font, g);
      if bm.None? {
        entries[i] := e.(bm := None);
        return;
      }
      entries[i] := Entry(g.codepoint, g.style, fgKey, bgKey, bm);
      Stored(g, bm);
    }

    /** A font swap empties the cache, so no glyph of the old font is ever shown. */
    method SetFont(newFont: nat)
      requires Valid()
      modifies this`font, entries
      ensures Valid() && font == newFont
    {
      if font != newFont {
        for i := 0 to entries.Length
          invariant forall k :: 0 <= k < i ==> entries[k].bm.None?
          invariant forall k :: i <= k < entries.Length ==> entries[k] == old(entries[k])
        {
          entries[i] := entries[i].(bm := None);
        }
      }
      font := newFont;
    }
  }
}
