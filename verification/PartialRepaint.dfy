/**
 * The damage-tracked frame: only dirty rows and cursor rows are repainted, onto whichever
 * buffer is handed out, and the picture must be the one a full repaint would give.
 */
module PartialRepaint {
  import opened Common
  import opened FreshBuffers

  /** A cell, colours resolved; `hasText` says that it draws a glyph. */
  datatype Cell = Cell(hasText: bool, face: nat)

  type Row = seq<Cell>

  datatype Cursor = Cursor(visible: bool, x: nat, y: nat)

  /**
   * A dot of the grid area. What painting a row puts at a dot is left free: it may depend on
   * the whole row, on the inverted column, and on the flash, and on nothing else.
   */
  datatype Dot = Blank | Text(row: Row, swap: Option<nat>, flash: bool, at: nat) | Ink(color: nat)

  type Picture = seq<seq<Dot>>

  /** The opaque dots of an overlay over one row. */
  type Mask = seq<Option<nat>>

  /** Everything painted over or into the rows: the overlays, and the flash. */
  datatype Look = Look(flash: bool, width: nat, overlay: seq<Mask>)

  datatype Scene = Scene(rows: seq<Row>, cursor: Cursor, look: Look)

  predicate SceneOk(s: Scene) {
    |s.look.overlay| == |s.rows| && forall y :: 0 <= y < |s.rows| ==> |s.look.overlay[y]| == s.look.width
  }

  function SwapIn(c: Cursor, y: nat): Option<nat> {
    if c.visible && c.y == y then Some(c.x) else None
  }

  function PaintCells(row: Row, swap: Option<nat>, flash: bool, width: nat): seq<Dot> {
    seq(width, d requires 0 <= d => Text(row, swap, flash, d))
  }

  function PaintRow(s: Scene, y: nat): (line: seq<Dot>)
    requires y < |s.rows|
    ensures |line| == s.look.width
  {
    PaintCells(s.rows[y], SwapIn(s.cursor, y), s.look.flash, s.look.width)
  }

  /** Draws the opaque dots of an overlay row over a painted row. */
  function Cover(mask: Mask, line: seq<Dot>): seq<Dot>
    requires |mask| == |line|
  {
    seq(|line|, d requires 0 <= d < |line| => if mask[d].Some? then Ink(mask[d].value) else line[d])
  }

  /** The reference: clear, paint every row, draw the overlays. */
  function FullPicture(s: Scene): Picture
    requires SceneOk(s)
  {
    seq(|s.rows|, y requires 0 <= y < |s.rows| => Cover(s.look.overlay[y], PaintRow(s, y)))
  }

  /**
   * What a picture of the scene shows, dot by dot: the overlay where it is opaque, and else the
   * row's cells, inverted at the cursor and nowhere else.
   */
  ghost predicate Shows(p: Picture, s: Scene)
    requires SceneOk(s)
  {
    && |p| == |s.rows|
    && forall y :: 0 <= y < |p| ==>
         && |p[y]| == s.look.width
         && forall k :: 0 <= k < |p[y]| ==>
              p[y][k] ==
              match s.look.overlay[y][k]
              case Some(ink) => Ink(ink)
              case None =>
                var swap := if s.cursor.visible && s.cursor.y == y then Some(s.cursor.x) else None;
                Text(s.rows[y], swap, s.look.flash, k)
  }

  /** The reference is the one picture that shows the scene. */
  lemma FullPictureShows(s: Scene, p: Picture)
    requires SceneOk(s)
    ensures p == FullPicture(s) <==> Shows(p, s)
  {
    var q := FullPicture(s);
    if Shows(p, s) {
      forall y | 0 <= y < |p| ensures p[y] == q[y] {
      }
    }
  }

  /** Some cell of the grid draws a glyph. */
  predicate HasText(rows: seq<Row>) {
    exists y, x :: 0 <= y < |rows| && 0 <= x < |rows[y]| && rows[y][x].hasText
  }

  // ---- What was painted last ----

  /** What a row of the grid was last painted from, and all the ink drawn over it since. */
  datatype Line = Line(row: Row, swap: Option<nat>, flash: bool, ink: Mask)

  function LineNow(s: Scene, y: nat): Line
    requires SceneOk(s) && y < |s.rows|
  {
    Line(s.rows[y], SwapIn(s.cursor, y), s.look.flash, s.look.overlay[y])
  }

  function LineDots(l: Line): seq<Dot> {
    Cover(l.ink, PaintCells(l.row, l.swap, l.flash, |l.ink|))
  }

  function LedgerPicture(ledger: seq<Line>): Picture {
    seq(|ledger|, y requires 0 <= y < |ledger| => LineDots(ledger[y]))
  }

  predicate LedgerFits(ledger: seq<Line>, s: Scene) {
    |ledger| == |s.rows| && forall y :: 0 <= y < |ledger| ==> |ledger[y].ink| == s.look.width
  }

  /** New ink over old. */
  function Over(mask: Mask, ink: Mask): Mask
    requires |mask| == |ink|
  {
    seq(|mask|, d requires 0 <= d < |mask| => if mask[d].Some? then mask[d] else ink[d])
  }

  // ---- The display as a step system ----

  /**
   * `ledger` is what the last painted buffer shows, row by row; it says nothing while `torn`,
   * when the buffers were replaced and no full frame has been painted since. `lost` says that
   * a failed latch swallowed a mark that no full frame has made up for.
   */
  datatype Display = Display(
    scene: Scene, dirty: seq<bool>, frameDirty: bool, fullDirty: bool,
    table: Table, painted: Option<Buffer>, pictures: map<Buffer, Picture>,
    prev: Option<Cursor>, ledger: seq<Line>, torn: bool, lost: bool)

  datatype Op =
    | TermUpdate(rows: seq<Row>, cursor: Cursor, dirty: seq<bool>, frameDirty: bool)
    | Replace(scene: Scene, rowsDirty: seq<bool>, anyDirty: bool)
    | Resize(scene: Scene, rowsDirty: seq<bool>, anyDirty: bool, pictures: map<Buffer, Picture>)
    | DrawFrame(buffers: seq<Buffer>)
    | LatchFails

  predicate DirtyOk(rows: seq<Row>, dirty: seq<bool>, frameDirty: bool) {
    |dirty| == |rows| && forall y :: 0 <= y < |dirty| && dirty[y] ==> frameDirty
  }

  /**
   * The assumptions: the terminal library flags every row it changes and keeps flags until a
   * visit; anything else that changes (overlays, tab, size, buffers) is marked for a full repaint.
   */
  predicate Enabled(d: Display, op: Op) {
    match op
    case TermUpdate(rows, _, dirty, frameDirty) =>
      && |rows| == |d.scene.rows| && DirtyOk(rows, dirty, frameDirty) && |d.dirty| == |rows|
      && forall y :: 0 <= y < |rows| ==> (d.dirty[y] || rows[y] != d.scene.rows[y] ==> dirty[y])
    case Replace(scene, dirty, frameDirty) =>
      && SceneOk(scene) && DirtyOk(scene.rows, dirty, frameDirty)
      && |scene.rows| == |d.scene.rows| && scene.look.width == d.scene.look.width
    case Resize(scene, dirty, frameDirty, _) => SceneOk(scene) && DirtyOk(scene.rows, dirty, frameDirty)
    case DrawFrame(buffers) => 1 <= |buffers| <= KNOWN_MAX && Distinct(buffers)
    case LatchFails => true
  }

  function IsFull(d: Display, buffers: seq<Buffer>): bool
    requires buffers != []
  {
    d.fullDirty || Latch(d.table, buffers).stale
  }

  /** What tells a partial frame which rows to repaint. */
  datatype Marks = Marks(dirty: seq<bool>, frameDirty: bool, prev: Option<Cursor>)

  function MarksOf(d: Display): Marks {
    Marks(d.dirty, d.frameDirty, d.prev)
  }

  /** The row the cursor left or the row it went to, when it moved, appeared or vanished. */
  predicate CursorRow(prev: Option<Cursor>, c: Cursor, y: nat) {
    prev.Some? && prev.value != c
    && ((prev.value.visible && prev.value.y == y)
        || (c.visible && c.y == y && (!prev.value.visible || prev.value.y != c.y)))
  }

  predicate Repaints(m: Marks, c: Cursor, y: nat)
    requires y < |m.dirty|
  {
    (m.frameDirty && m.dirty[y]) || CursorRow(m.prev, c, y)
  }

  /** A row as the buffer still holds it. */
  function Kept(base: Picture, y: nat, width: nat): (line: seq<Dot>)
    ensures |line| == width
  {
    if y < |base| && |base[y]| == width then base[y] else seq(width, _ => Blank)
  }

  function Contents(d: Display, b: Buffer): Picture {
    if b in d.pictures then d.pictures[b] else []
  }

  function FramePicture(s: Scene, m: Marks, full: bool, base: Picture): Picture
    requires SceneOk(s) && |m.dirty| == |s.rows|
  {
    seq(|s.rows|, y requires 0 <= y < |s.rows| =>
      Cover(s.look.overlay[y],
            if full || Repaints(m, s.cursor, y) then PaintRow(s, y) else Kept(base, y, s.look.width)))
  }

  /** A repainted row shows the scene; over any other the overlay is drawn once more. */
  function FrameLedger(s: Scene, m: Marks, full: bool, ledger: seq<Line>): seq<Line>
    requires SceneOk(s) && |m.dirty| == |s.rows| && (!full ==> LedgerFits(ledger, s))
  {
    seq(|s.rows|, y requires 0 <= y < |s.rows| =>
      if full || Repaints(m, s.cursor, y) then LineNow(s, y)
      else ledger[y].(ink := Over(s.look.overlay[y], ledger[y].ink)))
  }

  function AllClean(n: nat): seq<bool> {
    seq(n, _ => false)
  }

  function Step(d: Display, op: Op): Display
    requires Enabled(d, op) && SceneOk(d.scene) && |d.dirty| == |d.scene.rows|
  {
    match op
    case TermUpdate(rows, cursor, dirty, frameDirty) =>
      d.(scene := d.scene.(rows := rows, cursor := cursor), dirty := dirty, frameDirty := frameDirty)
    case Replace(scene, dirty, frameDirty) =>
      d.(scene := scene, dirty := dirty, frameDirty := frameDirty, fullDirty := true)
    case Resize(scene, dirty, frameDirty, pictures) =>
      d.(scene := scene, dirty := dirty, frameDirty := frameDirty, fullDirty := true, pictures := pictures,
         torn := true)
    case DrawFrame(buffers) =>
      var full, b := IsFull(d, buffers), buffers[0];
      d.(dirty := if full || d.frameDirty then AllClean(|d.dirty|) else d.dirty,
         frameDirty := false, fullDirty := false,
         table := EndFrame(Latch(d.table, buffers), full), painted := Some(b),
         pictures := d.pictures[b := FramePicture(d.scene, MarksOf(d), full, Contents(d, b))],
         prev := Some(d.scene.cursor),
         ledger := if full || LedgerFits(d.ledger, d.scene)
                   then FrameLedger(d.scene, MarksOf(d), full, d.ledger) else d.ledger,
         torn := d.torn && !full, lost := d.lost && !full)
    case LatchFails =>
      // Every row is visited and its flag cleared. The first glyph fails and ends the frame
      // early; without one, the cursor and the library's frame flag are settled as well.
      var v := d.(dirty := AllClean(|d.dirty|), fullDirty := false, table := d.table.(stale := true),
                  lost := d.lost || d.fullDirty || true in d.dirty);
      if HasText(d.scene.rows) then v
      else v.(frameDirty := false, prev := Some(d.scene.cursor),
              lost := v.lost || d.prev != Some(d.scene.cursor))
  }

  function Start(scene: Scene): Display
  {
    Display(scene, AllClean(|scene.rows|), false, true, Table([], 0, false), None, map[], None, [], true, false)
  }

  /** The display after a sequence of operations, if each was possible when it came. */
  function After(scene: Scene, ops: seq<Op>): Option<Display> {
    if ops == [] then (if SceneOk(scene) then Some(Start(scene)) else None)
    else
      var before, last := After(scene, ops[..|ops| - 1]), ops[|ops| - 1];
      if before.Some? && Enabled(before.value, last) && SceneOk(before.value.scene)
         && |before.value.dirty| == |before.value.scene.rows|
      then Some(Step(before.value, last)) else None
  }

  // ---- What every step keeps ----

  /** The fresh buffer shows the ledger. */
  ghost predicate Held(d: Display) {
    && LedgerFits(d.ledger, d.scene)
    && forall i :: 0 <= i < |d.table.known| && d.table.known[i].isFresh ==>
         Contents(d, d.table.known[i].buf) == LedgerPicture(d.ledger)
  }

  /** The marks cover all that has changed since the ledger. */
  ghost predicate UpToDate(d: Display) {
    && !d.torn && LedgerFits(d.ledger, d.scene) && SceneOk(d.scene) && |d.dirty| == |d.scene.rows| && d.prev.Some?
    && forall y :: 0 <= y < |d.ledger| ==>
         && d.ledger[y].flash == d.scene.look.flash && d.ledger[y].ink == d.scene.look.overlay[y]
         && d.ledger[y].swap == SwapIn(d.prev.value, y)
         && (!d.dirty[y] ==> d.ledger[y].row == d.scene.rows[y])
  }

  ghost predicate Inv(d: Display) {
    && SceneOk(d.scene) && DirtyOk(d.scene.rows, d.dirty, d.frameDirty)
    && TableOk(d.table, d.painted)
    && (d.torn || Held(d))
    && (d.fullDirty || d.lost || UpToDate(d))
  }

  // ---- Exactly when a frame shows the full picture ----

  /** Whether dot `k` of a row that is not repainted already shows what it should. */
  predicate DotHolds(d: Display, b: Buffer, y: nat, k: nat)
    requires y < |d.scene.rows| && k < d.scene.look.width && (!d.torn ==> LedgerFits(d.ledger, d.scene))
  {
    if d.torn then Kept(Contents(d, b), y, d.scene.look.width)[k] == PaintRow(d.scene, y)[k]
    else
      var l := d.ledger[y];
      && l.ink[k].None? && l.row == d.scene.rows[y]
      && l.swap == SwapIn(d.scene.cursor, y) && l.flash == d.scene.look.flash
  }

  /**
   * A row is repainted, or each of its dots is under the overlay or was last painted from the
   * cells, the cursor and the flash that it should show now, with no ink on it since.
   */
  predicate RowHolds(d: Display, b: Buffer, y: nat)
    requires SceneOk(d.scene) && y < |d.scene.rows| == |d.dirty| && (!d.torn ==> LedgerFits(d.ledger, d.scene))
  {
    || Repaints(MarksOf(d), d.scene.cursor, y)
    || forall k :: 0 <= k < d.scene.look.width && d.scene.look.overlay[y][k].None? ==> DotHolds(d, b, y, k)
  }

  lemma CoverSame(mask: Mask, a: seq<Dot>, b: seq<Dot>)
    requires |mask| == |a| == |b|
    ensures Cover(mask, a) == Cover(mask, b) <==> forall k :: 0 <= k < |mask| && mask[k].None? ==> a[k] == b[k]
  {
    if Cover(mask, a) == Cover(mask, b) {
      forall k | 0 <= k < |mask| && mask[k].None? ensures a[k] == b[k] {
        assert a[k] == Cover(mask, a)[k] == Cover(mask, b)[k] == b[k];
      }
    }
  }

  lemma CoverTwice(mask: Mask, ink: Mask, line: seq<Dot>)
    requires |mask| == |ink| == |line|
    ensures Cover(mask, Cover(ink, line)) == Cover(Over(mask, ink), line)
  {
  }

  lemma KeptLine(d: Display, b: Buffer, y: nat)
    requires !d.torn && LedgerFits(d.ledger, d.scene) && y < |d.scene.rows|
    requires Contents(d, b) == LedgerPicture(d.ledger)
    ensures Kept(Contents(d, b), y, d.scene.look.width) == LineDots(d.ledger[y])
  {
  }

  lemma RowExact(d: Display, b: Buffer, y: nat)
    requires SceneOk(d.scene) && y < |d.scene.rows| == |d.dirty|
    requires !d.torn ==> LedgerFits(d.ledger, d.scene) && Contents(d, b) == LedgerPicture(d.ledger)
    ensures FramePicture(d.scene, MarksOf(d), false, Contents(d, b))[y] == FullPicture(d.scene)[y]
            <==> RowHolds(d, b, y)
  {
    if !Repaints(MarksOf(d), d.scene.cursor, y) {
      var kept, right := Kept(Contents(d, b), y, d.scene.look.width), PaintRow(d.scene, y);
      CoverSame(d.scene.look.overlay[y], kept, right);
      if !d.torn {
        KeptLine(d, b, y);
        forall k | 0 <= k < d.scene.look.width ensures kept[k] == right[k] <==> DotHolds(d, b, y, k) {
        }
      }
    }
  }

  /** A partial frame goes onto the fresh buffer, which shows the ledger. */
  lemma PartialBase(d: Display, buffers: seq<Buffer>)
    requires Inv(d) && Enabled(d, DrawFrame(buffers)) && !IsFull(d, buffers)
    ensures !d.torn ==> Contents(d, buffers[0]) == LedgerPicture(d.ledger)
  {
    LatchKeeps(d.table, d.painted, buffers);
    var t := Latch(d.table, buffers);
    assert t.known[t.current].isFresh && t.known == d.table.known;
  }

  /** In every state, a frame shows the full picture if and only if it is full or every row holds. */
  lemma FrameExact(d: Display, buffers: seq<Buffer>)
    requires Inv(d) && Enabled(d, DrawFrame(buffers))
    ensures Step(d, DrawFrame(buffers)).pictures[buffers[0]] == FullPicture(d.scene)
            <==> IsFull(d, buffers) || forall y :: 0 <= y < |d.scene.rows| ==> RowHolds(d, buffers[0], y)
  {
    var b, full := buffers[0], IsFull(d, buffers);
    var p, q := FramePicture(d.scene, MarksOf(d), full, Contents(d, b)), FullPicture(d.scene);
    if full {
      assert p == q;
    } else {
      PartialBase(d, buffers);
      forall y | 0 <= y < |d.scene.rows| ensures p[y] == q[y] <==> RowHolds(d, b, y) {
        RowExact(d, b, y);
      }
      assert p == q <==> forall y :: 0 <= y < |d.scene.rows| ==> p[y] == q[y];
    }
  }

  /**
   * The fast path: with no full mark, on a fresh buffer, and with the cursor where it was, a row
   * that is not flagged is not painted; only the overlay is drawn over what the buffer held.
   */
  lemma CleanRowUntouched(d: Display, buffers: seq<Buffer>, i: nat, y: nat, k: nat)
    requires Inv(d) && Enabled(d, DrawFrame(buffers)) && !d.fullDirty && AllHandedOut(d.table.known, buffers)
    requires i < |d.table.known| && d.table.known[i] == Known(buffers[0], true)
    requires d.prev == Some(d.scene.cursor) && y < |d.scene.rows| && !d.dirty[y] && k < d.scene.look.width
    requires buffers[0] in d.pictures && y < |d.pictures[buffers[0]]|
    requires |d.pictures[buffers[0]][y]| == d.scene.look.width
    ensures var p := Step(d, DrawFrame(buffers)).pictures[buffers[0]];
      && y < |p| && k < |p[y]|
      && p[y][k] == if d.scene.look.overlay[y][k].Some? then Ink(d.scene.look.overlay[y][k].value)
                    else d.pictures[buffers[0]][y][k]
  {
    assert EntryOf(d.table.known, buffers[0]) == i;
    assert !IsFull(d, buffers);
  }

  /** A row that a partial frame skips is already right: its cells and its cursor are unchanged. */
  lemma SkippedRow(d: Display, b: Buffer, y: nat)
    requires UpToDate(d) && DirtyOk(d.scene.rows, d.dirty, d.frameDirty) && y < |d.scene.rows|
    ensures RowHolds(d, b, y)
  {
    if !Repaints(MarksOf(d), d.scene.cursor, y) {
      assert SwapIn(d.prev.value, y) == SwapIn(d.scene.cursor, y);
      assert d.ledger[y].row == d.scene.rows[y];
    }
  }

  /** As long as no failed latch has swallowed a mark, every frame shows the full picture. */
  lemma FrameIsFull(d: Display, buffers: seq<Buffer>)
    requires Inv(d) && Enabled(d, DrawFrame(buffers))
    requires !d.lost || IsFull(d, buffers)
    ensures Step(d, DrawFrame(buffers)).pictures[buffers[0]] == FullPicture(d.scene)
  {
    if !IsFull(d, buffers) {
      forall y | 0 <= y < |d.scene.rows| ensures RowHolds(d, buffers[0], y) {
        SkippedRow(d, buffers[0], y);
      }
    }
    FrameExact(d, buffers);
  }

  // ---- Every run ----

  lemma FullHeld(s: Scene, m: Marks, base: Picture, ledger: seq<Line>)
    requires SceneOk(s) && |m.dirty| == |s.rows|
    ensures var next := FrameLedger(s, m, true, ledger);
      LedgerFits(next, s) && FramePicture(s, m, true, base) == LedgerPicture(next)
  {
  }

  lemma PartialHeld(s: Scene, m: Marks, base: Picture, ledger: seq<Line>)
    requires SceneOk(s) && |m.dirty| == |s.rows| && LedgerFits(ledger, s) && base == LedgerPicture(ledger)
    ensures var next := FrameLedger(s, m, false, ledger);
      LedgerFits(next, s) && FramePicture(s, m, false, base) == LedgerPicture(next)
  {
    var next := FrameLedger(s, m, false, ledger);
    forall y | 0 <= y < |s.rows| ensures FramePicture(s, m, false, base)[y] == LineDots(next[y]) {
      if !Repaints(m, s.cursor, y) {
        var l := ledger[y];
        CoverTwice(s.look.overlay[y], l.ink, PaintCells(l.row, l.swap, l.flash, |l.ink|));
      }
    }
  }

  lemma FrameHeld(d: Display, buffers: seq<Buffer>)
    requires Inv(d) && Enabled(d, DrawFrame(buffers))
    ensures var d' := Step(d, DrawFrame(buffers)); d'.torn || Held(d')
  {
    var full, d' := IsFull(d, buffers), Step(d, DrawFrame(buffers));
    LatchKeeps(d.table, d.painted, buffers);
    EndFrameKeeps(Latch(d.table, buffers), d.painted, full);
    if !d'.torn {
      if full {
        FullHeld(d.scene, MarksOf(d), Contents(d, buffers[0]), d.ledger);
      } else {
        PartialBase(d, buffers);
        PartialHeld(d.scene, MarksOf(d), Contents(d, buffers[0]), d.ledger);
      }
      forall i | 0 <= i < |d'.table.known| && d'.table.known[i].isFresh
        ensures Contents(d', d'.table.known[i].buf) == LedgerPicture(d'.ledger)
      {
        assert d'.painted == Some(d'.table.known[i].buf);
      }
    }
  }

  lemma FrameUpToDate(d: Display, buffers: seq<Buffer>)
    requires Inv(d) && Enabled(d, DrawFrame(buffers))
    ensures var d' := Step(d, DrawFrame(buffers)); d'.lost || UpToDate(d')
  {
    var full, d' := IsFull(d, buffers), Step(d, DrawFrame(buffers));
    if !d'.lost && !full {
      assert UpToDate(d);
      forall y | 0 <= y < |d.scene.rows| ensures d'.ledger[y] == LineNow(d.scene, y) {
        SkippedRow(d, buffers[0], y);
        if !Repaints(MarksOf(d), d.scene.cursor, y) {
          assert SwapIn(d.prev.value, y) == SwapIn(d.scene.cursor, y);
          assert Over(d.scene.look.overlay[y], d.ledger[y].ink) == d.scene.look.overlay[y];
        }
      }
    }
  }

  lemma FrameKeeps(d: Display, buffers: seq<Buffer>)
    requires Inv(d) && Enabled(d, DrawFrame(buffers))
    ensures Inv(Step(d, DrawFrame(buffers)))
  {
    LatchKeeps(d.table, d.painted, buffers);
    EndFrameKeeps(Latch(d.table, buffers), d.painted, IsFull(d, buffers));
    FrameHeld(d, buffers);
    FrameUpToDate(d, buffers);
  }

  /** A frame uses up every mark and leaves the other buffers alone. */
  lemma FrameSettles(d: Display, buffers: seq<Buffer>)
    requires Inv(d) && Enabled(d, DrawFrame(buffers))
    ensures var d' := Step(d, DrawFrame(buffers));
      && !d'.fullDirty && !d'.frameDirty && d'.prev == Some(d.scene.cursor) && d'.scene == d.scene
      && (forall y :: 0 <= y < |d'.dirty| ==> !d'.dirty[y])
      && forall b :: b in d.pictures && b != buffers[0] ==> b in d'.pictures && d'.pictures[b] == d.pictures[b]
  {
  }

  /** A second frame on the same buffers, with nothing changed in between, repaints no row. */
  lemma SecondFrameIdle(d: Display, buffers: seq<Buffer>, y: nat)
    requires Inv(d) && Enabled(d, DrawFrame(buffers)) && y < |d.scene.rows|
    ensures var d' := Step(d, DrawFrame(buffers));
      && Enabled(d', DrawFrame(buffers)) && !IsFull(d', buffers)
      && |d'.dirty| == |d.scene.rows| && !Repaints(MarksOf(d'), d'.scene.cursor, y)
  {
    FrameSettles(d, buffers);
    LatchedAgain(d.table, d.painted, buffers, IsFull(d, buffers));
  }

  /** What was held is still held when neither the buffers nor the table's entries change. */
  lemma HeldKept(d: Display, d': Display)
    requires Held(d) && d'.ledger == d.ledger && d'.pictures == d.pictures && d'.table.known == d.table.known
    requires |d'.scene.rows| == |d.scene.rows| && d'.scene.look.width == d.scene.look.width
    ensures Held(d')
  {
    assert forall i :: 0 <= i < |d.table.known| ==>
        Contents(d', d.table.known[i].buf) == Contents(d, d.table.known[i].buf);
  }

  lemma ChangeKeeps(d: Display, op: Op)
    requires Inv(d) && Enabled(d, op) && (op.TermUpdate? || op.Replace? || op.Resize?)
    ensures Inv(Step(d, op))
  {
    if !d.torn && !op.Resize? {
      HeldKept(d, Step(d, op));
    }
  }

  lemma FailureKeeps(d: Display)
    requires Inv(d)
    ensures Inv(Step(d, LatchFails))
  {
    var d' := Step(d, LatchFails);
    if !d.torn {
      HeldKept(d, d');
    }
    if !d'.lost {
      assert UpToDate(d) && forall y :: 0 <= y < |d.dirty| ==> !d.dirty[y];
    }
  }

  lemma StepKeeps(d: Display, op: Op)
    requires Inv(d) && Enabled(d, op)
    ensures Inv(Step(d, op))
  {
    match op {
      case DrawFrame(buffers) => FrameKeeps(d, buffers);
      case LatchFails => FailureKeeps(d);
      case _ => ChangeKeeps(d, op);
    }
  }

  lemma {:induction false} RunKeeps(scene: Scene, ops: seq<Op>)
    ensures After(scene, ops).Some? ==> Inv(After(scene, ops).value)
    decreases |ops|
  {
    if ops != [] {
      var before, last := After(scene, ops[..|ops| - 1]), ops[|ops| - 1];
      RunKeeps(scene, ops[..|ops| - 1]);
      if After(scene, ops).Some? {
        StepKeeps(before.value, last);
      }
    }
  }

  /**
   * Over every run, failed latches included, and in every order the buffers are handed out:
   * a frame shows the full picture if and only if it is full or every row holds.
   */
  lemma EveryFrameExact(scene: Scene, ops: seq<Op>, buffers: seq<Buffer>)
    requires After(scene, ops).Some? && Enabled(After(scene, ops).value, DrawFrame(buffers))
    ensures var d := After(scene, ops).value;
      && SceneOk(d.scene) && |d.dirty| == |d.scene.rows| && (!d.torn ==> LedgerFits(d.ledger, d.scene))
      && (Step(d, DrawFrame(buffers)).pictures[buffers[0]] == FullPicture(d.scene)
          <==> IsFull(d, buffers) || forall y :: 0 <= y < |d.scene.rows| ==> RowHolds(d, buffers[0], y))
  {
    RunKeeps(scene, ops);
    FrameExact(After(scene, ops).value, buffers);
  }

  /** Over every run in which no failed latch has swallowed a mark, the partial frame is the full one. */
  lemma EveryFrameAgrees(scene: Scene, ops: seq<Op>, buffers: seq<Buffer>)
    requires After(scene, ops).Some? && Enabled(After(scene, ops).value, DrawFrame(buffers))
    requires var d := After(scene, ops).value; !d.lost || IsFull(d, buffers)
    ensures var d := After(scene, ops).value;
      && SceneOk(d.scene) && |d.dirty| == |d.scene.rows|
      && Step(d, DrawFrame(buffers)).pictures[buffers[0]] == FullPicture(d.scene)
  {
    RunKeeps(scene, ops);
    FrameIsFull(After(scene, ops).value, buffers);
  }

  /**
   * Over every run in which no failed latch has swallowed a mark, the buffer a frame was painted
   * on holds, at every dot, the overlay's ink or else the row's text, with the cell under a
   * visible cursor inverted.
   */
  lemma EveryFrameShows(scene: Scene, ops: seq<Op>, buffers: seq<Buffer>)
    requires After(scene, ops).Some? && Enabled(After(scene, ops).value, DrawFrame(buffers))
    requires var d := After(scene, ops).value; !d.lost || IsFull(d, buffers)
    ensures var d := After(scene, ops).value;
      && SceneOk(d.scene) && |d.dirty| == |d.scene.rows|
      && var p, s := Step(d, DrawFrame(buffers)).pictures[buffers[0]], d.scene;
         && |p| == |s.rows|
         && forall y, k :: 0 <= y < |s.rows| && 0 <= k < s.look.width ==>
              && |p[y]| == s.look.width
              && p[y][k] ==
                 if s.look.overlay[y][k].Some? then Ink(s.look.overlay[y][k].value)
                 else Text(s.rows[y], if s.cursor.visible && s.cursor.y == y then Some(s.cursor.x) else None,
                           s.look.flash, k)
  {
    EveryFrameAgrees(scene, ops, buffers);
    var d := After(scene, ops).value;
    FullPictureShows(d.scene, Step(d, DrawFrame(buffers)).pictures[buffers[0]]);
  }

  /** Nothing is lost while latches succeed. */
  lemma {:induction false} NothingLost(scene: Scene, ops: seq<Op>)
    requires LatchFails !in ops
    ensures After(scene, ops).Some? ==> !After(scene, ops).value.lost
    decreases |ops|
  {
    if ops != [] {
      NothingLost(scene, ops[..|ops| - 1]);
    }
  }

  // ---- One failed latch ----

  /** The overlay hides the whole row. */
  predicate Hidden(look: Look, y: nat)
    requires y < |look.overlay|
  {
    forall k :: 0 <= k < |look.overlay[y]| ==> look.overlay[y][k].Some?
  }

  /** Nothing of the row shows, or it still has the cells it was last painted from. */
  predicate RowUnhurt(d: Display, y: nat)
    requires SceneOk(d.scene) && LedgerFits(d.ledger, d.scene) && y < |d.scene.rows|
  {
    Hidden(d.scene.look, y) || d.ledger[y].row == d.scene.rows[y]
  }

  lemma FailedLatchRow(d: Display, v: Display, b: Buffer, y: nat)
    requires UpToDate(d) && y < |d.scene.rows| && v == Step(d, LatchFails)
    ensures RowHolds(v, b, y) <==>
            if HasText(d.scene.rows) then CursorRow(d.prev, d.scene.cursor, y) || RowUnhurt(d, y)
            else RowUnhurt(d, y)
                 && (SwapIn(d.prev.value, y) == SwapIn(d.scene.cursor, y) || Hidden(d.scene.look, y))
  {
    assert !v.dirty[y];
    if HasText(d.scene.rows) {
      assert Repaints(MarksOf(v), v.scene.cursor, y) <==> CursorRow(d.prev, d.scene.cursor, y);
    } else {
      assert !Repaints(MarksOf(v), v.scene.cursor, y);
    }
    forall k | 0 <= k < d.scene.look.width && d.scene.look.overlay[y][k].None?
      ensures DotHolds(v, b, y, k) <==>
              d.ledger[y].row == d.scene.rows[y] && SwapIn(d.prev.value, y) == SwapIn(d.scene.cursor, y)
    {
    }
  }

  /**
   * A latch fails on an up-to-date display, and the next frame is partial. It shows the full
   * picture if and only if every row the cursor does not cause to be repainted is unhurt.
   * With no glyph on the screen the failed frame settles the cursor too, and then a row whose
   * cursor changed is wrong unless it is hidden.
   */
  lemma FailedLatchExact(d: Display, buffers: seq<Buffer>)
    requires Inv(d) && !d.fullDirty && !d.lost
    requires Enabled(d, DrawFrame(buffers)) && !IsFull(d, buffers)
    ensures LedgerFits(d.ledger, d.scene) && d.prev.Some?
    ensures Step(Step(d, LatchFails), DrawFrame(buffers)).pictures[buffers[0]] == FullPicture(d.scene)
            <==> forall y :: 0 <= y < |d.scene.rows| ==>
                   if HasText(d.scene.rows) then CursorRow(d.prev, d.scene.cursor, y) || RowUnhurt(d, y)
                   else RowUnhurt(d, y)
                        && (SwapIn(d.prev.value, y) == SwapIn(d.scene.cursor, y) || Hidden(d.scene.look, y))
  {
    var v := Step(d, LatchFails);
    StepKeeps(d, LatchFails);
    FrameExact(v, buffers);
    forall y | 0 <= y < |d.scene.rows|
      ensures RowHolds(v, buffers[0], y) <==>
              if HasText(d.scene.rows) then CursorRow(d.prev, d.scene.cursor, y) || RowUnhurt(d, y)
              else RowUnhurt(d, y)
                   && (SwapIn(d.prev.value, y) == SwapIn(d.scene.cursor, y) || Hidden(d.scene.look, y))
    {
      FailedLatchRow(d, v, buffers[0], y);
    }
  }

  lemma OneMore(scene: Scene, ops: seq<Op>, op: Op)
    requires After(scene, ops).Some?
    requires var d := After(scene, ops).value; Enabled(d, op) && SceneOk(d.scene) && |d.dirty| == |d.scene.rows|
    ensures After(scene, ops + [op]) == Some(Step(After(scene, ops).value, op))
  {
    assert (ops + [op])[..|ops|] == ops;
  }

  /** The first frame is full, and its buffer is fresh afterwards. */
  lemma FirstFrame(scene: Scene, b: Buffer)
    requires SceneOk(scene)
    ensures var d := Step(Start(scene), DrawFrame([b]));
      && d.scene == scene && d.table.known == [Known(b, true)] && d.prev == Some(scene.cursor)
      && !d.fullDirty && !d.lost && d.dirty == AllClean(|scene.rows|)
      && LedgerFits(d.ledger, scene) && forall y :: 0 <= y < |scene.rows| ==> d.ledger[y] == LineNow(scene, y)
  {
    assert EntryOf([], b) == 0;
  }

  lemma ChangeLost(d: Display, row: Row, row': Row)
    requires row != row' && Inv(d) && !d.fullDirty && !d.lost && d.table.known == [Known(1, true)]
    requires d.scene == Scene([row'], Cursor(false, 0, 0), Look(false, 1, [[None]]))
    requires d.prev == Some(d.scene.cursor) && |d.ledger| == 1 && d.ledger[0].row == row
    ensures Step(Step(d, LatchFails), DrawFrame([1])).pictures[1] != FullPicture(d.scene)
  {
    assert EntryOf(d.table.known, 1) == 0;
    assert d.scene.look.overlay[0][0] == None;
    assert !Hidden(d.scene.look, 0);
    FailedLatchExact(d, [1]);
    assert !RowUnhurt(d, 0) && !CursorRow(d.prev, d.scene.cursor, 0);
  }

  /** Such a run: a row changes, the latch fails, and the next frame never paints the change. */
  lemma LatchFailureLosesDamage(row: Row, row': Row)
    requires row != row'
    ensures var c := Cursor(false, 0, 0);
      var scene := Scene([row], c, Look(false, 1, [[None]]));
      var ops := [] + [DrawFrame([1])] + [TermUpdate([row'], c, [true], true)] + [LatchFails];
      var d := After(scene, ops);
      && d.Some? && Enabled(d.value, DrawFrame([1])) && SceneOk(d.value.scene)
      && |d.value.dirty| == |d.value.scene.rows|
      && Step(d.value, DrawFrame([1])).pictures[1] != FullPicture(d.value.scene)
  {
    var c := Cursor(false, 0, 0);
    var scene := Scene([row], c, Look(false, 1, [[None]]));
    var first, change: Op := DrawFrame([1]), TermUpdate([row'], c, [true], true);
    FirstFrame(scene, 1);
    OneMore(scene, [], first);
    OneMore(scene, [] + [first], change);
    var d := After(scene, [] + [first] + [change]).value;
    OneMore(scene, [] + [first] + [change], LatchFails);
    RunKeeps(scene, [] + [first] + [change]);
    ChangeLost(d, row, row');
  }

  // ---- The frame as the renderer draws it ----

  method DrawsGlyph(row: Row) returns (glyph: bool)
    ensures glyph <==> exists x :: 0 <= x < |row| && row[x].hasText
  {
    glyph := false;
    for x := 0 to |row|
      invariant glyph <==> exists k :: 0 <= k < x && row[k].hasText
    {
      glyph := glyph || row[x].hasText;
    }
  }

  class Renderer {
    const table: BufferTable
    var scene: Scene
    var dirty: seq<bool>
    var frameDirty: bool
    var fullDirty: bool
    var pictures: map<Buffer, Picture>
    var prev: Option<Cursor>
    ghost var ledger: seq<Line>
    ghost var torn: bool
    ghost var lost: bool

    ghost function Value(): Display
      reads this, table, table.known
      requires table.Valid()
    {
      Display(scene, dirty, frameDirty, fullDirty, table.Value(), table.painted, pictures, prev, ledger, torn, lost)
    }

    ghost predicate Valid()
      reads this, table, table.known
    {
      table.Valid() && Inv(Value())
    }

    constructor (scene: Scene)
      requires SceneOk(scene)
      ensures Valid() && Value() == Start(scene) && fresh(table) && fresh(table.known)
    {
      this.scene, dirty, frameDirty, fullDirty := scene, AllClean(|scene.rows|), false, true;
      pictures, prev, ledger, torn, lost := map[], None, [], true, false;
      table := new BufferTable();
    }

    /** Paints the rows of the grid, or only the flagged ones, and clears their flags. */
    method VisitCells(dirtyOnly: bool, fb: Picture) returns (out: Picture)
      requires |fb| == |dirty| == |scene.rows|
      modifies this`dirty
      ensures |out| == |fb| == |dirty|
      ensures forall y :: 0 <= y < |out| ==>
        out[y] == (if !dirtyOnly || old(dirty)[y] then PaintRow(scene, y) else fb[y]) && !dirty[y]
    {
      out := fb;
      for y := 0 to |scene.rows|
        invariant |out| == |fb| && |dirty| == |fb|
        invariant forall k :: 0 <= k < y ==>
          out[k] == (if !dirtyOnly || old(dirty)[k] then PaintRow(scene, k) else fb[k]) && !dirty[k]
        invariant forall k :: y <= k < |fb| ==> out[k] == fb[k] && dirty[k] == old(dirty)[k]
      {
        if !dirtyOnly || dirty[y] {
          out := out[y := PaintRow(scene, y)];
          dirty := dirty[y := false];
        }
      }
    }

    /** Repaints the row the cursor left and the row it went to. */
    method VisitCursorRows(fb: Picture) returns (out: Picture)
      requires |fb| == |scene.rows|
      ensures |out| == |fb|
      ensures forall y :: 0 <= y < |out| ==>
        out[y] == if CursorRow(prev, scene.cursor, y) then PaintRow(scene, y) else fb[y]
    {
      out := fb;
      if prev.Some? && prev.value != scene.cursor {
        var was, now := prev.value, scene.cursor;
        if was.visible && was.y < |scene.rows| {
          out := out[was.y := PaintRow(scene, was.y)];
        }
        if now.visible && now.y < |scene.rows| && (!was.visible || was.y != now.y) {
          out := out[now.y := PaintRow(scene, now.y)];
        }
      }
    }

    method DrawOverlays(fb: Picture) returns (out: Picture)
      requires SceneOk(scene) && |fb| == |scene.rows|
      requires forall y :: 0 <= y < |fb| ==> |fb[y]| == scene.look.width
      ensures |out| == |fb|
      ensures forall y :: 0 <= y < |out| ==> out[y] == Cover(scene.look.overlay[y], fb[y])
    {
      out := fb;
      for y := 0 to |fb|
        invariant |out| == |fb|
        invariant forall k :: 0 <= k < y ==> out[k] == Cover(scene.look.overlay[k], fb[k])
        invariant forall k :: y <= k < |fb| ==> out[k] == fb[k]
      {
        out := out[y := Cover(scene.look.overlay[y], out[y])];
      }
    }

    /** Paints the grid and the overlays onto a buffer that holds `base`. */
    method PaintFrame(forceFull: bool, base: Picture) returns (fb: Picture)
      requires SceneOk(scene) && DirtyOk(scene.rows, dirty, frameDirty)
      requires table.Valid()
      modifies this`dirty, this`prev
      ensures fb == FramePicture(scene, old(MarksOf(Value())), forceFull, base)
      ensures dirty == if forceFull || frameDirty then AllClean(|scene.rows|) else old(dirty)
      ensures prev == Some(scene.cursor)
    {
      ghost var m := MarksOf(Value());
      var width := scene.look.width;
      fb := seq(|scene.rows|, y requires 0 <= y => if forceFull then seq(width, _ => Blank) else Kept(base, y, width));
      if forceFull || frameDirty {
        fb := VisitCells(!forceFull, fb);
      }
      if !forceFull {
        fb := VisitCursorRows(fb);
      }
      prev := Some(scene.cursor);
      assert forall y :: 0 <= y < |fb| ==>
          fb[y] == if forceFull || Repaints(m, scene.cursor, y) then PaintRow(scene, y) else Kept(base, y, width);
      fb := DrawOverlays(fb);
    }

    /** The latched table and the step it belongs to, before anything is painted. */
    ghost predicate Latched(d: Display, buffers: seq<Buffer>, forceFull: bool)
      reads this, table, table.known
    {
      && Enabled(d, DrawFrame(buffers)) && SceneOk(d.scene) && DirtyOk(d.scene.rows, d.dirty, d.frameDirty)
      && table.Valid() && table.painted == d.painted
      && table.currentIdx < table.count && table.known[table.currentIdx].buf == buffers[0]
      && table.currentStale == !table.known[table.currentIdx].isFresh
      && forceFull == IsFull(d, buffers) && (table.currentStale ==> forceFull)
      && Value() == d.(table := Latch(d.table, buffers))
    }

    method BeginFrame(buffers: seq<Buffer>) returns (forceFull: bool)
      requires Valid() && Enabled(Value(), DrawFrame(buffers))
      modifies table, table.known
      ensures Latched(old(Value()), buffers, forceFull)
    {
      LatchKeeps(table.Value(), table.painted, buffers);
      forceFull := fullDirty;
      table.LatchBuffer(buffers);
      if table.currentStale {
        forceFull := true;
      }
    }

    /** Hands the painted picture over and settles the marks; `next` is the display after the frame. */
    method FinishFrame(fb: Picture, forceFull: bool, ghost next: Display)
      requires table.Valid() && table.currentIdx < table.count
      requires table.currentStale == !table.known[table.currentIdx].isFresh
      requires table.currentStale ==> forceFull
      requires var b := table.known[table.currentIdx].buf;
        && next == Value().(frameDirty := false, fullDirty := false, table := EndFrame(table.Value(), forceFull),
                            painted := Some(b), pictures := pictures[b := fb], ledger := next.ledger,
                            torn := torn && !forceFull, lost := lost && !forceFull)
      modifies this`pictures, this`frameDirty, this`fullDirty, this`ledger, this`torn, this`lost,
        table`painted, table.known
      ensures table.Valid() && Value() == next
    {
      pictures := pictures[table.known[table.currentIdx].buf := fb];
      frameDirty, fullDirty := false, false;
      table.FinishFrame(forceFull);
      ledger, torn, lost := next.ledger, torn && !forceFull, lost && !forceFull;
    }

    /** `next` is `d` after a frame that is full or partial as `full` says. */
    static ghost predicate Planned(d: Display, buffers: seq<Buffer>, full: bool, next: Display)
      requires buffers != [] && SceneOk(d.scene) && |d.dirty| == |d.scene.rows|
    {
      && next.scene == d.scene && next.prev == Some(d.scene.cursor)
      && next.dirty == (if full || d.frameDirty then AllClean(|d.scene.rows|) else d.dirty)
      && !next.frameDirty && !next.fullDirty
      && next.table == EndFrame(Latch(d.table, buffers), full) && next.painted == Some(buffers[0])
      && next.pictures == d.pictures[buffers[0] := FramePicture(d.scene, MarksOf(d), full, Contents(d, buffers[0]))]
      && next.torn == (d.torn && !full) && next.lost == (d.lost && !full)
    }

    /** Paints the latched buffer and settles the marks. */
    method PaintLatched(buffers: seq<Buffer>, forceFull: bool, ghost d: Display, ghost next: Display)
      requires Latched(d, buffers, forceFull) && Planned(d, buffers, forceFull, next)
      modifies this, table`painted, table.known
      ensures table.Valid() && Value() == next
    {
      var base := if buffers[0] in pictures then pictures[buffers[0]] else [];
      assert base == Contents(d, buffers[0]) && MarksOf(Value()) == MarksOf(d);
      var fb := PaintFrame(forceFull, base);
      FinishFrame(fb, forceFull, next);
    }

    /** One frame onto the first of the handed-out buffers. */
    method RenderFrame(buffers: seq<Buffer>)
      requires Valid() && Enabled(Value(), DrawFrame(buffers))
      modifies this, table, table.known
      ensures Valid() && Value() == Step(old(Value()), DrawFrame(buffers))
      ensures SceneOk(scene) && buffers[0] in pictures
      ensures !old(lost) || old(IsFull(Value(), buffers)) ==>
                pictures[buffers[0]] == FullPicture(scene) && Shows(pictures[buffers[0]], scene)
    {
      ghost var d, next := Value(), Step(Value(), DrawFrame(buffers));
      StepKeeps(d, DrawFrame(buffers));
      if !d.lost || IsFull(d, buffers) {
        FrameIsFull(d, buffers);
        FullPictureShows(d.scene, next.pictures[buffers[0]]);
      }
      var forceFull := BeginFrame(buffers);
      PaintLatched(buffers, forceFull, d, next);
    }

    /** Visits every cell with no buffer to draw on: the first glyph of all fails the frame. */
    method VisitUnlatched() returns (failed: bool)
      requires |dirty| == |scene.rows|
      modifies this`dirty
      ensures dirty == AllClean(|scene.rows|) && failed == HasText(scene.rows)
    {
      failed := false;
      for y := 0 to |scene.rows|
        invariant |dirty| == |scene.rows| && forall k :: 0 <= k < y ==> !dirty[k]
        invariant failed <==> exists j, x :: 0 <= j < y && 0 <= x < |scene.rows[j]| && scene.rows[j][x].hasText
      {
        var glyph := DrawsGlyph(scene.rows[y]);
        failed := failed || glyph;
        dirty := dirty[y := false];
      }
    }

    method UseUpMarks(ghost next: Display)
      requires table.Valid() && SceneOk(scene) && |dirty| == |scene.rows| && next == Step(Value(), LatchFails)
      modifies this, table`currentStale
      ensures table.Valid() && Value() == next
    {
      fullDirty := false;
      table.FailLatch();
      var failed := VisitUnlatched();
      lost := next.lost;
      if !failed {
        prev := Some(scene.cursor);
        frameDirty := false;
      }
    }

    /** The frame when no buffer can be latched: nothing is drawn, but the marks are used up. */
    method RenderUnlatched()
      requires Valid()
      modifies this, table
      ensures Valid() && Value() == Step(old(Value()), LatchFails)
    {
      StepKeeps(Value(), LatchFails);
      UseUpMarks(Step(Value(), LatchFails));
    }
  }
}
