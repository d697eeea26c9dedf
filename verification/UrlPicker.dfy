/** The URL picker: the screen flattened into one text, and the modal key machine on top. */
module UrlPicker {
  import opened Common
  import opened UrlScan

  const MAX_COLS: nat := 256
  const MAX_ROWS: nat := 96
  const CAPACITY: nat := MAX_COLS * MAX_ROWS + MAX_ROWS

  datatype Cell = Cell(hasText: bool, wideTail: bool, codepoint: nat)

  // ---- Flattening ----

  /** A character of the flat text and the screen cell it stands for. */
  datatype Slot = Slot(c: char, row: nat, col: nat)

  predicate HasContent(cells: seq<Cell>, x: nat) {
    x < |cells| && cells[x].hasText && !cells[x].wideTail && 0x21 <= cells[x].codepoint < 0x7F
  }

  function AsciiAt(cells: seq<Cell>, x: nat): char {
    if HasContent(cells, x) then cells[x].codepoint as char else ' '
  }

  /** The first `n` columns of a row. */
  function Columns(cells: seq<Cell>, y: nat, n: nat): (slots: seq<Slot>)
    ensures |slots| == n
  {
    if n == 0 then [] else Columns(cells, y, n - 1) + [Slot(AsciiAt(cells, n - 1), y, n - 1)]
  }

  /** One row, and a separating space unless its last column is filled. */
  function RowSlots(cells: seq<Cell>, y: nat, cols: nat): (slots: seq<Slot>)
    requires 0 < cols
    ensures cols <= |slots| <= cols + 1
  {
    Columns(cells, y, cols) + if HasContent(cells, cols - 1) then [] else [Slot(' ', y, cols)]
  }

  /** A row that cannot be visited contributes nothing. */
  function RowPart(row: Option<seq<Cell>>, y: nat, cols: nat): (slots: seq<Slot>)
    requires 0 < cols
    ensures |slots| <= cols + 1 && (row.Some? ==> |slots| >= cols)
  {
    match row
    case None => []
    case Some(cells) => RowSlots(cells, y, cols)
  }

  lemma {:induction false} ColumnAt(cells: seq<Cell>, y: nat, n: nat, x: nat)
    requires x < n
    ensures Columns(cells, y, n)[x] == Slot(AsciiAt(cells, x), y, x)
  {
    if x < n - 1 {
      ColumnAt(cells, y, n - 1, x);
    }
  }

  lemma PlaceInRow(cells: seq<Cell>, y: nat, cols: nat, x: nat)
    requires 0 < cols && x < |RowSlots(cells, y, cols)|
    ensures RowSlots(cells, y, cols)[x] == Slot(if x < cols then AsciiAt(cells, x) else ' ', y, x)
  {
    if x < cols {
      ColumnAt(cells, y, cols, x);
    }
  }

  lemma PlaceInPart(row: Option<seq<Cell>>, y: nat, cols: nat, x: nat)
    requires 0 < cols && x < |RowPart(row, y, cols)|
    ensures row.Some?
    ensures RowPart(row, y, cols)[x] == Slot(if x < cols then AsciiAt(row.value, x) else ' ', y, x)
  {
    PlaceInRow(row.value, y, cols, x);
  }

  /** The visible rows from `y` on. */
  function Flat(rows: seq<Option<seq<Cell>>>, cols: nat, y: nat): seq<Slot>
    requires 0 < cols && y <= |rows|
    decreases |rows| - y
  {
    if y == |rows| then []
    else RowPart(rows[y], y, cols) + Flat(rows, cols, y + 1)
  }

  function Text(buf: seq<Slot>): string {
    seq(|buf|, k requires 0 <= k < |buf| => buf[k].c)
  }

  function Fitting(slots: seq<Slot>): seq<Slot> {
    if |slots| <= CAPACITY - 1 then slots else slots[..CAPACITY - 1]
  }

  function Area(n: nat, w: nat): nat {
    if n == 0 then 0 else w + Area(n - 1, w)
  }

  lemma {:induction false} AreaIs(n: nat, w: nat)
    ensures Area(n, w) == n * w
  {
    if n > 0 {
      AreaIs(n - 1, w);
      assert n * w == w + (n - 1) * w;
    }
  }

  predicate EndsBlank(slots: seq<Slot>) {
    slots != [] && slots[|slots| - 1].c == ' '
  }

  /** Text within `n` rows of width `w`, that ends in a space if it fills them. */
  predicate Within(slots: seq<Slot>, n: nat, w: nat) {
    |slots| <= Area(n, w) && (n > 0 && |slots| == Area(n, w) ==> EndsBlank(slots))
  }

  lemma PartLast(row: Option<seq<Cell>>, y: nat, cols: nat)
    requires 0 < cols
    ensures |RowPart(row, y, cols)| == cols + 1 ==> EndsBlank(RowPart(row, y, cols))
  {
  }

  lemma OneMoreRow(here: seq<Slot>, rest: seq<Slot>, n: nat, w: nat)
    requires 0 < n && 0 < w && Within(rest, n - 1, w)
    requires |here| <= w && (|here| == w ==> EndsBlank(here))
    ensures Within(here + rest, n, w)
  {
  }

  lemma {:induction false} FlatWithin(rows: seq<Option<seq<Cell>>>, cols: nat, y: nat, n: nat)
    requires 0 < cols && y + n == |rows|
    ensures Within(Flat(rows, cols, y), n, cols + 1)
    decreases n
  {
    if n > 0 {
      FlatWithin(rows, cols, y + 1, n - 1);
      PartLast(rows[y], y, cols);
      OneMoreRow(RowPart(rows[y], y, cols), Flat(rows, cols, y + 1), n, cols + 1);
    }
  }

  lemma GridArea(rows: nat, cols: nat)
    requires cols <= MAX_COLS && rows <= MAX_ROWS
    ensures rows * (cols + 1) <= CAPACITY
  {
    assert rows * (cols + 1) <= MAX_ROWS * (cols + 1);
  }

  lemma CutLast(f: seq<Slot>)
    requires |f| <= CAPACITY && (|f| == CAPACITY ==> EndsBlank(f))
    ensures Fitting(f) == f || (f == Fitting(f) + [f[|f| - 1]] && f[|f| - 1].c == ' ')
  {
    if |f| == CAPACITY {
      assert f == f[..CAPACITY - 1] + [f[|f| - 1]];
    }
  }

  /** The buffer never drops a screen cell: at most the very last separator does not fit. */
  lemma NothingDropped(rows: seq<Option<seq<Cell>>>, cols: nat)
    requires 0 < cols <= MAX_COLS && |rows| <= MAX_ROWS
    ensures var f := Flat(rows, cols, 0); Fitting(f) == f || (f == Fitting(f) + [f[|f| - 1]] && f[|f| - 1].c == ' ')
  {
    var f := Flat(rows, cols, 0);
    FlatWithin(rows, cols, 0, |rows|);
    AreaIs(|rows|, cols + 1);
    GridArea(|rows|, cols);
    CutLast(f);
  }

  lemma FlatAt(rows: seq<Option<seq<Cell>>>, cols: nat, y: nat, k: nat)
    requires 0 < cols && y < |rows| && k < |Flat(rows, cols, y)|
    ensures var here := RowPart(rows[y], y, cols);
      if k < |here| then Flat(rows, cols, y)[k] == here[k] && here[k].row == y
      else k - |here| < |Flat(rows, cols, y + 1)| && Flat(rows, cols, y)[k] == Flat(rows, cols, y + 1)[k - |here|]
  {
    if k < |RowPart(rows[y], y, cols)| {
      PlaceInPart(rows[y], y, cols, k);
    }
  }

  /** A row of the flat text: printable ASCII as it is, anything else a space, and the separator. */
  lemma RowMeans(cells: seq<Cell>, y: nat, cols: nat)
    requires 0 < cols
    ensures var r := RowSlots(cells, y, cols);
      && (forall x :: 0 <= x < cols ==>
            r[x] == Slot(if x < |cells| && cells[x].hasText && !cells[x].wideTail && 0x21 <= cells[x].codepoint < 0x7F
                         then cells[x].codepoint as char else ' ', y, x))
      && r[cols..] == if cols <= |cells| && cells[cols - 1].hasText && !cells[cols - 1].wideTail
                         && 0x21 <= cells[cols - 1].codepoint < 0x7F
                      then [] else [Slot(' ', y, cols)]
  {
    forall x | 0 <= x < cols
      ensures RowSlots(cells, y, cols)[x] == Slot(AsciiAt(cells, x), y, x)
    {
      PlaceInRow(cells, y, cols, x);
    }
  }

  /** Every slot stands for the cell it names, or is a separator. */
  lemma {:induction false} SlotIsCell(rows: seq<Option<seq<Cell>>>, cols: nat, y: nat, k: nat)
    requires 0 < cols && y <= |rows| && k < |Flat(rows, cols, y)|
    ensures var s := Flat(rows, cols, y)[k];
      && y <= s.row < |rows| && rows[s.row].Some? && s.col <= cols
      && s.c == (if s.col < cols then AsciiAt(rows[s.row].value, s.col) else ' ')
    decreases |rows| - y
  {
    var here := RowPart(rows[y], y, cols);
    FlatAt(rows, cols, y, k);
    if k < |here| {
      PlaceInPart(rows[y], y, cols, k);
    } else {
      SlotIsCell(rows, cols, y + 1, k - |here|);
    }
  }

  ghost predicate EndsWith(slots: seq<Slot>, tail: seq<Slot>) {
    |tail| <= |slots| && forall k :: 0 <= k < |tail| ==> slots[|slots| - |tail| + k] == tail[k]
  }

  lemma EndsWithMore(here: seq<Slot>, rest: seq<Slot>, tail: seq<Slot>)
    requires EndsWith(rest, tail)
    ensures EndsWith(here + rest, tail)
  {
  }

  /** The rows above `y` put their text in front of the text from `y` on. */
  lemma {:induction false} FlatEndsWith(rows: seq<Option<seq<Cell>>>, cols: nat, from: nat, y: nat)
    requires 0 < cols && from <= y <= |rows|
    ensures EndsWith(Flat(rows, cols, from), Flat(rows, cols, y))
    decreases y - from
  {
    if from < y {
      FlatEndsWith(rows, cols, from + 1, y);
      EndsWithMore(RowPart(rows[from], from, cols), Flat(rows, cols, from + 1), Flat(rows, cols, y));
    }
  }

  /** Every cell of a visited row is in the flat text. */
  lemma CellIsThere(rows: seq<Option<seq<Cell>>>, cols: nat, y: nat, slot: Slot)
    requires 0 < cols && y < |rows| && rows[y].Some? && slot in RowSlots(rows[y].value, y, cols)
    ensures slot in Flat(rows, cols, 0)
  {
    var k: nat :| k < |RowSlots(rows[y].value, y, cols)| && RowSlots(rows[y].value, y, cols)[k] == slot;
    FlatAt(rows, cols, y, k);
    FlatEndsWith(rows, cols, 0, y);
  }

  /** Down the screen, and along each row. */
  ghost predicate InOrder(slots: seq<Slot>) {
    forall j, k :: 0 <= j < k < |slots| ==>
      slots[j].row < slots[k].row || (slots[j].row == slots[k].row && slots[j].col < slots[k].col)
  }

  lemma BothInOrder(here: seq<Slot>, rest: seq<Slot>, y: nat)
    requires InOrder(here) && InOrder(rest)
    requires (forall k :: 0 <= k < |here| ==> here[k].row == y) && (forall k :: 0 <= k < |rest| ==> y < rest[k].row)
    ensures InOrder(here + rest) && (forall k :: 0 <= k < |here + rest| ==> y <= (here + rest)[k].row)
  {
  }

  lemma PartInOrder(row: Option<seq<Cell>>, y: nat, cols: nat)
    requires 0 < cols
    ensures InOrder(RowPart(row, y, cols)) && forall s :: s in RowPart(row, y, cols) ==> s.row == y
  {
    var here := RowPart(row, y, cols);
    forall k | 0 <= k < |here|
      ensures here[k].row == y && here[k].col == k
    {
      PlaceInPart(row, y, cols, k);
    }
  }

  /** The flat text runs down the screen, and along each row. */
  lemma {:induction false} FlatInOrder(rows: seq<Option<seq<Cell>>>, cols: nat, y: nat)
    requires 0 < cols && y <= |rows|
    ensures InOrder(Flat(rows, cols, y))
    ensures forall k :: 0 <= k < |Flat(rows, cols, y)| ==> y <= Flat(rows, cols, y)[k].row
    decreases |rows| - y
  {
    if y < |rows| {
      FlatInOrder(rows, cols, y + 1);
      PartInOrder(rows[y], y, cols);
      BothInOrder(RowPart(rows[y], y, cols), Flat(rows, cols, y + 1), y);
    }
  }

  /** A separator, or a filled last column. */
  predicate EndsRow(rows: seq<Option<seq<Cell>>>, cols: nat, s: Slot)
    requires 0 < cols
  {
    || s.c == ' '
    || (s.col == cols - 1 && s.row < |rows| && rows[s.row].Some? && HasContent(rows[s.row].value, cols - 1))
  }

  lemma LastInRow(rows: seq<Option<seq<Cell>>>, cols: nat, y: nat)
    requires 0 < cols && y < |rows| && RowPart(rows[y], y, cols) != []
    ensures var here := RowPart(rows[y], y, cols); EndsRow(rows, cols, here[|here| - 1])
  {
    PlaceInPart(rows[y], y, cols, |RowPart(rows[y], y, cols)| - 1);
  }

  lemma BorderHere(rows: seq<Option<seq<Cell>>>, cols: nat, y: nat, k: nat)
    requires 0 < cols && y < |rows| && 0 < k < |Flat(rows, cols, y)| && k <= |RowPart(rows[y], y, cols)|
    requires Flat(rows, cols, y)[k - 1].row != Flat(rows, cols, y)[k].row
    ensures EndsRow(rows, cols, Flat(rows, cols, y)[k - 1])
  {
    FlatAt(rows, cols, y, k - 1);
    FlatAt(rows, cols, y, k);
    LastInRow(rows, cols, y);
  }

  /** Text runs on from one row into the next only where the row's last column is filled. */
  lemma {:induction false} RowBorder(rows: seq<Option<seq<Cell>>>, cols: nat, y: nat, k: nat)
    requires 0 < cols && y <= |rows| && 0 < k < |Flat(rows, cols, y)|
    requires Flat(rows, cols, y)[k - 1].row != Flat(rows, cols, y)[k].row
    ensures EndsRow(rows, cols, Flat(rows, cols, y)[k - 1])
    decreases |rows| - y
  {
    var border := |RowPart(rows[y], y, cols)|;
    if k <= border {
      BorderHere(rows, cols, y, k);
    } else {
      FlatAt(rows, cols, y, k - 1);
      FlatAt(rows, cols, y, k);
      RowBorder(rows, cols, y + 1, k - border);
    }
  }

  lemma MatchIsUrlText(s: string, m: Match)
    requires m.start <= |s| && MatchAt(s, m.start) == Some(m)
    ensures m.start + m.len <= |s| && 0 < m.len
    ensures forall k :: m.start <= k < m.start + m.len ==> IsUrlChar(s[k])
  {
    SchemeIsUrlText(s, m.start);
  }

  /** A character of the flat text that is not a space stands for a cell with that content. */
  lemma CellBehind(rows: seq<Option<seq<Cell>>>, cols: nat, k: nat)
    requires 0 < cols && k < |Fitting(Flat(rows, cols, 0))| && Fitting(Flat(rows, cols, 0))[k].c != ' '
    ensures var s := Fitting(Flat(rows, cols, 0))[k];
      s.row < |rows| && rows[s.row].Some? && s.col < cols && AsciiAt(rows[s.row].value, s.col) == s.c
  {
    SlotIsCell(rows, cols, 0, k);
  }

  lemma BorderFilled(rows: seq<Option<seq<Cell>>>, cols: nat, k: nat)
    requires 0 < cols && 0 < k < |Fitting(Flat(rows, cols, 0))|
    requires var buf := Fitting(Flat(rows, cols, 0)); buf[k - 1].row != buf[k].row && buf[k - 1].c != ' '
    ensures var s := Fitting(Flat(rows, cols, 0))[k - 1];
      s.row < |rows| && rows[s.row].Some? && s.col == cols - 1 && HasContent(rows[s.row].value, cols - 1)
  {
    RowBorder(rows, cols, 0, k);
    assert EndsRow(rows, cols, Fitting(Flat(rows, cols, 0))[k - 1]);
  }

  /** The characters of a match are no spaces. */
  lemma MatchSolid(buf: seq<Slot>, m: Match)
    requires m.start <= |buf| && MatchAt(Text(buf), m.start) == Some(m)
    ensures 0 < m.len && m.start + m.len <= |buf|
    ensures forall k :: m.start <= k < m.start + m.len ==> buf[k].c != ' '
  {
    MatchIsUrlText(Text(buf), m);
    assert forall k :: m.start <= k < m.start + m.len ==> buf[k].c == Text(buf)[k];
  }

  /**
   * A reported URL is labelled with the cell of its first character, and wherever it crosses
   * from one row into another the former row's last column has content.
   */
  lemma UrlOnScreen(rows: seq<Option<seq<Cell>>>, cols: nat, m: Match)
    requires 0 < cols
    requires var buf := Fitting(Flat(rows, cols, 0)); m.start <= |buf| && MatchAt(Text(buf), m.start) == Some(m)
    ensures var buf := Fitting(Flat(rows, cols, 0));
      && 0 < m.len && m.start + m.len <= |buf|
      && (var s := buf[m.start]; s.row < |rows| && rows[s.row].Some? && s.col < cols
                                 && AsciiAt(rows[s.row].value, s.col) == s.c)
      && forall k :: m.start < k < m.start + m.len && buf[k - 1].row != buf[k].row ==>
           var s := buf[k - 1];
           s.row < |rows| && rows[s.row].Some? && s.col == cols - 1 && HasContent(rows[s.row].value, cols - 1)
  {
    var buf := Fitting(Flat(rows, cols, 0));
    MatchSolid(buf, m);
    CellBehind(rows, cols, m.start);
    forall k | m.start < k < m.start + m.len && buf[k - 1].row != buf[k].row
      ensures var s := buf[k - 1];
        s.row < |rows| && rows[s.row].Some? && s.col == cols - 1 && HasContent(rows[s.row].value, cols - 1)
    {
      BorderFilled(rows, cols, k);
    }
  }

  /** Puts one slot behind the buffer if there is room; `done` is the text without a limit. */
  method Put(buf: seq<Slot>, slot: Slot, ghost done: seq<Slot>) returns (out: seq<Slot>)
    requires buf == Fitting(done)
    ensures out == Fitting(done + [slot])
  {
    out := if |buf| < CAPACITY - 1 then buf + [slot] else buf;
  }

  method FlattenRow(buf: seq<Slot>, cells: seq<Cell>, y: nat, cols: nat, ghost before: seq<Slot>)
    returns (out: seq<Slot>)
    requires 0 < cols && buf == Fitting(before)
    ensures out == Fitting(before + RowSlots(cells, y, cols))
  {
    out := buf;
    ghost var done := before;
    var lastContent := -1;
    for x := 0 to cols
      invariant out == Fitting(done) && done == before + Columns(cells, y, x)
      invariant -1 <= lastContent < x && (lastContent == x - 1 <==> x == 0 || HasContent(cells, x - 1))
    {
      Associative(before, Columns(cells, y, x), [Slot(AsciiAt(cells, x), y, x)]);
      out := Put(out, Slot(AsciiAt(cells, x), y, x), done);
      done := done + [Slot(AsciiAt(cells, x), y, x)];
      if HasContent(cells, x) {
        lastContent := x;
      }
    }
    if lastContent < cols - 1 {
      Associative(before, Columns(cells, y, cols), [Slot(' ', y, cols)]);
      out := Put(out, Slot(' ', y, cols), done);
    } else {
      assert Columns(cells, y, cols) + [] == Columns(cells, y, cols);
    }
  }

  lemma FlatStep(done: seq<Slot>, rows: seq<Option<seq<Cell>>>, cols: nat, y: nat)
    requires 0 < cols && y < |rows|
    ensures done + Flat(rows, cols, y)
            == (done + RowPart(rows[y], y, cols)) + Flat(rows, cols, y + 1)
  {
    Associative(done, RowPart(rows[y], y, cols), Flat(rows, cols, y + 1));
  }

  method FlattenPart(buf: seq<Slot>, row: Option<seq<Cell>>, y: nat, cols: nat, ghost before: seq<Slot>)
    returns (out: seq<Slot>)
    requires 0 < cols && buf == Fitting(before)
    ensures out == Fitting(before + RowPart(row, y, cols))
  {
    out := buf;
    if row.Some? {
      out := FlattenRow(buf, row.value, y, cols, before);
    } else {
      assert before + RowPart(row, y, cols) == before;
    }
  }

  /** The text of what is on the screen, as much of it as the picker looks at. */
  function ScreenText(rows: seq<Option<seq<Cell>>>, cols: nat): seq<Slot>
    requires 0 < cols
  {
    Fitting(Flat(if |rows| > 96 then rows[..96] else rows, if cols > 256 then 256 else cols, 0))
  }

  method AddRow(buf: seq<Slot>, rows: seq<Option<seq<Cell>>>, y: nat, cols: nat, ghost done: seq<Slot>)
    returns (out: seq<Slot>, ghost done': seq<Slot>)
    requires 0 < cols && y < |rows| && buf == Fitting(done)
    ensures done' == done + RowPart(rows[y], y, cols) && out == Fitting(done')
    ensures done' + Flat(rows, cols, y + 1) == done + Flat(rows, cols, y)
  {
    FlatStep(done, rows, cols, y);
    out := FlattenPart(buf, rows[y], y, cols, done);
    done' := done + RowPart(rows[y], y, cols);
  }

  /** Joins the rows the bridge lets us visit into one text. */
  method Flatten(rows: seq<Option<seq<Cell>>>, cols: nat) returns (buf: seq<Slot>)
    requires 0 < cols <= MAX_COLS && |rows| <= MAX_ROWS
    ensures buf == Fitting(Flat(rows, cols, 0))
  {
    buf := [];
    ghost var done: seq<Slot> := [];
    ghost var all := Flat(rows, cols, 0);
    assert done + all == all;
    for y := 0 to |rows|
      invariant buf == Fitting(done) && done + Flat(rows, cols, y) == all
    {
      buf, done := AddRow(buf, rows, y, cols, done);
    }
    assert done + [] == done;
  }

  method ReadScreen(rows: seq<Option<seq<Cell>>>, layoutCols: nat) returns (buf: seq<Slot>)
    requires 0 < layoutCols
    ensures buf == ScreenText(rows, layoutCols)
  {
    var cols := if layoutCols > MAX_COLS then MAX_COLS else layoutCols;
    var visible := if |rows| > MAX_ROWS then rows[..MAX_ROWS] else rows;
    buf := Flatten(visible, cols);
  }
}
