/** Touch scrolling: finger travel turned into whole rows, and the batched event emitters. */
module Drag {
  import opened Common
  import opened Decimal

  /** C's division: truncation toward zero. */
  function Div(a: int, b: int): int
    requires b > 0
  {
    if a >= 0 then a / b else -((-a) / b)
  }

  lemma DivExact(a: int, b: int)
    requires b > 0
    ensures -b < a - Div(a, b) * b < b
    ensures a >= 0 ==> a - Div(a, b) * b >= 0
    ensures a <= 0 ==> a - Div(a, b) * b <= 0
  {
    if a >= 0 {
      assert a == (a / b) * b + a % b;
    } else {
      var q := (-a) / b;
      assert -a == q * b + (-a) % b;
      assert Div(a, b) * b == -(q * b);
    }
  }

  function Abs(x: int): int {
    if x < 0 then -x else x
  }

  lemma Moved(rows: int, emitted: int, h: int, accum: int)
    ensures rows * h + accum == (rows + emitted) * h + (accum - emitted * h)
    ensures emitted == 0 ==> emitted * h == 0
  {
  }

  /** A scroll gesture on a live session with a fixed row height. */
  class Gesture {
    const textHeight: int
    const startY: int
    var lastY: int
    var committed: bool
    var accumDy: int
    /** Where the finger was just before the committing move, and the signed rows emitted since. */
    ghost var origin: int
    ghost var rows: int

    /** Rows emitted, plus what is still accumulated, is the finger's travel since `origin`. */
    ghost predicate Valid()
      reads this
    {
      && textHeight > 0
      && -textHeight < accumDy < textHeight
      && (if committed then rows * textHeight + accumDy == lastY - origin
          else rows == 0 && accumDy == 0 && origin == lastY)
    }

    constructor (y: int, textHeight: int)
      requires textHeight > 0
      ensures Valid() && !committed && lastY == y && startY == y && this.textHeight == textHeight
    {
      this.textHeight := textHeight;
      startY, lastY, committed, accumDy, origin, rows := y, y, false, 0, y, 0;
    }

    /** One move to `y`: the signed number of rows to scroll now. */
    method Move(y: int) returns (emitted: int)
      requires Valid()
      modifies this
      ensures Valid() && lastY == y && rows == old(rows) + emitted
      ensures committed <==> old(committed) || Abs(y - startY) >= textHeight / 2
      ensures committed ==> origin == old(origin)
      ensures !committed ==> emitted == 0
      ensures committed ==>
        var due := old(accumDy) + (y - old(lastY));
        emitted * textHeight + accumDy == due && (due >= 0 ==> accumDy >= 0) && (due <= 0 ==> accumDy <= 0)
    {
      var dy := y - lastY;
      if !committed && Abs(y - startY) < textHeight / 2 {
        lastY := y;
        origin := y;
        return 0;
      }
      lastY := y;
      committed := true;
      accumDy := accumDy + dy;
      emitted := Div(accumDy, textHeight);
      DivExact(accumDy, textHeight);
      Moved(rows, emitted, textHeight, accumDy);
      if emitted == 0 {
        return;
      }
      accumDy := accumDy - emitted * textHeight;
      rows := rows + emitted;
    }
  }

  /**
   * Any sequence of moves after the commit: rows times row height plus the remainder is the
   * travel, and the remainder is smaller than a row.
   */
  method DragAlong(g: Gesture, ys: seq<int>) returns (total: int)
    requires g.Valid()
    modifies g
    ensures g.Valid() && g.rows == old(g.rows) + total
    ensures ys != [] ==> g.lastY == ys[|ys| - 1]
    ensures g.committed ==> Abs((g.lastY - g.origin) - g.rows * g.textHeight) < g.textHeight
  {
    total := 0;
    for k := 0 to |ys|
      invariant g.Valid() && g.rows == old(g.rows) + total
      invariant k > 0 ==> g.lastY == ys[k - 1]
    {
      var emitted := g.Move(ys[k]);
      total := total + emitted;
    }
  }

  // ---- Emitting ----

  function Repeat(event: string, n: nat): string {
    if n == 0 then "" else Repeat(event, n - 1) + event
  }

  lemma {:induction false} RepeatAdd(event: string, m: nat, n: nat)
    ensures Repeat(event, m) + Repeat(event, n) == Repeat(event, m + n)
  {
    if n == 0 {
      assert Repeat(event, m) + "" == Repeat(event, m);
    } else {
      RepeatAdd(event, m, n - 1);
      assert Repeat(event, m) + (Repeat(event, n - 1) + event) == (Repeat(event, m) + Repeat(event, n - 1)) + event;
    }
  }

  const WHEEL_BUFFER: nat := 256
  const CHARACTER_BUFFER: nat := 10

  function WheelEvent(up: bool, col: int, row: int): string {
    [27 as char] + "[<" + Dec(if up then 64 else 65) + ";" + Dec(col) + ";" + Dec(row) + "M"
  }

  predicate Int32(n: int) {
    -0x8000_0000 <= n < 0x8000_0000
  }

  lemma WheelEventFits(up: bool, col: int, row: int)
    requires Int32(col) && Int32(row)
    ensures 0 < |WheelEvent(up, col, row)| < WHEEL_BUFFER
  {
    IntegerWidths();
    DigitsLength(64, 2);
    DigitsLength(65, 2);
    DigitsLength(Abs(col), 10);
    DigitsLength(Abs(row), 10);
  }

  lemma InTwoBatches(before: string, event: string, ticks: nat, left: nat, buf: string)
    requires left <= ticks && buf == Repeat(event, ticks - left)
    ensures (before + buf) + Repeat(event, left) == before + Repeat(event, ticks)
  {
    RepeatAdd(event, ticks - left, left);
    Associative(before, buf, Repeat(event, left));
  }

  /** Fills one buffer with as many whole events as fit, at least one. */
  method FillWheels(event: string, ticks: nat) returns (buf: string, left: nat)
    requires 0 < |event| < WHEEL_BUFFER
    ensures left <= ticks && |buf| < WHEEL_BUFFER && buf == Repeat(event, ticks - left)
    ensures left > 0 ==> left < ticks
  {
    buf, left := "", ticks;
    while left > 0
      invariant left <= ticks && |buf| < WHEEL_BUFFER && buf == Repeat(event, ticks - left)
      invariant left == ticks ==> buf == ""
    {
      if |event| >= WHEEL_BUFFER - |buf| {
        break;
      }
      buf := buf + event;
      left := left - 1;
    }
  }

  function CursorKey(up: bool, appCursorKeys: bool): string {
    [27 as char, if appCursorKeys then 'O' else '[', if up then 'A' else 'B']
  }

  class Session {
    var written: string
    /** How far the viewport was scrolled, in rows; up into the history is negative. */
    var scrolled: int

    constructor ()
      ensures written == "" && scrolled == 0
    {
      written, scrolled := "", 0;
    }

    method ScrollView(delta: int)
      modifies this`scrolled
      ensures scrolled == old(scrolled) + delta
    {
      scrolled := scrolled + delta;
    }

    method WriteBytes(s: string)
      modifies this`written
      ensures written == old(written) + s
    {
      written := written + s;
    }

    /** Writes exactly `ticks` wheel events, in batches that fit the buffer. */
    method EmitWheels(col: int, row: int, up: bool, ticks: nat)
      requires Int32(col) && Int32(row)
      modifies this`written
      ensures written == old(written) + Repeat(WheelEvent(up, col, row), ticks)
      decreases ticks
    {
      WheelEventFits(up, col, row);
      var event := WheelEvent(up, col, row);
      var buf, left := FillWheels(event, ticks);
      if |buf| > 0 {
        WriteBytes(buf);
      }
      assert old(written) + "" == old(written);
      if left > 0 {
        InTwoBatches(old(written), event, ticks, left, buf);
        EmitWheels(col, row, up, left);
      }
    }

    /** Writes exactly `count` cursor keys, `CHARACTER_BUFFER` characters at most at a time. */
    method EmitAltScroll(up: bool, count: nat, appCursorKeys: bool)
      modifies this`written
      ensures written == old(written) + Repeat(CursorKey(up, appCursorKeys), count)
    {
      var key := CursorKey(up, appCursorKeys);
      var left: nat := count;
      assert written + "" == written;
      while left > 0
        invariant left <= count && written == old(written) + Repeat(key, count - left)
      {
        ghost var sent := count - left;
        var buf := "";
        ghost var n: nat := 0;
        while left > 0 && |buf| + 3 <= CHARACTER_BUFFER
          invariant left + sent + n == count && buf == Repeat(key, n) && |buf| == 3 * n
          decreases left
        {
          buf := buf + key;
          n := n + 1;
          left := left - 1;
        }
        if |buf| == 0 {
          break;
        }
        RepeatAdd(key, sent, n);
        WriteBytes(buf);
      }
    }
  }

  // ---- From the finger to the terminal ----

  /** What a scroll gesture drives: the mouse wheel, cursor keys, or the viewport. */
  datatype Mode = Wheel(textWidth: int, topPad: nat) | AltScroll(appCursorKeys: bool) | Viewport

  function ColumnAt(x: int, textWidth: int): int {
    if textWidth > 0 then Div(x, textWidth) + 1 else 1
  }

  function RowAt(y: int, topPad: nat, textHeight: int): int
    requires textHeight > 0
  {
    Div(if y - topPad < 0 then 0 else y - topPad, textHeight) + 1
  }

  /** The bytes that `rows` signed rows of drag, noticed at `(x, y)`, put on the wire. */
  function Events(mode: Mode, textHeight: int, x: int, y: int, rows: int): string
    requires textHeight > 0
  {
    match mode
    case Wheel(w, pad) => Repeat(WheelEvent(rows > 0, ColumnAt(x, w), RowAt(y, pad, textHeight)), Abs(rows))
    case AltScroll(app) => Repeat(CursorKey(rows > 0, app), Abs(rows))
    case Viewport => ""
  }

  lemma {:induction false} Grows(q: nat, b: nat)
    requires b > 0
    ensures q <= q * b
  {
    if b > 1 {
      Grows(q, b - 1);
      assert q * b == q * (b - 1) + q;
    }
  }

  lemma DivShrinks(a: int, b: int)
    requires b > 0
    ensures a >= 0 ==> 0 <= Div(a, b) <= a
    ensures a <= 0 ==> a <= Div(a, b) <= 0
  {
    var n := Abs(a);
    assert n == (n / b) * b + n % b;
    Grows(n / b, b);
  }

  lemma RepeatMeans(event: string, n: nat)
    ensures Repeat(event, 0) == "" && Repeat(event, n + 1) == Repeat(event, n) + event
  {
  }

  lemma WheelSpelled(col: int, row: int)
    requires Dec(64) == "64" && Dec(65) == "65"
    ensures var esc, at := [27 as char], ";" + Dec(col) + ";" + Dec(row) + "M";
      WheelEvent(true, col, row) == esc + "[<64" + at && WheelEvent(false, col, row) == esc + "[<65" + at
  {
    var esc, at := [27 as char], ";" + Dec(col) + ";" + Dec(row) + "M";
    assert esc + "[<" + "64" + at == esc + "[<64" + at;
    assert esc + "[<" + "65" + at == esc + "[<65" + at;
  }

  /** Finger down scrolls up: wheel button 64 or the Up key; finger up is 65 or the Down key. */
  lemma EventsMean(mode: Mode, textHeight: int, x: int, y: int, rows: int)
    requires textHeight > 0
    ensures var esc := [27 as char];
      match mode
      case Wheel(w, pad) =>
        var at := ";" + Dec(ColumnAt(x, w)) + ";" + Dec(RowAt(y, pad, textHeight)) + "M";
        Events(mode, textHeight, x, y, rows)
        == if rows > 0 then Repeat(esc + "[<64" + at, rows) else Repeat(esc + "[<65" + at, -rows)
      case AltScroll(app) =>
        Events(mode, textHeight, x, y, rows)
        == if rows > 0 then Repeat(esc + (if app then "OA" else "[A"), rows)
           else Repeat(esc + (if app then "OB" else "[B"), -rows)
      case Viewport => Events(mode, textHeight, x, y, rows) == ""
  {
    DecMeans(6, 4);
    DecMeans(6, 5);
    DecMeans(0, 6);
    match mode {
      case Wheel(w, pad) =>
        var c, r := Dec(ColumnAt(x, w)), Dec(RowAt(y, pad, textHeight));
        assert Dec(64) == "64" && Dec(65) == "65";
        WheelSpelled(ColumnAt(x, w), RowAt(y, pad, textHeight));
      case AltScroll(app) =>
        assert CursorKey(true, app) == [27 as char] + (if app then "OA" else "[A");
        assert CursorKey(false, app) == [27 as char] + (if app then "OB" else "[B");
      case Viewport =>
    }
  }

  lemma Quotient(a: nat, b: nat)
    requires b > 0
    ensures (a / b) * b <= a < (a / b + 1) * b
  {
    assert a == (a / b) * b + a % b;
    assert (a / b + 1) * b == (a / b) * b + b;
  }

  /** The touched cell, counted from 1: the one whose text box contains the point. */
  lemma CellMeans(x: int, y: int, textWidth: int, topPad: nat, textHeight: int)
    requires textHeight > 0
    ensures textWidth > 0 && x >= 0 ==>
              (ColumnAt(x, textWidth) - 1) * textWidth <= x < ColumnAt(x, textWidth) * textWidth
    ensures textWidth <= 0 ==> ColumnAt(x, textWidth) == 1
    ensures y >= topPad ==>
              (RowAt(y, topPad, textHeight) - 1) * textHeight <= y - topPad < RowAt(y, topPad, textHeight) * textHeight
    ensures y < topPad ==> RowAt(y, topPad, textHeight) == 1
  {
    if textWidth > 0 && x >= 0 {
      Quotient(x, textWidth);
    }
    if y >= topPad {
      Quotient(y - topPad, textHeight);
    }
  }

  lemma CellInRange(x: int, y: int, textWidth: int, topPad: nat, textHeight: int)
    requires textHeight > 0 && Int32(x) && Int32(x + 1) && Int32(y) && Int32(y + 1)
    ensures Int32(ColumnAt(x, textWidth)) && Int32(RowAt(y, topPad, textHeight))
  {
    if textWidth > 0 {
      DivShrinks(x, textWidth);
    }
    DivShrinks(if y - topPad < 0 then 0 else y - topPad, textHeight);
  }

  /** One move of the finger: the rows it scrolls, and the events or the scrolling they cause. */
  method TouchMove(g: Gesture, s: Session, mode: Mode, x: int, y: int) returns (rows: int, ghost bytes: string)
    requires g.Valid() && Int32(x) && Int32(x + 1) && Int32(y) && Int32(y + 1)
    modifies g, s
    ensures g.Valid() && g.lastY == y && g.rows == old(g.rows) + rows
    ensures bytes == Events(mode, g.textHeight, x, y, rows) && s.written == old(s.written) + bytes
    ensures s.scrolled == old(s.scrolled) - if mode.Viewport? then rows else 0
  {
    rows := g.Move(y);
    bytes := Events(mode, g.textHeight, x, y, rows);
    assert s.written + "" == s.written;
    if rows == 0 {
      return;
    }
    match mode {
      case Wheel(textWidth, topPad) =>
        CellInRange(x, y, textWidth, topPad, g.textHeight);
        s.EmitWheels(ColumnAt(x, textWidth), RowAt(y, topPad, g.textHeight), rows > 0, Abs(rows));
      case AltScroll(appCursorKeys) => s.EmitAltScroll(rows > 0, Abs(rows), appCursorKeys);
      case Viewport => s.ScrollView(-rows);
    }
  }

  function Sum(rows: seq<int>): int {
    if rows == [] then 0 else Sum(rows[..|rows| - 1]) + rows[|rows| - 1]
  }

  /** `sent[k]` is what move `k` put on the wire. */
  ghost predicate AllSent(mode: Mode, textHeight: int, moves: seq<(int, int)>, rows: seq<int>, sent: seq<string>)
    requires textHeight > 0
  {
    && |rows| == |sent| <= |moves|
    && forall k :: 0 <= k < |sent| ==> sent[k] == Events(mode, textHeight, moves[k].0, moves[k].1, rows[k])
  }

  lemma OneMoreSent(mode: Mode, textHeight: int, moves: seq<(int, int)>, rows: seq<int>, sent: seq<string>,
                    r: int, bytes: string)
    requires textHeight > 0 && AllSent(mode, textHeight, moves, rows, sent) && |rows| < |moves|
    requires bytes == Events(mode, textHeight, moves[|rows|].0, moves[|rows|].1, r)
    ensures AllSent(mode, textHeight, moves, rows + [r], sent + [bytes])
  {
    var rows', sent' := rows + [r], sent + [bytes];
    forall k | 0 <= k < |sent'|
      ensures sent'[k] == Events(mode, textHeight, moves[k].0, moves[k].1, rows'[k])
    {
      if k < |sent| {
        assert sent'[k] == sent[k] && rows'[k] == rows[k];
      }
    }
  }

  lemma Pushed(rows: seq<int>, r: int, sent: seq<string>, bytes: string, before: string)
    ensures Sum(rows + [r]) == Sum(rows) + r
    ensures (before + Concat(sent)) + bytes == before + Concat(sent + [bytes])
  {
    assert (rows + [r])[..|rows|] == rows && (sent + [bytes])[..|sent|] == sent;
    Associative(before, Concat(sent), bytes);
  }

  method TouchNext(g: Gesture, s: Session, mode: Mode, moves: seq<(int, int)>, rows: seq<int>,
                   ghost sent: seq<string>, ghost before: string)
    returns (rows': seq<int>, ghost sent': seq<string>)
    requires g.Valid() && |rows| < |moves| && AllSent(mode, g.textHeight, moves, rows, sent)
    requires var (x, y) := moves[|rows|]; Int32(x) && Int32(x + 1) && Int32(y) && Int32(y + 1)
    requires s.written == before + Concat(sent)
    modifies g, s
    ensures g.Valid() && |rows'| == |rows| + 1 && AllSent(mode, g.textHeight, moves, rows', sent')
    ensures s.written == before + Concat(sent')
    ensures g.rows - old(g.rows) == Sum(rows') - Sum(rows)
    ensures old(s.scrolled) - s.scrolled == if mode.Viewport? then Sum(rows') - Sum(rows) else 0
  {
    var (x, y) := moves[|rows|];
    ghost var bytes: string;
    var r: int;
    r, bytes := TouchMove(g, s, mode, x, y);
    Pushed(rows, r, sent, bytes, before);
    OneMoreSent(mode, g.textHeight, moves, rows, sent, r, bytes);
    rows', sent' := rows + [r], sent + [bytes];
  }

  method TouchAll(g: Gesture, s: Session, mode: Mode, moves: seq<(int, int)>)
    returns (rows: seq<int>, ghost sent: seq<string>)
    requires g.Valid() && g.rows == 0
    requires forall k :: 0 <= k < |moves| ==>
      Int32(moves[k].0) && Int32(moves[k].0 + 1) && Int32(moves[k].1) && Int32(moves[k].1 + 1)
    modifies g, s
    ensures g.Valid() && |rows| == |moves| && g.rows == Sum(rows) && AllSent(mode, g.textHeight, moves, rows, sent)
    ensures s.written == old(s.written) + Concat(sent)
    ensures s.scrolled == old(s.scrolled) - if mode.Viewport? then Sum(rows) else 0
  {
    rows, sent := [], [];
    assert s.written + "" == s.written;
    for k := 0 to |moves|
      invariant g.Valid() && |rows| == k && g.rows == Sum(rows)
      invariant AllSent(mode, g.textHeight, moves, rows, sent)
      invariant s.written == old(s.written) + Concat(sent)
      invariant s.scrolled == old(s.scrolled) - if mode.Viewport? then Sum(rows) else 0
    {
      rows, sent := TouchNext(g, s, mode, moves, rows, sent, old(s.written));
    }
  }

  /**
   * A whole gesture, from its start: every move sends its rows in its own direction, the viewport
   * goes exactly their sum the other way, and that sum is the travel since the commit in rows, to
   * within one row.
   */
  method TouchMoves(g: Gesture, s: Session, mode: Mode, moves: seq<(int, int)>)
    returns (rows: seq<int>, ghost sent: seq<string>)
    requires g.Valid() && g.rows == 0
    requires forall k :: 0 <= k < |moves| ==>
      Int32(moves[k].0) && Int32(moves[k].0 + 1) && Int32(moves[k].1) && Int32(moves[k].1 + 1)
    modifies g, s
    ensures g.Valid() && |rows| == |moves| && AllSent(mode, g.textHeight, moves, rows, sent)
    ensures s.written == old(s.written) + Concat(sent)
    ensures s.scrolled == old(s.scrolled) - if mode.Viewport? then Sum(rows) else 0
    ensures g.committed ==> Abs((g.lastY - g.origin) - Sum(rows) * g.textHeight) < g.textHeight
    ensures !g.committed ==> Sum(rows) == 0
  {
    rows, sent := TouchAll(g, s, mode, moves);
  }
}
