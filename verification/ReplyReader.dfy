/** The client's side of a reply: frames are taken apart from arbitrary read chunks. */
module ReplyReader {
  import opened Common
  import opened CStrings
  import opened Decimal
  import opened ReplyFrame

  const LINE_MAX: nat := 8192

  /** What has been seen and printed so far. */
  datatype View = View(inFrame: bool, flag: int, done: bool, out: string, err: string)

  const START := View(false, -1, false, "", "")

  datatype Reader = Reading(pending: string, view: View) | Overflow(view: View)
  {
    /** The exit flag: -1 for a protocol failure. */
    function Flag(): int {
      if Overflow? then -1 else view.flag
    }
  }

  function Unescape(line: string): string {
    if line != "" && line[0] == '%' then line[1..] else line
  }

  /** The text behind the last space, if there is one. */
  function LastWord(line: string): string {
    if line == "" || line[|line| - 1] == ' ' then "" else LastWord(line[..|line| - 1]) + [line[|line| - 1]]
  }

  function FlagOf(line: string): int {
    if ' ' in line then Atoi(LastWord(line)) else -1
  }

  function OnLine(v: View, line: string): View {
    if "%begin" <= line then v.(inFrame := true)
    else if "%end" <= line then v.(flag := FlagOf(line), done := true)
    else if v.inFrame then v.(out := v.out + (Unescape(line) + "\n"))
    else if line != "" && line[0] == '%' then v.(err := v.err + (line + "\n"))
    else v
  }

  function Feed(r: Reader, c: char): Reader {
    if r.Overflow? || r.view.done then r
    else if c == '\n' then Reading("", OnLine(r.view, UpToNul(r.pending)))
    else if |r.pending| + 1 == LINE_MAX then Overflow(r.view)
    else Reading(r.pending + [c], r.view)
  }

  function Run(r: Reader, s: string, i: nat): Reader
    requires i <= |s|
    decreases |s| - i
  {
    if i == |s| then r else Run(Feed(r, s[i]), s, i + 1)
  }

  // ---- Chunks do not matter ----

  lemma {:induction false} RunStopped(r: Reader, s: string, i: nat)
    requires i <= |s| && (r.Overflow? || r.view.done)
    ensures Run(r, s, i) == r
    decreases |s| - i
  {
    if i < |s| {
      RunStopped(r, s, i + 1);
    }
  }

  /** Reading the first `n` bytes from `i` on, and then the rest. */
  lemma {:induction false} RunSplit(r: Reader, s: string, i: nat, chunk: string, k: nat)
    requires k <= |chunk| && i + |chunk| <= |s| && chunk == s[i..i + |chunk|]
    ensures Run(r, s, i + k) == Run(Run(r, chunk, k), s, i + |chunk|)
    decreases |chunk| - k
  {
    if k < |chunk| {
      RunSplit(Feed(r, chunk[k]), s, i, chunk, k + 1);
    }
  }

  lemma {:induction false} Refeed(pending: string, view: View, rest: string, i: nat)
    requires i <= |pending| < LINE_MAX && !view.done
    requires forall k :: 0 <= k < |pending| ==> pending[k] != '\n'
    ensures Run(Reading(pending[..i], view), pending + rest, i)
            == Run(Reading(pending, view), pending + rest, |pending|)
    decreases |pending| - i
  {
    if i == |pending| {
      assert pending[..i] == pending;
    } else {
      assert pending[..i] + [pending[i]] == pending[..i + 1];
      Refeed(pending, view, rest, i + 1);
    }
  }

  /** Where a scan stands after `buffer[..i]`, the current line starting at `start`. */
  ghost function Scanned(buffer: string, start: nat, i: nat, v: View): Reader
    requires start <= i <= |buffer| <= LINE_MAX
  {
    if v.done then Reading("", v)
    else if i - start == LINE_MAX then Overflow(v)
    else Run(Reading(buffer[start..i], v), buffer, i)
  }

  lemma ScanStep(buffer: string, start: nat, i: nat, v: View)
    requires start <= i < |buffer| <= LINE_MAX && !v.done
    ensures Scanned(buffer, start, i, v)
            == if buffer[i] != '\n' then Scanned(buffer, start, i + 1, v)
               else Scanned(buffer, i + 1, i + 1, OnLine(v, UpToNul(buffer[start..i])))
  {
    var r := Reading(buffer[start..i], v);
    if buffer[i] != '\n' {
      assert buffer[start..i] + [buffer[i]] == buffer[start..i + 1];
      RunStopped(Overflow(v), buffer, i + 1);
    } else {
      var v' := OnLine(v, UpToNul(buffer[start..i]));
      assert buffer[i + 1..i + 1] == "";
      if v'.done {
        RunStopped(Reading("", v'), buffer, i + 1);
      }
    }
  }

  lemma LineHeld(mem: string, buffer: string, start: nat, i: nat)
    requires start <= i < |mem| && i < |buffer| && mem[i] == NUL
    requires forall k :: start <= k < i ==> mem[k] == buffer[k]
    ensures StringAt(mem, start) == UpToNul(buffer[start..i])
  {
    assert mem[start..] == buffer[start..i] + [NUL] + mem[i + 1..];
    SameUpToNul(buffer[start..i], mem[i + 1..]);
  }

  /** Goes over byte `i`; a newline becomes the NUL of the line that starts at `start`. */
  method ScanByte(buf: array<char>, start: nat, i: nat, v: View, ghost buffer: string)
    returns (v': View, start': nat)
    requires start <= i < |buffer| <= buf.Length == LINE_MAX && !v.done
    requires forall k :: start <= k < |buffer| ==> buf[k] == buffer[k]
    modifies buf
    ensures start' == if buffer[i] == '\n' then i + 1 else start
    ensures forall k :: start' <= k < |buffer| ==> buf[k] == buffer[k]
    ensures v'.done ==> start' > 0
    ensures Scanned(buffer, start', i + 1, v') == Scanned(buffer, start, i, v)
  {
    v', start' := v, start;
    ScanStep(buffer, start, i, v);
    if buf[i] == '\n' {
      buf[i] := NUL;
      LineHeld(buf[..], buffer, start, i);
      v' := OnLine(v, StringAt(buf[..], start));
      start' := i + 1;
    }
  }

  /** Handles the complete lines in `buf[..len]`; the newline of each becomes its NUL. */
  method ScanLines(buf: array<char>, len: nat, view: View) returns (v: View, start: nat)
    requires len <= buf.Length == LINE_MAX && !view.done
    modifies buf
    ensures start <= len && forall k :: start <= k < len ==> buf[k] == old(buf[k])
    ensures var buffer := old(buf[..len]);
      Run(Reading("", view), buffer, 0)
      == (if v.done then Reading("", v)
          else if len - start == LINE_MAX then Overflow(v)
          else Reading(buffer[start..], v))
    ensures if v.done then start > 0 else forall k :: start <= k < len ==> buf[k] != '\n'
  {
    ghost var buffer := buf[..len];
    v, start := view, 0;
    var i := 0;
    while i < len && !v.done
      invariant start <= i <= len && (v.done ==> start > 0)
      invariant forall k :: i <= k < len ==> buf[k] == buffer[k]
      invariant forall k :: start <= k < len ==> buf[k] == buffer[k]
      invariant forall k :: start <= k < i ==> buffer[k] != '\n'
      invariant Run(Reading("", view), buffer, 0) == Scanned(buffer, start, i, v)
      decreases len - i
    {
      v, start := ScanByte(buf, start, i, v, buffer);
      i := i + 1;
    }
    assert buffer[start..len] == buffer[start..];
  }

  lemma ChunkRead(pending: string, v: View, stream: string, pos: nat, n: nat)
    requires |pending| < LINE_MAX && !v.done && pos + n <= |stream|
    requires forall k :: 0 <= k < |pending| ==> pending[k] != '\n'
    ensures Run(Reading(pending, v), stream, pos)
            == Run(Run(Reading("", v), pending + stream[pos..pos + n], 0), stream, pos + n)
  {
    var chunk := stream[pos..pos + n];
    assert pending[..0] == "";
    Refeed(pending, v, chunk, 0);
    RunSplit(Reading(pending, v), stream, pos, chunk, 0);
    RunSplit(Reading(pending, v), pending + chunk, |pending|, chunk, 0);
  }

  /** One `read` of `n` bytes behind the unfinished line, and the lines it completes. */
  method Absorb(buf: array<char>, len: nat, stream: string, pos: nat, n: nat, view: View)
    returns (left: nat, v: View)
    requires buf.Length == LINE_MAX && len + n <= LINE_MAX && 0 < n && pos + n <= |stream| && !view.done
    requires forall k :: 0 <= k < len ==> buf[k] != '\n'
    modifies buf
    ensures left <= LINE_MAX && (v.done ==> left < LINE_MAX)
    ensures !v.done ==> forall k :: 0 <= k < left ==> buf[k] != '\n'
    ensures Run(Reading(old(buf[..len]), view), stream, pos)
            == if v.done then Reading("", v)
               else if left == LINE_MAX then Overflow(v)
               else Run(Reading(buf[..left], v), stream, pos + n)
  {
    ghost var pending, chunk := buf[..len], stream[pos..pos + n];
    forall k | 0 <= k < n {
      buf[len + k] := stream[pos + k];
    }
    left := len + n;
    assert buf[..left] == pending + chunk;
    ChunkRead(pending, view, stream, pos, n);
    var start: nat;
    v, start := ScanLines(buf, left, view);
    if start > 0 {
      forall k | 0 <= k < left - start {
        buf[k] := buf[start + k];
      }
      left := left - start;
    }
    assert buf[..left] == (pending + chunk)[start..];
    RunStopped(if v.done then Reading("", v) else Overflow(v), stream, pos + n);
  }

  // ---- Replies that break off ----

  /** The flag is only ever set by the line that ends the reply. */
  lemma {:induction false} FlagWaits(r: Reader, s: string, i: nat)
    requires i <= |s| && !r.view.done
    ensures !Run(r, s, i).view.done ==> Run(r, s, i).view.flag == r.view.flag
    decreases |s| - i
  {
    if i < |s| {
      var r' := Feed(r, s[i]);
      if r'.view.done {
        RunStopped(r', s, i + 1);
      } else {
        FlagWaits(r', s, i + 1);
      }
    }
  }

  /** `s[p..j]` is a line of the stream, and its newline has arrived. */
  ghost predicate WholeLine(s: string, p: nat, j: nat) {
    && p <= j < |s| && (p == 0 || s[p - 1] == '\n') && s[j] == '\n'
    && forall k :: p <= k < j ==> s[k] != '\n'
  }

  ghost predicate NoEnd(s: string) {
    forall p: nat, j: nat :: WholeLine(s, p, j) ==> !("%end" <= s[p..j])
  }

  lemma NotEnded(v: View, line: string)
    requires !v.done && !("%end" <= line)
    ensures !OnLine(v, UpToNul(line)).done
  {
    assert UpToNul(line) <= line;
  }

  /** Without a whole line that starts with %end the reader never finishes. */
  lemma {:induction false} NoEndNotDone(s: string, p: nat, i: nat, v: View)
    requires p <= i <= |s| && i - p < LINE_MAX && !v.done && NoEnd(s)
    requires (p == 0 || s[p - 1] == '\n') && forall k :: p <= k < i ==> s[k] != '\n'
    ensures !Run(Reading(s[p..i], v), s, i).view.done
    decreases |s| - i
  {
    if i < |s| {
      if s[i] == '\n' {
        assert WholeLine(s, p, i) && s[i + 1..i + 1] == "";
        NotEnded(v, s[p..i]);
        NoEndNotDone(s, i + 1, i + 1, OnLine(v, UpToNul(s[p..i])));
      } else if i - p + 1 == LINE_MAX {
        RunStopped(Overflow(v), s, i + 1);
      } else {
        assert s[p..i] + [s[i]] == s[p..i + 1];
        NoEndNotDone(s, p, i + 1, v);
      }
    }
  }

  lemma BrokenOff(s: string)
    ensures var r := Run(Reading("", START), s, 0);
      && (!r.view.done ==> r.Flag() == -1)
      && (NoEnd(s) ==> !r.view.done)
  {
    FlagWaits(Reading("", START), s, 0);
    if NoEnd(s) {
      assert s[0..0] == "";
      NoEndNotDone(s, 0, 0, START);
    }
  }

  /**
   * Reads a reply until its %end, the end of the stream, or a line that fills the buffer.
   * The result depends only on the bytes, not on the sizes the kernel reads them in; it is
   * -1 whenever no %end line has come in whole.
   */
  method ReadResponse(stream: string) returns (flag: int, view: View)
    ensures var r := Run(Reading("", START), stream, 0);
      flag == r.Flag() && view == r.view
    ensures !view.done ==> flag == -1
    ensures NoEnd(stream) ==> !view.done && flag == -1
  {
    BrokenOff(stream);
    var buf := new char[LINE_MAX];
    var len: nat, pos: nat := 0, 0;
    view := START;
    assert buf[..0] == "";
    while !view.done && pos < |stream|
      invariant pos <= |stream| && len < LINE_MAX
      invariant !view.done ==> forall k :: 0 <= k < len ==> buf[k] != '\n'
      invariant Run(Reading("", START), stream, 0)
                == if view.done then Reading("", view) else Run(Reading(buf[..len], view), stream, pos)
      decreases |stream| - pos
    {
      var n: nat :| 1 <= n <= LINE_MAX - len && pos + n <= |stream|;
      len, view := Absorb(buf, len, stream, pos, n, view);
      pos := pos + n;
      if len == buf.Length {
        return -1, view;
      }
    }
    flag := view.flag;
  }

  // ---- Reading back what the server framed ----

  /** `t` stands in `s` at `p`. */
  ghost predicate Stands(s: string, p: nat, t: string) {
    p + |t| <= |s| && forall k :: 0 <= k < |t| ==> s[p + k] == t[k]
  }

  lemma StandsParts(s: string, p: nat, a: string, b: string)
    requires Stands(s, p, a + b)
    ensures Stands(s, p, a) && Stands(s, p + |a|, b)
  {
    forall k | 0 <= k < |a| ensures s[p + k] == a[k] {
      assert s[p + k] == (a + b)[k];
    }
    forall k | 0 <= k < |b| ensures s[p + |a| + k] == b[k] {
      assert s[p + (|a| + k)] == (a + b)[|a| + k];
    }
  }

  lemma {:induction false} LineGathered(v: View, s: string, p: nat, line: string, k: nat)
    requires !v.done && k <= |line| < LINE_MAX && Stands(s, p, line)
    requires forall i :: 0 <= i < |line| ==> line[i] != '\n'
    ensures Run(Reading("", v), s, p) == Run(Reading(line[..k], v), s, p + k)
  {
    if k == 0 {
      assert line[..0] == "";
    } else {
      LineGathered(v, s, p, line, k - 1);
      assert line[..k - 1] + [line[k - 1]] == line[..k];
    }
  }

  /** A line that reaches `OnLine` whole. */
  ghost predicate CleanLine(line: string) {
    |line| <= 8191 && forall k :: 0 <= k < |line| ==> line[k] != NUL && line[k] != '\n'
  }

  lemma LineRead(v: View, v': View, s: string, p: nat, line: string, q: nat)
    requires !v.done && CleanLine(line) && Stands(s, p, line + "\n")
    requires v' == OnLine(v, line) && q == p + |line| + 1
    ensures Run(Reading("", v), s, p) == Run(Reading("", v'), s, q)
  {
    StandsParts(s, p, line, "\n");
    LineGathered(v, s, p, line, |line|);
    assert line[..|line|] == line;
    assert s[p + |line| + 0] == "\n"[0];
  }

  /** What each kind of line does: start, end, body line, notification, or nothing. */
  lemma LineMeaning(v: View, s: string, p: nat, line: string)
    requires !v.done && CleanLine(line) && Stands(s, p, line + "\n")
    ensures var before, q := Run(Reading("", v), s, p), p + |line| + 1;
      if "%begin" <= line then before == Run(Reading("", v.(inFrame := true)), s, q)
      else if "%end" <= line then
        before.Reading? && before.view.done && before.view.out == v.out && before.view.err == v.err
        && (' ' !in line ==> before.view.flag == -1)
      else if v.inFrame then
        before == Run(Reading("", v.(out := v.out + ((if "%" <= line then line[1..] else line) + "\n"))), s, q)
      else if "%" <= line then before == Run(Reading("", v.(err := v.err + (line + "\n"))), s, q)
      else before == Run(Reading("", v), s, q)
  {
    var v', q := OnLine(v, line), p + |line| + 1;
    LineRead(v, v', s, p, line, q);
    assert "%" <= line <==> line != "" && line[0] == '%';
    if v'.done {
      RunStopped(Reading("", v'), s, q);
    }
  }

  lemma {:induction false} EscapedTail(body: string, i: nat, k: nat)
    requires i <= |body| && k == NewlineAt(body, i)
    ensures Escaped(body, i, false) == body[i..k] + Escaped(body, k, false)
    decreases k - i
  {
    if i == k {
      assert body[i..k] == "";
    } else {
      EscapedTail(body, i + 1, k);
      assert body[i] != '\n' && body[i..k] == [body[i]] + body[i + 1..k];
      Associative([body[i]], body[i + 1..k], Escaped(body, k, false));
    }
  }

  /** One line of the body as it goes over the wire. */
  function WireLine(body: string, i: nat): string
    requires i <= |body|
  {
    (if i < |body| && body[i] == '%' then "%" else "") + body[i..NewlineAt(body, i)]
  }

  lemma EscapedLine(body: string, i: nat)
    requires i <= |body|
    ensures var k := NewlineAt(body, i);
      Escaped(body, i, true)
      == WireLine(body, i) + (if k < |body| then "\n" + Escaped(body, k + 1, true) else "")
  {
    var k := NewlineAt(body, i);
    EscapedTail(body, i, k);
    if i < |body| && body[i] == '%' {
      assert Escaped(body, i, true) == "%" + Escaped(body, i, false);
    } else {
      assert Escaped(body, i, true) == Escaped(body, i, false);
    }
  }

  lemma {:induction false} EscapedSame(s: string, p: nat, t: string, q: nat, atStart: bool)
    requires p <= |s| && q <= |t| && |s| - p == |t| - q
    requires forall k :: p <= k < |s| ==> s[k] == t[q + (k - p)]
    ensures Escaped(s, p, atStart) == Escaped(t, q, atStart)
    decreases |s| - p
  {
    if p < |s| {
      EscapedSame(s, p + 1, t, q + 1, s[p] == '\n');
    }
  }

  lemma LastLineEscaped(line: string)
    requires forall k :: 0 <= k < |line| ==> line[k] != '\n'
    ensures Escaped(line, 0, true) == if "%" <= line then "%" + line else line
  {
    assert NewlineAt(line, 0) == |line|;
    EscapedLine(line, 0);
    assert line[0..|line|] == line && "" + line == line;
    assert WireLine(line, 0) + "" == WireLine(line, 0);
  }

  lemma FirstLineWire(line: string, rest: string)
    requires forall k :: 0 <= k < |line| ==> line[k] != '\n'
    ensures var body := line + ("\n" + rest);
      NewlineAt(body, 0) == |line| && WireLine(body, 0) == if "%" <= line then "%" + line else line
  {
    var body := line + ("\n" + rest);
    NewlineFound(body, 0, |line|);
    assert body[0..|line|] == line && "" + line == line;
  }

  lemma FirstLineRest(line: string, rest: string)
    ensures var body := line + ("\n" + rest); Escaped(body, |line| + 1, true) == Escaped(rest, 0, true)
  {
    var body := line + ("\n" + rest);
    assert forall k :: |line| + 1 <= k < |body| ==> body[k] == rest[k - (|line| + 1)];
    EscapedSame(body, |line| + 1, rest, 0, true);
  }

  /** Escaping, spelled out: a line that starts with a percent gets one more; nothing else changes. */
  lemma EscapingMeans(line: string, rest: string)
    requires forall k :: 0 <= k < |line| ==> line[k] != '\n'
    ensures var esc := if "%" <= line then "%" + line else line;
      && Escaped(line, 0, true) == esc
      && Escaped(line + ("\n" + rest), 0, true) == esc + ("\n" + Escaped(rest, 0, true))
  {
    LastLineEscaped(line);
    FirstLineWire(line, rest);
    EscapedLine(line + ("\n" + rest), 0);
    FirstLineRest(line, rest);
  }

  lemma WireLineClean(body: string, i: nat)
    requires i <= |body| && NulFree(body) && |WireLine(body, i)| < LINE_MAX
    ensures CleanLine(WireLine(body, i))
  {
    var text := body[i..NewlineAt(body, i)];
    assert forall k :: 0 <= k < |text| ==> text[k] == body[i + k];
  }

  lemma MarkersClean(ts: int, id: int, flag: int)
    requires InRange(ts, id, flag)
    ensures CleanLine(BeginLine(ts, id)[..|BeginLine(ts, id)| - 1]) && CleanLine(EndText(ts, id, flag))
  {
    HeaderFits(ts, id, flag);
    var t, i, f := Dec(ts), Dec(id), Dec(flag);
    assert BeginLine(ts, id)[..|BeginLine(ts, id)| - 1] == "%begin " + t + " " + i + " 0";
  }

  lemma NotAMarker(line: string)
    requires line == "" || line[0] != '%' || (|line| > 1 && line[1] == '%')
    ensures !("%begin" <= line) && !("%end" <= line)
  {
    assert "%begin"[0] == '%' && "%begin"[1] == 'b';
    assert "%end"[0] == '%' && "%end"[1] == 'e';
  }

  /** A body line is never taken for a frame marker, and comes out as it went in. */
  lemma BodyLineShown(v: View, body: string, i: nat)
    requires v.inFrame && !v.done && i <= |body|
    ensures OnLine(v, WireLine(body, i)) == v.(out := v.out + (body[i..NewlineAt(body, i)] + "\n"))
  {
    var line, text := WireLine(body, i), body[i..NewlineAt(body, i)];
    if i < |body| && body[i] == '%' {
      assert text[0] == '%';
      assert line == "%" + text;
      assert line[1..] == text;
    } else {
      assert line == text;
      assert text != "" ==> text[0] == body[i];
    }
    NotAMarker(line);
  }

  lemma LinesApart(s: string, p: nat, line: string, rest: string)
    requires Stands(s, p, (line + ("\n" + rest)) + "\n")
    ensures Stands(s, p, line + "\n") && Stands(s, p + |line| + 1, rest + "\n")
  {
    assert (line + ("\n" + rest)) + "\n" == (line + "\n") + (rest + "\n");
    StandsParts(s, p, line + "\n", rest + "\n");
  }

  /** One body line read: the rest of the body stands behind it. */
  lemma BodyLineRead(v: View, s: string, p: nat, body: string, i: nat) returns (mid: View, q: nat)
    requires v.inFrame && !v.done && i <= |body| && NulFree(body)
    requires |Escaped(body, i, true)| < LINE_MAX && Stands(s, p, Escaped(body, i, true) + "\n")
    ensures var k := NewlineAt(body, i);
      && mid == v.(out := v.out + (body[i..k] + "\n"))
      && (if k < |body| then Escaped(body, i, true) == WireLine(body, i) + ("\n" + Escaped(body, k + 1, true))
          else Escaped(body, i, true) == WireLine(body, i))
      && (k < |body| ==> Stands(s, q, Escaped(body, k + 1, true) + "\n"))
    ensures q == p + |WireLine(body, i)| + 1
    ensures Run(Reading("", v), s, p) == Run(Reading("", mid), s, q)
  {
    var k, line := NewlineAt(body, i), WireLine(body, i);
    mid, q := v.(out := v.out + (body[i..k] + "\n")), p + |line| + 1;
    EscapedLine(body, i);
    if k < |body| {
      LinesApart(s, p, line, Escaped(body, k + 1, true));
    } else {
      assert line + "" == line;
    }
    WireLineClean(body, i);
    BodyLineShown(v, body, i);
    LineRead(v, mid, s, p, line, q);
  }

  lemma PrintedInOrder(out: string, body: string, i: nat, k: nat)
    requires i <= k < |body| && body[k] == '\n'
    ensures (out + (body[i..k] + "\n")) + (body[k + 1..] + "\n") == out + (body[i..] + "\n")
  {
    assert body[i..] == body[i..k] + "\n" + body[k + 1..];
  }

  /** The client prints the body from `i` on, line by line, and is then past it. */
  lemma {:induction false} BodyRead(v: View, v': View, s: string, p: nat, body: string, i: nat, end: nat)
    requires v.inFrame && !v.done && i <= |body| && NulFree(body)
    requires |Escaped(body, i, true)| < LINE_MAX && Stands(s, p, Escaped(body, i, true) + "\n")
    requires v' == v.(out := v.out + (body[i..] + "\n")) && end == p + |Escaped(body, i, true)| + 1
    ensures Run(Reading("", v), s, p) == Run(Reading("", v'), s, end)
    decreases |body| - i
  {
    var k := NewlineAt(body, i);
    var mid, q := BodyLineRead(v, s, p, body, i);
    if k < |body| {
      PrintedInOrder(v.out, body, i, k);
      BodyRead(mid, v', s, q, body, k + 1, end);
    } else {
      assert body[i..k] == body[i..];
    }
  }

  lemma {:induction false} LastWordIs(head: string, w: string)
    requires forall k :: 0 <= k < |w| ==> w[k] != ' '
    ensures LastWord(head + " " + w) == w
    decreases |w|
  {
    var line := head + " " + w;
    if w != "" {
      LastWordIs(head, w[..|w| - 1]);
      assert line[..|line| - 1] == head + " " + w[..|w| - 1];
    }
  }

  lemma BeginShown(v: View, ts: int, id: int)
    ensures OnLine(v, BeginLine(ts, id)[..|BeginLine(ts, id)| - 1]) == v.(inFrame := true)
  {
    assert BeginLine(ts, id)[..6] == "%begin";
  }

  lemma EndFlag(ts: int, id: int, flag: int)
    ensures FlagOf(EndText(ts, id, flag)) == flag
  {
    LastWordIs("%end " + Dec(ts) + " " + Dec(id), Dec(flag));
    assert EndText(ts, id, flag)[4] == ' ';
    AtoiOfDec(flag);
  }

  lemma EndShown(v: View, ts: int, id: int, flag: int)
    ensures OnLine(v, EndText(ts, id, flag)) == v.(flag := flag, done := true)
  {
    var end := EndText(ts, id, flag);
    assert end[..4] == "%end" && end[1] == 'e';
    EndFlag(ts, id, flag);
  }

  /** What the client has shown when a reply is over. */
  function Shown(flag: int, body: string): View {
    View(true, flag, true, if body == "" then "" else body + "\n", "")
  }

  lemma BodyPartRead(s: string, p: nat, q: nat, body: string)
    requires NulFree(body) && |Escaped(body, 0, true)| < LINE_MAX
    requires var text := if body == "" then "" else Escaped(body, 0, true) + "\n";
      Stands(s, p, text) && q == p + |text|
    ensures var open := START.(inFrame := true);
      Run(Reading("", open), s, p)
      == Run(Reading("", open.(out := if body == "" then "" else body + "\n")), s, q)
  {
    var open := START.(inFrame := true);
    if body != "" {
      assert body[0..] == body && "" + (body + "\n") == body + "\n";
      BodyRead(open, open.(out := body + "\n"), s, p, body, 0, q);
    }
  }

  lemma EndRead(v: View, ts: int, id: int, flag: int, s: string, q: nat)
    requires !v.done && InRange(ts, id, flag) && Stands(s, q, EndText(ts, id, flag) + "\n")
    ensures Run(Reading("", v), s, q) == Reading("", v.(flag := flag, done := true))
  {
    var over, end := v.(flag := flag, done := true), q + |EndText(ts, id, flag)| + 1;
    MarkersClean(ts, id, flag);
    EndShown(v, ts, id, flag);
    LineRead(v, over, s, q, EndText(ts, id, flag), end);
    RunStopped(Reading("", over), s, end);
  }

  lemma BeginRead(ts: int, id: int, flag: int, s: string)
    requires InRange(ts, id, flag) && Stands(s, 0, BeginLine(ts, id))
    ensures Run(Reading("", START), s, 0) == Run(Reading("", START.(inFrame := true)), s, |BeginLine(ts, id)|)
  {
    var begin := BeginLine(ts, id);
    assert begin[..|begin| - 1] + "\n" == begin;
    MarkersClean(ts, id, flag);
    BeginShown(START, ts, id);
    LineRead(START, START.(inFrame := true), s, 0, begin[..|begin| - 1], |begin|);
  }

  lemma FrameParts(begin: string, text: string, end: string, rest: string, s: string)
    requires s == begin + text + end + rest
    ensures Stands(s, 0, begin) && Stands(s, |begin|, text) && Stands(s, |begin + text|, end)
  {
  }

  /**
   * For every NUL-free body the reply buffer holds, and every flag: the client prints the
   * body (and the newline the server adds), returns the flag, and never fills its buffer.
   */
  lemma ReplyReadBack(ts: int, id: int, flag: int, body: string, rest: string)
    requires InRange(ts, id, flag) && NulFree(body)
    requires body == "" || |BeginLine(ts, id)| + |Escaped(body, 0, true)| < CAP
    ensures Run(Reading("", START), Frame(ts, id, flag, body) + rest, 0) == Reading("", Shown(flag, body))
  {
    var begin, end := BeginLine(ts, id), EndText(ts, id, flag);
    var text := if body == "" then "" else Escaped(body, 0, true) + "\n";
    var s := Frame(ts, id, flag, body) + rest;
    FrameParts(begin, text, end + "\n", rest, s);
    BeginRead(ts, id, flag, s);
    BodyPartRead(s, |begin|, |begin + text|, body);
    EndRead(START.(inFrame := true, out := if body == "" then "" else body + "\n"), ts, id, flag, s, |begin + text|);
  }

  /** One reply, from the server's scratch buffer to the client's exit flag. */
  method Exchange(ts: int, id: int, flag: int, body: string, later: string) returns (got: int, view: View)
    requires InRange(ts, id, flag) && NulFree(body) && |body| <= 4095
    ensures got == flag && view == Shown(flag, body)
  {
    var buf := new char[REPLY_MAX];
    var len, sent := Reply(buf, ts, id, flag, body);
    NeverTruncated(ts, id, flag, body);
    ReplyReadBack(ts, id, flag, body, later);
    got, view := ReadResponse(buf[..len] + later);
  }
}
