/**
 * The control server's side of a request: bytes arrive in arbitrary chunks, are
 * gathered in a fixed line buffer, and leave as dispatches and rejections.
 */
module LineReader {
  import opened Common
  import opened CStrings
  import ControlProto

  const LINE_MAX: nat := 4096
  const MAX_ARGV: nat := 16

  /** A complete line goes to the splitter, or an overlong one is refused. */
  datatype Event = Handed(line: string) | LineTooLong

  /** What the server does about it. */
  datatype Reply = Dispatch(args: seq<string>) | TooManyArguments | RefuseLine

  // ---- One complete line ----

  function StripCr(line: string): string {
    if EndsInCr(line) then line[..|line| - 1] else line
  }

  function LineResponse(line: string): seq<Reply> {
    var args := ControlProto.Tokens(UpToNul(StripCr(line)));
    if |args| > MAX_ARGV then [TooManyArguments]
    else if args == [] then []
    else [Dispatch(args)]
  }

  function Response(e: Event): seq<Reply> {
    match e
    case Handed(line) => LineResponse(line)
    case LineTooLong => [RefuseLine]
  }

  function ResponsesTo(events: seq<Event>, n: nat): seq<Reply>
    requires n <= |events|
  {
    if n == 0 then [] else ResponsesTo(events, n - 1) + Response(events[n - 1])
  }

  function Responses(events: seq<Event>): seq<Reply> {
    ResponsesTo(events, |events|)
  }

  lemma {:induction false} ResponsesPrefix(a: seq<Event>, b: seq<Event>, n: nat)
    requires n <= |a|
    ensures ResponsesTo(a + b, n) == ResponsesTo(a, n)
  {
    if n > 0 {
      ResponsesPrefix(a, b, n - 1);
    }
  }

  lemma {:induction false} ResponsesJoin(a: seq<Event>, b: seq<Event>, n: nat)
    requires n <= |b|
    ensures ResponsesTo(a + b, |a| + n) == Responses(a) + ResponsesTo(b, n)
  {
    if n == 0 {
      ResponsesPrefix(a, b, |a|);
    } else {
      ResponsesJoin(a, b, n - 1);
      Associative(Responses(a), ResponsesTo(b, n - 1), Response(b[n - 1]));
    }
  }

  lemma ResponsesAppend(a: seq<Event>, b: seq<Event>)
    ensures Responses(a + b) == Responses(a) + Responses(b)
  {
    ResponsesJoin(a, b, |b|);
  }

  lemma ResponsesPush(events: seq<Event>, e: Event)
    ensures Responses(events + [e]) == Responses(events) + Response(e)
  {
    ResponsesJoin(events, [e], 1);
    assert ResponsesTo([e], 1) == Response(e);
  }

  lemma StringsHeld(mem: string, argv: seq<nat>, args: seq<string>)
    requires ControlProto.AllHeld(mem, argv, args)
    ensures forall k :: 0 <= k < |argv| ==> argv[k] <= |mem| && StringAt(mem, argv[k]) == args[k]
  {
    forall k | 0 <= k < |argv| ensures argv[k] <= |mem| && StringAt(mem, argv[k]) == args[k] {
      StringHeld(mem, argv[k], args[k]);
    }
  }

  lemma LineInBuffer(mem: string, text: string)
    requires |text| < |mem| && mem[|text|] == NUL && text <= mem
    ensures NUL in mem && UpToNul(mem) == UpToNul(text)
  {
    var rest := mem[|text| + 1..];
    assert mem == text + [NUL] + rest;
    SameUpToNul(text, rest);
  }

  /** Copies one line out of the buffer, without its CR. */
  method CopyLine(inbuf: array<char>, start: nat, end: nat) returns (line: array<char>)
    requires start <= end <= inbuf.Length && end - start < LINE_MAX
    ensures fresh(line) && NUL in line[..] && UpToNul(line[..]) == UpToNul(StripCr(inbuf[start..end]))
  {
    line := new char[LINE_MAX];
    var len := end - start;
    forall k | 0 <= k < len {
      line[k] := inbuf[start + k];
    }
    line[len] := NUL;
    ghost var content := inbuf[start..end];
    assert line[..len + 1] == content + [NUL];
    if len > 0 && line[len - 1] == '\r' {
      line[len - 1] := NUL;
    }
    LineInBuffer(line[..], StripCr(content));
  }

  /** Copies one line out of the buffer, tokenizes the copy in place, and answers it. */
  method HandleLine(inbuf: array<char>, start: nat, end: nat) returns (responses: seq<Reply>)
    requires start <= end <= inbuf.Length && end - start < LINE_MAX
    ensures responses == LineResponse(inbuf[start..end])
  {
    var line := CopyLine(inbuf, start, end);
    ghost var tokens := ControlProto.Tokens(UpToNul(StripCr(inbuf[start..end])));
    var argc, argv := ControlProto.Split(line, MAX_ARGV);
    if argc < 0 {
      return [TooManyArguments];
    }
    if argc == 0 {
      return [];
    }
    StringsHeld(line[..], argv, tokens);
    var args := seq(|argv|, k requires 0 <= k < |argv| && argv[k] <= line.Length reads line =>
      StringAt(line[..], argv[k]));
    assert args == tokens;
    return [Dispatch(args)];
  }

  // ---- The reader, byte by byte ----

  /** The unfinished line, and whether its beginning was already rejected as too long. */
  datatype Reader = Reader(pending: string, oversize: bool)

  const FRESH := Reader("", false)

  ghost predicate Clean(r: Reader) {
    |r.pending| < LINE_MAX && forall k :: 0 <= k < |r.pending| ==> r.pending[k] != '\n'
  }

  function Finished(line: string, oversize: bool): seq<Event> {
    if oversize then [] else [Handed(line)]
  }

  function Feed(r: Reader, c: char): (Reader, seq<Event>) {
    if c == '\n' then
      (Reader("", false), Finished(r.pending, r.oversize))
    else if |r.pending| + 1 == LINE_MAX then
      (Reader("", true), [LineTooLong])
    else
      (Reader(r.pending + [c], r.oversize), [])
  }

  /** `out` with `events` put before what it reports. */
  function Then(events: seq<Event>, out: (Reader, seq<Event>)): (Reader, seq<Event>) {
    (out.0, events + out.1)
  }

  function Run(r: Reader, s: string, i: nat): (Reader, seq<Event>)
    requires i <= |s|
    decreases |s| - i
  {
    if i == |s| then (r, []) else var (r1, e) := Feed(r, s[i]); Then(e, Run(r1, s, i + 1))
  }

  lemma ThenThen(a: seq<Event>, b: seq<Event>, out: (Reader, seq<Event>))
    ensures Then(a, Then(b, out)) == Then(a + b, out)
  {
    assert a + (b + out.1) == (a + b) + out.1;
  }

  lemma ThenNothing(out: (Reader, seq<Event>))
    ensures Then([], out) == out
  {
    assert [] + out.1 == out.1;
  }

  lemma {:induction false} RunClean(r: Reader, s: string, i: nat)
    requires i <= |s| && Clean(r)
    ensures Clean(Run(r, s, i).0)
    decreases |s| - i
  {
    if i < |s| {
      RunClean(Feed(r, s[i]).0, s, i + 1);
    }
  }

  /** Only the bytes from `i` on matter. */
  lemma {:induction false} RunSuffix(r: Reader, s: string, i: nat, t: string, j: nat)
    requires i <= |s| && j <= |t| && |s| - i == |t| - j
    requires forall k :: i <= k < |s| ==> s[k] == t[j + (k - i)]
    ensures Run(r, s, i) == Run(r, t, j)
    decreases |s| - i
  {
    if i < |s| {
      RunSuffix(Feed(r, s[i]).0, s, i + 1, t, j + 1);
    }
  }

  /** Feeding `a` and then `b` is feeding their concatenation: chunk borders do not show. */
  lemma {:induction false} RunConcat(r: Reader, a: string, i: nat, b: string)
    requires i <= |a|
    ensures var (r1, e) := Run(r, a, i); Run(r, a + b, i) == Then(e, Run(r1, b, 0))
    decreases |a| - i
  {
    if i == |a| {
      RunSuffix(r, a + b, i, b, 0);
      ThenNothing(Run(r, b, 0));
    } else {
      var (r1, e1) := Feed(r, a[i]);
      RunConcat(r1, a, i + 1, b);
      var (r2, e2) := Run(r1, a, i + 1);
      ThenThen(e1, e2, Run(r2, b, 0));
    }
  }

  /** Re-reading an unfinished line from an empty buffer restores it without an event. */
  lemma {:induction false} Refeed(pending: string, oversize: bool, rest: string, i: nat)
    requires Clean(Reader(pending, oversize)) && i <= |pending|
    ensures Run(Reader(pending[..i], oversize), pending + rest, i)
            == Run(Reader(pending, oversize), rest, 0)
    decreases |pending| - i
  {
    if i == |pending| {
      assert pending[..i] == pending;
      RunSuffix(Reader(pending, oversize), pending + rest, i, rest, 0);
    } else {
      assert pending[..i] + [pending[i]] == pending[..i + 1];
      Refeed(pending, oversize, rest, i + 1);
      ThenNothing(Run(Reader(pending[..i + 1], oversize), pending + rest, i + 1));
    }
  }

  // ---- The reader, line by line ----

  function Rejections(n: nat): seq<Event> {
    seq(n, _ => LineTooLong)
  }

  /** What one complete line, or the unfinished rest of the stream, is reported as. */
  function Segment(s: string, p: nat, j: nat): seq<Event>
    requires p <= j <= |s|
  {
    if j < |s| && j - p < LINE_MAX then [Handed(s[p..j])] else Rejections((j - p) / LINE_MAX)
  }

  /** What a byte stream means, with no buffer in sight. */
  function StreamEvents(s: string, p: nat): seq<Event>
    requires p <= |s|
    decreases |s| - p
  {
    var j := NewlineAt(s, p);
    Segment(s, p, j) + if j < |s| then StreamEvents(s, j + 1) else []
  }

  /** The reader in the middle of the line that starts at `p`, after `s[p..i]`. */
  function Mid(s: string, p: nat, i: nat): Reader
    requires p <= i <= |s|
  {
    Reader(s[i - (i - p) % LINE_MAX..i], i - p >= LINE_MAX)
  }

  lemma NextRemainder(k: nat)
    ensures k % LINE_MAX + 1 == LINE_MAX ==> (k + 1) % LINE_MAX == 0 && (k + 1) / LINE_MAX == k / LINE_MAX + 1
    ensures k % LINE_MAX + 1 < LINE_MAX ==>
              (k + 1) % LINE_MAX == k % LINE_MAX + 1 && (k + 1) / LINE_MAX == k / LINE_MAX
  {
  }

  lemma OneRejectionMore(n: nat)
    ensures Rejections(n) + [LineTooLong] == Rejections(n + 1)
  {
  }

  lemma MidStep(s: string, p: nat, i: nat)
    requires p <= i < |s| && s[i] != '\n'
    ensures Feed(Mid(s, p, i), s[i]).0 == Mid(s, p, i + 1)
    ensures Rejections((i - p) / LINE_MAX) + Feed(Mid(s, p, i), s[i]).1
            == Rejections((i + 1 - p) / LINE_MAX)
  {
    NextRemainder(i - p);
    var r := (i - p) % LINE_MAX;
    assert |s[i - r..i]| == r;
    if r + 1 < LINE_MAX {
      assert s[i - r..i] + [s[i]] == s[i - r..i + 1];
      assert Rejections((i - p) / LINE_MAX) + [] == Rejections((i - p) / LINE_MAX);
    } else {
      OneRejectionMore((i - p) / LINE_MAX);
    }
  }

  lemma RunStep(before: seq<Event>, r: Reader, s: string, i: nat)
    requires i < |s|
    ensures Then(before, Run(r, s, i)) == Then(before + Feed(r, s[i]).1, Run(Feed(r, s[i]).0, s, i + 1))
  {
    ThenThen(before, Feed(r, s[i]).1, Run(Feed(r, s[i]).0, s, i + 1));
  }

  lemma {:induction false} RunInLine(s: string, p: nat, i: nat, j: nat)
    requires p <= i <= j <= |s| && forall k :: i <= k < j ==> s[k] != '\n'
    ensures Then(Rejections((i - p) / LINE_MAX), Run(Mid(s, p, i), s, i))
            == Then(Rejections((j - p) / LINE_MAX), Run(Mid(s, p, j), s, j))
    decreases j - i
  {
    if i < j {
      MidStep(s, p, i);
      RunStep(Rejections((i - p) / LINE_MAX), Mid(s, p, i), s, i);
      RunInLine(s, p, i + 1, j);
    }
  }

  lemma FromLineStart(s: string, p: nat, j: nat)
    requires p <= |s| && j == NewlineAt(s, p)
    ensures Run(FRESH, s, p) == Then(Rejections((j - p) / LINE_MAX), Run(Mid(s, p, j), s, j))
  {
    assert Mid(s, p, p) == FRESH;
    assert Rejections((p - p) / LINE_MAX) == [];
    ThenNothing(Run(FRESH, s, p));
    RunInLine(s, p, p, j);
  }

  lemma EndOfLine(s: string, p: nat, j: nat)
    requires p <= j < |s| && s[j] == '\n'
    ensures Feed(Mid(s, p, j), s[j]).0 == FRESH
    ensures Rejections((j - p) / LINE_MAX) + Feed(Mid(s, p, j), s[j]).1
            == if j - p < LINE_MAX then [Handed(s[p..j])] else Rejections((j - p) / LINE_MAX)
  {
    if j - p < LINE_MAX {
      assert (j - p) % LINE_MAX == j - p && (j - p) / LINE_MAX == 0;
      assert Rejections(0) == [];
    }
  }

  lemma OneLine(s: string, p: nat, j: nat)
    requires p <= |s| && j == NewlineAt(s, p)
    ensures Run(FRESH, s, p) == if j < |s| then Then(Segment(s, p, j), Run(FRESH, s, j + 1))
                                else (Mid(s, p, j), Segment(s, p, j))
  {
    FromLineStart(s, p, j);
    if j < |s| {
      EndOfLine(s, p, j);
      RunStep(Rejections((j - p) / LINE_MAX), Mid(s, p, j), s, j);
    } else {
      assert Rejections((j - p) / LINE_MAX) + [] == Rejections((j - p) / LINE_MAX);
    }
  }

  /**
   * The byte-by-byte reader reports exactly what the stream means: a line of at most
   * 4095 bytes is handed on intact, and one of length L >= 4096 causes floor(L / 4096)
   * rejections and no dispatch.
   */
  lemma {:induction false} RunIsStream(s: string, p: nat)
    requires p <= |s|
    ensures Run(FRESH, s, p).1 == StreamEvents(s, p)
    decreases |s| - p
  {
    var j := NewlineAt(s, p);
    OneLine(s, p, j);
    if j < |s| {
      RunIsStream(s, j + 1);
    } else {
      assert Segment(s, p, j) + [] == Segment(s, p, j);
    }
  }

  // ---- The stream, spelled out ----

  /** Only the bytes from `p` on matter. */
  lemma StreamSame(s: string, p: nat, t: string, q: nat)
    requires p <= |s| && q <= |t| && |s| - p == |t| - q
    requires forall k :: p <= k < |s| ==> s[k] == t[q + (k - p)]
    ensures StreamEvents(s, p) == StreamEvents(t, q)
  {
    RunIsStream(s, p);
    RunIsStream(t, q);
    RunSuffix(FRESH, s, p, t, q);
  }

  lemma UnfinishedIs(line: string)
    requires forall k :: 0 <= k < |line| ==> line[k] != '\n'
    ensures StreamEvents(line, 0) == Rejections(|line| / 4096)
  {
    assert NewlineAt(line, 0) == |line| && Rejections(|line| / 4096) + [] == Rejections(|line| / 4096);
  }

  /** A line without its newline has been refused once per 4096 bytes so far. */
  lemma UnfinishedLine(line: string)
    requires forall k :: 0 <= k < |line| ==> line[k] != '\n'
    ensures |StreamEvents(line, 0)| == |line| / 4096
    ensures forall k :: 0 <= k < |StreamEvents(line, 0)| ==> StreamEvents(line, 0)[k] == LineTooLong
  {
    UnfinishedIs(line);
  }

  lemma FinishedLine(line: string, rest: string)
    requires forall k :: 0 <= k < |line| ==> line[k] != '\n'
    ensures var s := line + ("\n" + rest);
      NewlineAt(s, 0) == |line| && Segment(s, 0, |line|)
                                   == if |line| <= 4095 then [Handed(line)] else Rejections(|line| / 4096)
  {
    var s := line + ("\n" + rest);
    NewlineFound(s, 0, |line|);
    assert s[0..|line|] == line;
  }

  lemma StreamBehind(line: string, rest: string)
    ensures StreamEvents(line + ("\n" + rest), |line| + 1) == StreamEvents(rest, 0)
  {
    var s := line + ("\n" + rest);
    assert forall k :: |line| + 1 <= k < |s| ==> s[k] == rest[k - (|line| + 1)];
    StreamSame(s, |line| + 1, rest, 0);
  }

  lemma StreamHead(s: string, n: nat, first: seq<Event>, more: seq<Event>)
    requires n == NewlineAt(s, 0) < |s| && first == Segment(s, 0, n) && more == StreamEvents(s, n + 1)
    ensures StreamEvents(s, 0) == first + more
  {
  }

  /**
   * A line of up to 4095 bytes is handed on whole, a longer one gets no more than its refusals,
   * and the stream goes on behind its newline.
   */
  lemma StreamMeans(line: string, rest: string)
    requires forall k :: 0 <= k < |line| ==> line[k] != '\n'
    ensures StreamEvents(line + ("\n" + rest), 0)
            == (if |line| <= 4095 then [Handed(line)] else StreamEvents(line, 0)) + StreamEvents(rest, 0)
  {
    var s, first := line + ("\n" + rest), if |line| <= 4095 then [Handed(line)] else StreamEvents(line, 0);
    assert first == Segment(s, 0, |line|) && |line| == NewlineAt(s, 0) by {
      UnfinishedIs(line);
      FinishedLine(line, rest);
    }
    StreamBehind(line, rest);
    StreamHead(s, |line|, first, StreamEvents(rest, 0));
  }

  /** The answer to a line: the arguments of its C string without a final CR, 16 of them at most. */
  lemma LineMeans(line: string, text: string)
    requires NulFree(text)
    requires line == text || line == text + "\r"
    requires line == text ==> text == "" || text[|text| - 1] != '\r'
    ensures var args := ControlProto.Lex(text, None);
      LineResponse(line)
      == if |args| > 16 then [TooManyArguments] else if args == [] then [] else [Dispatch(args)]
  {
    assert (text + "\r")[..|text|] == text;
    assert StripCr(line) == text && UpToNul(text) == text;
    ControlProto.TokensAreLexed(text);
  }

  // ---- The line buffer ----

  lemma ChunkRead(events: seq<Event>, r: Reader, input: string, pos: nat, n: nat)
    requires pos + n <= |input|
    ensures var (r', e) := Run(r, input[pos..pos + n], 0);
      Then(events, Run(r, input, pos)) == Then(events + e, Run(r', input, pos + n))
  {
    var chunk, rest := input[pos..pos + n], input[pos + n..];
    var (r', e) := Run(r, chunk, 0);
    RunSuffix(r, input, pos, chunk + rest, 0);
    RunConcat(r, chunk, 0, rest);
    RunSuffix(r', input, pos + n, rest, 0);
    ThenThen(events, e, Run(r', rest, 0));
  }

  /** What a scan has still to report after `buffer[..i]`, the current line starting at `start`. */
  ghost function Scanned(buffer: string, start: nat, i: nat, oversize: bool): (Reader, seq<Event>)
    requires start <= i <= |buffer| <= LINE_MAX
  {
    if i - start == LINE_MAX then (Reader("", true), [LineTooLong])
    else Run(Reader(buffer[start..i], oversize), buffer, i)
  }

  lemma ScanBegin(buffer: string, oversize: bool)
    requires |buffer| <= LINE_MAX
    ensures Then([], Scanned(buffer, 0, 0, oversize)) == Run(Reader("", oversize), buffer, 0)
  {
    assert buffer[0..0] == "";
    ThenNothing(Run(Reader("", oversize), buffer, 0));
  }

  lemma ScanEnd(events: seq<Event>, buffer: string, start: nat, oversize: bool)
    requires start <= |buffer| <= LINE_MAX
    ensures Then(events, Scanned(buffer, start, |buffer|, oversize))
            == if |buffer| - start == LINE_MAX then (Reader("", true), events + [LineTooLong])
               else (Reader(buffer[start..], oversize), events)
  {
    assert events + [] == events;
    assert buffer[start..|buffer|] == buffer[start..];
  }

  lemma ScanStep(events: seq<Event>, buffer: string, start: nat, i: nat, oversize: bool)
    requires start <= i < |buffer| <= LINE_MAX
    ensures Then(events, Scanned(buffer, start, i, oversize))
            == if buffer[i] != '\n' then Then(events, Scanned(buffer, start, i + 1, oversize))
               else Then(events + Finished(buffer[start..i], oversize), Scanned(buffer, i + 1, i + 1, false))
  {
    var r := Reader(buffer[start..i], oversize);
    var (r1, e) := Feed(r, buffer[i]);
    ThenThen(events, e, Run(r1, buffer, i + 1));
    if buffer[i] != '\n' {
      assert buffer[start..i] + [buffer[i]] == buffer[start..i + 1];
      ThenNothing(Run(r1, buffer, i + 1));
      if i + 1 - start == LINE_MAX {
        assert events + [LineTooLong] + [] == events + [LineTooLong];
      }
    } else {
      assert buffer[i + 1..i + 1] == "";
    }
  }

  class Client {
    const inbuf: array<char>
    var inlen: nat
    var oversize: bool

    /** Between reads: room for at least one byte, and no complete line waiting. */
    ghost predicate Valid()
      reads this, inbuf
    {
      && inbuf.Length == LINE_MAX
      && inlen < LINE_MAX
      && forall k :: 0 <= k < inlen ==> inbuf[k] != '\n'
    }

    ghost function State(): (r: Reader)
      reads this, inbuf
      requires inlen <= inbuf.Length
    {
      Reader(inbuf[..inlen], oversize)
    }

    constructor ()
      ensures Valid() && State() == FRESH && fresh(inbuf)
    {
      inbuf := new char[LINE_MAX];
      inlen, oversize := 0, false;
    }

    /** Moves the bytes from `start` on to the front. */
    method Compact(start: nat)
      requires start <= inlen <= inbuf.Length
      modifies this`inlen, inbuf
      ensures inlen == old(inlen) - start && inbuf[..inlen] == old(inbuf[start..inlen])
    {
      if start > 0 {
        forall k | 0 <= k < inlen - start {
          inbuf[k] := inbuf[start + k];
        }
        inlen := inlen - start;
      }
    }

    /** Answers the line that ends before `end`, unless its beginning was refused already. */
    method FinishLine(start: nat, end: nat) returns (responses: seq<Reply>, ghost events: seq<Event>)
      requires start <= end < inbuf.Length == LINE_MAX
      modifies this`oversize
      ensures !oversize && events == Finished(inbuf[start..end], old(oversize)) && responses == Responses(events)
    {
      responses, events := [], Finished(inbuf[start..end], oversize);
      if oversize {
        oversize := false;
      } else {
        responses := HandleLine(inbuf, start, end);
        ResponsesPush([], Handed(inbuf[start..end]));
        assert [] + responses == responses && [] + events == events;
      }
    }

    /** Goes over byte `i`, which may complete the line that starts at `start`. */
    method ScanByte(start: nat, i: nat, responses: seq<Reply>, ghost buffer: string, ghost events: seq<Event>)
      returns (responses': seq<Reply>, start': nat, ghost events': seq<Event>)
      requires start <= i < inlen <= inbuf.Length == LINE_MAX && buffer == inbuf[..inlen]
      requires responses == Responses(events)
      modifies this`oversize
      ensures start' == if buffer[i] == '\n' then i + 1 else start
      ensures Then(events', Scanned(buffer, start', i + 1, oversize))
              == Then(events, Scanned(buffer, start, i, old(oversize)))
      ensures responses' == Responses(events')
    {
      responses', start', events' := responses, start, events;
      ScanStep(events, buffer, start, i, oversize);
      if inbuf[i] == '\n' {
        assert inbuf[start..i] == buffer[start..i];
        ghost var e;
        var more;
        more, e := FinishLine(start, i);
        ResponsesAppend(events, e);
        responses', start', events' := responses + more, i + 1, events + e;
      }
    }

    /** Answers the complete lines in the buffer; `start` is where the unfinished one begins. */
    method ScanLines() returns (responses: seq<Reply>, start: nat, ghost events: seq<Event>)
      requires inbuf.Length == LINE_MAX && inlen <= LINE_MAX
      modifies this`oversize
      ensures start <= inlen && forall k :: start <= k < inlen ==> inbuf[k] != '\n'
      ensures Run(Reader("", old(oversize)), inbuf[..inlen], 0)
              == Then(events, Scanned(inbuf[..inlen], start, inlen, oversize))
      ensures responses == Responses(events)
    {
      ghost var buffer, all := inbuf[..inlen], Run(Reader("", oversize), inbuf[..inlen], 0);
      events, responses, start := [], [], 0;
      ScanBegin(buffer, oversize);
      for i := 0 to inlen
        invariant 0 <= start <= i && inbuf[..inlen] == buffer
        invariant forall k :: start <= k < i ==> buffer[k] != '\n'
        invariant all == Then(events, Scanned(buffer, start, i, oversize))
        invariant responses == Responses(events)
      {
        responses, start, events := ScanByte(start, i, responses, buffer, events);
      }
      assert inbuf[..inlen] == buffer;
    }

    method ConsumeLines() returns (responses: seq<Reply>)
      requires inbuf.Length == LINE_MAX && inlen <= LINE_MAX
      modifies this, inbuf
      ensures Valid()
      ensures var (r, events) := Run(Reader("", old(oversize)), old(inbuf[..inlen]), 0);
        State() == r && responses == Responses(events)
    {
      var start: nat;
      ghost var events: seq<Event>;
      ghost var buffer := inbuf[..inlen];
      responses, start, events := ScanLines();
      ScanEnd(events, buffer, start, oversize);
      ghost var rest := buffer[start..];
      assert inbuf[start..inlen] == rest;
      assert forall k :: 0 <= k < |rest| ==> rest[k] == inbuf[start + k];
      Compact(start);
      assert forall k :: 0 <= k < inlen ==> inbuf[k] == rest[k];
      if inlen == inbuf.Length {
        responses := responses + [RefuseLine];
        ResponsesPush(events, LineTooLong);
        inlen := 0;
        oversize := true;
      }
    }

    /** One `read` of `n` bytes, and what it completes. */
    method ReadChunk(chunk: string) returns (responses: seq<Reply>)
      requires Valid() && inlen + |chunk| <= LINE_MAX
      modifies this, inbuf
      ensures Valid()
      ensures var (r, events) := Run(old(State()), chunk, 0);
        State() == r && responses == Responses(events)
    {
      ghost var r := State();
      forall k | 0 <= k < |chunk| {
        inbuf[inlen + k] := chunk[k];
      }
      inlen := inlen + |chunk|;
      assert inbuf[..inlen] == r.pending + chunk;
      assert r.pending[..0] == "";
      Refeed(r.pending, r.oversize, chunk, 0);
      responses := ConsumeLines();
    }

    /**
     * The read loop: takes everything the kernel has, in chunks whose sizes the kernel
     * picks, up to the room left in the buffer.
     */
    method HandleReadable(input: string) returns (responses: seq<Reply>)
      requires Valid()
      modifies this, inbuf
      ensures Valid()
      ensures var (r, events) := Run(old(State()), input, 0);
        State() == r && responses == Responses(events)
    {
      ghost var first := State();
      ghost var events: seq<Event> := [];
      responses := [];
      var pos := 0;
      ThenNothing(Run(first, input, 0));
      while pos < |input|
        invariant pos <= |input| && Valid()
        invariant Run(first, input, 0) == Then(events, Run(State(), input, pos))
        invariant responses == Responses(events)
      {
        var n: nat :| 1 <= n <= inbuf.Length - inlen && pos + n <= |input|;
        ghost var e := Run(State(), input[pos..pos + n], 0).1;
        ChunkRead(events, State(), input, pos, n);
        var more := ReadChunk(input[pos..pos + n]);
        responses := responses + more;
        ResponsesAppend(events, e);
        events := events + e;
        pos := pos + n;
      }
      assert events + [] == events;
    }
  }
}
