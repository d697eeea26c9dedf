/**
 * Replies on the control connection: the server frames a body between %begin and %end,
 * doubling a percent that starts a body line; the client takes the frame apart again.
 */
module ReplyFrame {
  import opened CStrings
  import opened Decimal

  const REPLY_MAX: nat := 8192
  const TAIL_RESERVE: nat := 64
  const CAP: nat := REPLY_MAX - TAIL_RESERVE

  /** What the C types of the timestamp, the request id and the flag admit. */
  predicate InRange(ts: int, id: int, flag: int) {
    && -0x8000_0000_0000_0000 <= ts < 0x8000_0000_0000_0000
    && 0 <= id < 0x1_0000_0000
    && -0x8000_0000 <= flag < 0x8000_0000
  }

  function BeginLine(ts: int, id: int): string {
    "%begin " + Dec(ts) + " " + Dec(id) + " 0\n"
  }

  function EndText(ts: int, id: int, flag: int): string {
    "%end " + Dec(ts) + " " + Dec(id) + " " + Dec(flag)
  }

  function EndLine(ts: int, id: int, flag: int): string {
    EndText(ts, id, flag) + "\n"
  }

  /** The body from `i` on, with a percent doubled where it starts a line. */
  function Escaped(body: string, i: nat, atStart: bool): string
    requires i <= |body|
    decreases |body| - i
  {
    if i == |body| then ""
    else (if atStart && body[i] == '%' then "%%" else [body[i]]) + Escaped(body, i + 1, body[i] == '\n')
  }

  /** As much of it as `room` bytes take; a doubled percent is never torn apart. */
  function EscapedWithin(body: string, i: nat, atStart: bool, room: nat): string
    requires i <= |body|
    decreases |body| - i
  {
    if i == |body| || room == 0 then ""
    else if atStart && body[i] == '%' then
      if room == 1 then "" else "%%" + EscapedWithin(body, i + 1, false, room - 2)
    else [body[i]] + EscapedWithin(body, i + 1, body[i] == '\n', room - 1)
  }

  /** The body as it goes out behind `used` header bytes. */
  function BodyPart(used: nat, body: string): string
    requires used <= CAP
  {
    if body == "" then "" else
      var text := EscapedWithin(body, 0, true, CAP - used);
      text + if used + |text| < CAP then "\n" else ""
  }

  /** The bytes of a reply. */
  function Wire(ts: int, id: int, flag: int, body: string): string
    requires |BeginLine(ts, id)| <= CAP
  {
    BeginLine(ts, id) + BodyPart(|BeginLine(ts, id)|, body) + EndLine(ts, id, flag)
  }

  /** The frame the protocol asks for. */
  function Frame(ts: int, id: int, flag: int, body: string): string {
    BeginLine(ts, id) + (if body == "" then "" else Escaped(body, 0, true) + "\n") + EndLine(ts, id, flag)
  }

  // ---- Sizes ----

  lemma HeaderFits(ts: int, id: int, flag: int)
    requires InRange(ts, id, flag)
    ensures |BeginLine(ts, id)| <= 41 && |EndLine(ts, id, flag)| < TAIL_RESERVE
  {
    IntegerWidths();
    DigitsLength(if ts < 0 then -ts else ts, 19);
    DigitsLength(id, 10);
    DigitsLength(if flag < 0 then -flag else flag, 10);
  }

  lemma {:induction false} EscapedSize(body: string, i: nat, atStart: bool)
    requires i <= |body|
    ensures var n := |body| - i; |Escaped(body, i, atStart)| <= n + (if atStart then (n + 1) / 2 else n / 2)
    decreases |body| - i
  {
    if i < |body| {
      EscapedSize(body, i + 1, body[i] == '\n');
    }
  }

  lemma {:induction false} Untruncated(body: string, i: nat, atStart: bool, room: nat)
    requires i <= |body|
    ensures |EscapedWithin(body, i, atStart, room)| <= room
    ensures |Escaped(body, i, atStart)| <= room ==>
              EscapedWithin(body, i, atStart, room) == Escaped(body, i, atStart)
    decreases |body| - i
  {
    if i < |body| && room > 0 {
      var w := if atStart && body[i] == '%' then 2 else 1;
      if w <= room {
        Untruncated(body, i + 1, body[i] == '\n', room - w);
      }
    }
  }

  lemma BodyComplete(used: nat, body: string)
    requires used <= CAP
    ensures BodyPart(used, body) == (if body == "" then "" else Escaped(body, 0, true) + "\n")
            <==> body == "" || used + |Escaped(body, 0, true)| < CAP
  {
    Untruncated(body, 0, true, CAP - used);
  }

  lemma SameMiddle(a: string, x: string, y: string, b: string)
    ensures a + x + b == a + y + b <==> x == y
  {
    if a + x + b == a + y + b {
      assert |x| == |y|;
      assert x == (a + x + b)[|a|..|a + x|];
      assert y == (a + y + b)[|a|..|a + y|];
    }
  }

  /** A reply is the complete frame exactly when the escaped body and its newline fit. */
  lemma CompleteExactlyWhen(ts: int, id: int, flag: int, body: string)
    requires InRange(ts, id, flag)
    ensures |BeginLine(ts, id)| <= CAP
    ensures Wire(ts, id, flag, body) == Frame(ts, id, flag, body)
            <==> body == "" || |BeginLine(ts, id)| + |Escaped(body, 0, true)| < CAP
  {
    HeaderFits(ts, id, flag);
    BodyComplete(|BeginLine(ts, id)|, body);
    SameMiddle(BeginLine(ts, id), BodyPart(|BeginLine(ts, id)|, body),
               if body == "" then "" else Escaped(body, 0, true) + "\n", EndLine(ts, id, flag));
  }

  /** No body the server can produce is ever cut off. */
  lemma NeverTruncated(ts: int, id: int, flag: int, body: string)
    requires InRange(ts, id, flag) && |body| <= 4095
    ensures |BeginLine(ts, id)| + |Escaped(body, 0, true)| < CAP
    ensures Wire(ts, id, flag, body) == Frame(ts, id, flag, body)
  {
    HeaderFits(ts, id, flag);
    EscapedSize(body, 0, true);
    CompleteExactlyWhen(ts, id, flag, body);
  }

  // ---- The frame, spelled out ----

  /** The marker lines name the time stamp, the request and the flag in decimal. */
  lemma MarkersMean(ts: int, id: int, flag: int) returns (t: string, i: string, f: string)
    ensures Atoi(t) == ts && Atoi(i) == id && Atoi(f) == flag && t == Dec(ts) && i == Dec(id) && f == Dec(flag)
    ensures BeginLine(ts, id) == "%begin " + t + " " + i + " 0\n"
    ensures EndLine(ts, id, flag) == "%end " + t + " " + i + " " + f + "\n"
  {
    t, i, f := Dec(ts), Dec(id), Dec(flag);
    AtoiOfDec(ts);
    AtoiOfDec(id);
    AtoiOfDec(flag);
  }

  lemma {:induction false} CutIsPrefix(body: string, i: nat, atStart: bool, room: nat)
    requires i <= |body|
    ensures var cut, all := EscapedWithin(body, i, atStart, room), Escaped(body, i, atStart);
      cut <= all && |cut| <= room && (cut != all ==> room <= |cut| + 1)
    decreases |body| - i
  {
    if i < |body| && room > 0 {
      var w := if atStart && body[i] == '%' then 2 else 1;
      if w <= room {
        CutIsPrefix(body, i + 1, body[i] == '\n', room - w);
      }
    }
  }

  /** An overlong body is cut to the reserve, or one byte before it where a doubled percent would tear. */
  lemma CutReply(ts: int, id: int, flag: int, body: string) returns (cut: string)
    requires InRange(ts, id, flag) && body != "" && |BeginLine(ts, id)| + |Escaped(body, 0, true)| >= 8128
    ensures |BeginLine(ts, id)| <= CAP && cut <= Escaped(body, 0, true)
    ensures 8127 <= |BeginLine(ts, id)| + |cut| <= 8128
    ensures Wire(ts, id, flag, body)
            == BeginLine(ts, id) + (cut + (if |BeginLine(ts, id)| + |cut| < 8128 then "\n" else ""))
               + EndLine(ts, id, flag)
  {
    HeaderFits(ts, id, flag);
    cut := EscapedWithin(body, 0, true, CAP - |BeginLine(ts, id)|);
    CutIsPrefix(body, 0, true, CAP - |BeginLine(ts, id)|);
  }

  // ---- The server ----

  /** Prints `text` and a NUL behind the `front` already in the buffer. */
  method Print(buf: array<char>, len: nat, text: string, ghost front: string)
    requires len == |front| && len + |text| < buf.Length
    requires forall k :: 0 <= k < len ==> buf[k] == front[k]
    modifies buf
    ensures forall k :: 0 <= k < len + |text| ==> buf[k] == (front + text)[k]
  {
    forall k | 0 <= k < |text| {
      buf[len + k] := text[k];
    }
    buf[len + |text|] := NUL;
  }

  lemma CopyStep(written: string, body: string, i: nat, atStart: bool, room: nat)
    requires i < |body| && room > 0
    ensures var all := written + EscapedWithin(body, i, atStart, room);
      var next := body[i] == '\n';
      if !(atStart && body[i] == '%') then
        all == (written + [body[i]]) + EscapedWithin(body, i + 1, next, room - 1)
      else if room == 1 then all == written
      else all == (written + "%" + [body[i]]) + EscapedWithin(body, i + 1, next, room - 2)
  {
    if atStart && body[i] == '%' && room > 1 {
      var more := EscapedWithin(body, i + 1, false, room - 2);
      assert written + ("%%" + more) == (written + "%" + ['%']) + more;
    }
  }

  /** Copies a body behind `front`, escaping line starts, as far as `cap` allows. */
  method CopyBody(buf: array<char>, start: nat, cap: nat, body: string, ghost front: string) returns (len: nat)
    requires start == |front| <= cap <= buf.Length
    requires forall k :: 0 <= k < start ==> buf[k] == front[k]
    modifies buf
    ensures var text := EscapedWithin(body, 0, true, cap - start);
      len == start + |text| <= cap && forall k :: 0 <= k < len ==> buf[k] == (front + text)[k]
  {
    len := start;
    var atStart, i := true, 0;
    ghost var written := front;
    while i < |body| && len < cap
      invariant i <= |body| && len == |written| <= cap
      invariant forall k :: 0 <= k < len ==> buf[k] == written[k]
      invariant written + EscapedWithin(body, i, atStart, cap - len)
                == front + EscapedWithin(body, 0, true, cap - start)
      decreases |body| - i
    {
      CopyStep(written, body, i, atStart, cap - len);
      if atStart && body[i] == '%' {
        if len + 1 >= cap {
          break;
        }
        buf[len] := '%';
        len := len + 1;
        written := written + "%";
      }
      buf[len] := body[i];
      len := len + 1;
      written := written + [body[i]];
      atStart := body[i] == '\n';
      i := i + 1;
    }
    Untruncated(body, i, atStart, cap - len);
    assert written + "" == written;
  }

  method WriteBody(buf: array<char>, start: nat, body: string, ghost front: string) returns (len: nat)
    requires start == |front| <= CAP && buf.Length == REPLY_MAX
    requires forall k :: 0 <= k < start ==> buf[k] == front[k]
    modifies buf
    ensures len == |front + BodyPart(start, body)| <= CAP
    ensures forall k :: 0 <= k < len ==> buf[k] == (front + BodyPart(start, body))[k]
  {
    len := start;
    if body != "" {
      len := CopyBody(buf, len, buf.Length - TAIL_RESERVE, body, front);
      if len < buf.Length - TAIL_RESERVE {
        buf[len] := '\n';
        len := len + 1;
      }
    }
  }

  /** Builds a reply in the scratch buffer; `sent` is false where the code would give up. */
  method Reply(buf: array<char>, ts: int, id: int, flag: int, body: string) returns (len: nat, sent: bool)
    requires buf.Length == REPLY_MAX && InRange(ts, id, flag) && NulFree(body)
    modifies buf
    ensures |BeginLine(ts, id)| <= CAP && sent && len <= REPLY_MAX
    ensures buf[..len] == Wire(ts, id, flag, body)
  {
    HeaderFits(ts, id, flag);
    len, sent := 0, false;
    var begin, end := BeginLine(ts, id), EndLine(ts, id, flag);
    if |begin| >= buf.Length {
      return;
    }
    Print(buf, 0, begin, "");
    assert "" + begin == begin;
    len := WriteBody(buf, |begin|, body, begin);
    if |end| >= buf.Length - len {
      return;
    }
    Print(buf, len, end, begin + BodyPart(|begin|, body));
    len := len + |end|;
    sent := true;
  }
}
