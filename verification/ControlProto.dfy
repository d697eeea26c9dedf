/**
 * The request-line codec shared by the control server and its client: argument
 * lists joined with backslash escapes, and split again inside the line buffer.
 */
module ControlProto {
  import opened Common
  import opened CStrings

  // ---- What a line means ----

  function Decode(e: char): char {
    if e == 'n' then '\n' else if e == 't' then '\t' else e
  }

  /** The text of the token that starts at `i`, decoded up to an unescaped space. */
  function TokenAt(s: string, i: nat): (token: string)
    requires i <= |s|
    decreases |s| - i
  {
    if i == |s| || s[i] == ' ' then ""
    else if s[i] == '\\' && i + 1 < |s| then [Decode(s[i + 1])] + TokenAt(s, i + 2)
    else [s[i]] + TokenAt(s, i + 1)
  }

  lemma TokenNulFree(s: string, i: nat)
    requires i <= |s| && NulFree(s)
    ensures NulFree(TokenAt(s, i))
    decreases |s| - i
  {
  }

  /** Where that token ends: an unescaped space or the end of the line. */
  function TokenEnd(s: string, i: nat): (end: nat)
    requires i <= |s|
    ensures i <= end <= |s| && (end < |s| ==> s[end] == ' ')
    decreases |s| - i
  {
    if i == |s| || s[i] == ' ' then i
    else if s[i] == '\\' && i + 1 < |s| then TokenEnd(s, i + 2)
    else TokenEnd(s, i + 1)
  }

  function SkipSpaces(s: string, i: nat): (j: nat)
    requires i <= |s|
    ensures i <= j <= |s| && (j < |s| ==> s[j] != ' ')
    decreases |s| - i
  {
    if i < |s| && s[i] == ' ' then SkipSpaces(s, i + 1) else i
  }

  /** Where the text after that token and its separator starts. */
  function AfterToken(s: string, i: nat): (next: nat)
    requires i < |s| && s[i] != ' '
    ensures i < next <= |s|
  {
    var end := TokenEnd(s, i);
    if end == |s| then end else end + 1
  }

  /** The argument list spelled by the line from `i` on. */
  function TokensFrom(s: string, i: nat): (args: seq<string>)
    requires i <= |s|
    decreases |s| - i
  {
    var j := SkipSpaces(s, i);
    if j == |s| then [] else [TokenAt(s, j)] + TokensFrom(s, AfterToken(s, j))
  }

  function Tokens(s: string): seq<string> {
    TokensFrom(s, 0)
  }

  function EscapeChar(c: char): (e: string)
    ensures 1 <= |e| <= 2
  {
    match c
    case '\\' => "\\\\"
    case ' ' => "\\ "
    case '\n' => "\\n"
    case '\t' => "\\t"
    case _ => [c]
  }

  function EscapeFrom(token: string, j: nat): string
    requires j <= |token|
    decreases |token| - j
  {
    if j == |token| then "" else EscapeChar(token[j]) + EscapeFrom(token, j + 1)
  }

  function JoinFrom(args: seq<string>, i: nat): string
    requires i <= |args|
    decreases |args| - i
  {
    if i == |args| then ""
    else (if i > 0 then " " else "") + (EscapeFrom(args[i], 0) + JoinFrom(args, i + 1))
  }

  /** The request line for an argument list. */
  function Joined(args: seq<string>): string {
    JoinFrom(args, 0)
  }

  // ---- The format, spelled out ----

  /** A one-pass lexer: `cur` is the token being read, if any. */
  function Lex(s: string, cur: Option<string>): seq<string>
    decreases |s|
  {
    if s == "" then (if cur.Some? then [cur.value] else [])
    else if s[0] == ' ' then (if cur.Some? then [cur.value] else []) + Lex(s[1..], None)
    else
      var t := if cur.Some? then cur.value else "";
      if s[0] == '\\' && |s| > 1 then
        Lex(s[2..], Some(t + [if s[1] == 'n' then '\n' else if s[1] == 't' then '\t' else s[1]]))
      else Lex(s[1..], Some(t + [s[0]]))
  }

  lemma {:induction false} LexSkips(s: string, i: nat)
    requires i <= |s|
    ensures Lex(s[i..], None) == Lex(s[SkipSpaces(s, i)..], None)
    decreases |s| - i
  {
    if i < |s| && s[i] == ' ' {
      assert s[i..][1..] == s[i + 1..];
      LexSkips(s, i + 1);
      assert [] + Lex(s[i + 1..], None) == Lex(s[i + 1..], None);
    }
  }

  /** In the middle of a token: what is left of it, and then the rest. */
  lemma {:induction false} LexToken(s: string, i: nat, t: string)
    requires i <= |s|
    ensures var end := TokenEnd(s, i);
      Lex(s[i..], Some(t)) == [t + TokenAt(s, i)] + if end == |s| then [] else Lex(s[end + 1..], None)
    decreases |s| - i
  {
    if i == |s| || s[i] == ' ' {
      assert t + "" == t;
      if i < |s| {
        assert s[i..][1..] == s[i + 1..];
      }
    } else {
      var next, c := if s[i] == '\\' && i + 1 < |s| then i + 2 else i + 1,
                     if s[i] == '\\' && i + 1 < |s| then Decode(s[i + 1]) else s[i];
      assert s[i..][next - i..] == s[next..];
      LexToken(s, next, t + [c]);
      assert (t + [c]) + TokenAt(s, next) == t + TokenAt(s, i);
    }
  }

  /** A token that starts is a token that was empty so far. */
  lemma LexStarts(s: string)
    requires s != "" && s[0] != ' '
    ensures Lex(s, None) == Lex(s, Some(""))
  {
  }

  lemma {:induction false} LexFrom(s: string, i: nat)
    requires i <= |s|
    ensures TokensFrom(s, i) == Lex(s[i..], None)
    decreases |s| - i
  {
    var j := SkipSpaces(s, i);
    LexSkips(s, i);
    if j < |s| {
      LexFrom(s, AfterToken(s, j));
      LexStarts(s[j..]);
      LexToken(s, j, "");
      assert "" + TokenAt(s, j) == TokenAt(s, j);
    }
  }

  /** Every line, however it came about, has the tokens that the lexer finds. */
  lemma TokensAreLexed(s: string)
    ensures Tokens(s) == Lex(s, None)
  {
    LexFrom(s, 0);
    assert s[0..] == s;
  }

  /** The escapes of a joined line. */
  lemma JoinedCharacter(c: char)
    ensures Joined([[c]]) == if c == '\\' then "\\\\" else if c == ' ' then "\\ "
                             else if c == '\n' then "\\n" else if c == '\t' then "\\t" else [c]
  {
    assert EscapeFrom([c], 1) == "";
    assert JoinFrom([[c]], 1) == "";
    assert EscapeChar(c) + "" == EscapeChar(c) && "" + (EscapeChar(c) + "") == EscapeChar(c);
  }

  lemma {:induction false} EscapeShifted(a: string, b: string, k: nat)
    requires k <= |b|
    ensures EscapeFrom(a + b, |a| + k) == EscapeFrom(b, k)
    decreases |b| - k
  {
    if k < |b| {
      EscapeShifted(a, b, k + 1);
    }
  }

  lemma {:induction false} EscapeBoth(a: string, b: string, j: nat)
    requires j <= |a|
    ensures EscapeFrom(a + b, j) == EscapeFrom(a, j) + EscapeFrom(b, 0)
    decreases |a| - j
  {
    if j == |a| {
      EscapeShifted(a, b, 0);
    } else {
      EscapeBoth(a, b, j + 1);
      Associative(EscapeChar(a[j]), EscapeFrom(a, j + 1), EscapeFrom(b, 0));
    }
  }

  lemma JoinedOne(a: string)
    ensures Joined([a]) == EscapeFrom(a, 0)
  {
    assert JoinFrom([a], 1) == "";
    assert EscapeFrom(a, 0) + "" == EscapeFrom(a, 0) && "" + EscapeFrom(a, 0) == EscapeFrom(a, 0);
  }

  /** An argument is escaped character by character. */
  lemma JoinedText(a: string, b: string)
    ensures Joined([a + b]) == Joined([a]) + Joined([b])
  {
    JoinedOne(a + b);
    JoinedOne(a);
    JoinedOne(b);
    EscapeBoth(a, b, 0);
  }

  lemma {:induction false} JoinFromMore(args: seq<string>, x: string, i: nat)
    requires i <= |args|
    ensures JoinFrom(args + [x], i) == JoinFrom(args, i) + ((if args == [] then "" else " ") + EscapeFrom(x, 0))
    decreases |args| - i
  {
    var sep, last := if i > 0 then " " else "", (if args == [] then "" else " ") + EscapeFrom(x, 0);
    if i == |args| {
      assert JoinFrom(args + [x], i + 1) == "" && EscapeFrom(x, 0) + "" == EscapeFrom(x, 0);
      assert "" + last == last;
    } else {
      JoinFromMore(args, x, i + 1);
      Associative(EscapeFrom(args[i], 0), JoinFrom(args, i + 1), last);
      Associative(sep, EscapeFrom(args[i], 0) + JoinFrom(args, i + 1), last);
    }
  }

  /** One space between two arguments. */
  lemma JoinedMore(args: seq<string>, x: string)
    ensures Joined([]) == "" && Joined([""]) == ""
    ensures args != [] ==> Joined(args + [x]) == Joined(args) + (" " + Joined([x]))
  {
    JoinFromMore(args, x, 0);
    JoinedOne(x);
    JoinedOne("");
  }

  // ---- In-place splitting ----

  /** The unread part of a line: from `src` on, the buffer still holds `text` and its NUL. */
  ghost predicate Unread(line: array<char>, text: string, src: nat)
    reads line
  {
    && src <= |text| < line.Length && NulFree(text)
    && line[|text|] == NUL
    && forall i :: src <= i < |text| ==> line[i] == text[i]
  }

  /** How many characters of an escaped token one step of the copy reads, and what it writes. */
  lemma CopyStep(text: string, was: nat, src: nat, c: char, token: string)
    requires was < src <= |text| && text[was] != ' '
    requires if text[was] == '\\' && was + 1 < |text| then src == was + 2 && c == Decode(text[was + 1])
             else src == was + 1 && c == text[was]
    ensures token + TokenAt(text, was) == (token + [c]) + TokenAt(text, src)
    ensures TokenEnd(text, was) == TokenEnd(text, src)
  {
    assert TokenAt(text, was) == [c] + TokenAt(text, src);
    Associative(token, [c], TokenAt(text, src));
  }

  /** Decodes one token from `line[from..]` to `line[to..]`, the same buffer. */
  method CopyToken(line: array<char>, from: nat, to: nat, ghost text: string) returns (src: nat, dst: nat)
    requires to <= from && Unread(line, text, from)
    modifies line
    ensures src == TokenEnd(text, from) && dst == to + |TokenAt(text, from)| <= src
    ensures forall k :: to <= k < dst ==> line[k] == TokenAt(text, from)[k - to]
    ensures forall i :: 0 <= i < line.Length && !(to <= i < dst) ==> line[i] == old(line[i])
  {
    src, dst := from, to;
    ghost var token := "";
    while line[src] != NUL && line[src] != ' '
      invariant from <= src <= |text| && dst == to + |token| <= src
      invariant forall i :: 0 <= i < line.Length && !(to <= i < dst) ==> line[i] == old(line[i])
      invariant forall k :: to <= k < dst ==> line[k] == token[k - to]
      invariant token + TokenAt(text, src) == TokenAt(text, from)
      invariant TokenEnd(text, src) == TokenEnd(text, from)
      decreases |text| - src
    {
      ghost var was := src;
      var c := line[src];
      if line[src] == '\\' && line[src + 1] != NUL {
        var e := line[src + 1];
        c := if e == 'n' then '\n' else if e == 't' then '\t' else e;
        src := src + 2;
      } else {
        src := src + 1;
      }
      CopyStep(text, was, src, c, token);
      token := token + [c];
      line[dst] := c;
      dst := dst + 1;
    }
  }

  /** Copies one token and terminates it; `mem` is what the buffer's front held before. */
  method TakeArg(line: array<char>, from: nat, to: nat, ghost text: string, ghost mem: string)
    returns (src: nat, dst: nat)
    requires to == |mem| <= from < |text| && text[from] != ' '
    requires Unread(line, text, from) && forall i :: 0 <= i < to ==> line[i] == mem[i]
    modifies line
    ensures src == AfterToken(text, from) && Unread(line, text, src)
    ensures dst == |mem| + |TokenAt(text, from)| + 1 <= |text| + 1
    ensures forall i :: 0 <= i < dst ==> line[i] == (mem + TokenAt(text, from) + [NUL])[i]
    ensures dst <= src || src == |text| == dst - 1
    ensures forall i :: |text| < i < line.Length ==> line[i] == old(line[i])
  {
    src, dst := CopyToken(line, from, to, text);
    if line[src] == ' ' {
      src := src + 1;
    }
    line[dst] := NUL;
    dst := dst + 1;
  }

  lemma TextInBuffer(line: array<char>, text: string)
    requires NUL in line[..] && text == UpToNul(line[..])
    ensures Unread(line, text, 0)
  {
    UpToNulShorter(line[..]);
    assert line[..][..|text|] == text;
  }

  /** Skips the spaces before a token. */
  method SkipRun(line: array<char>, start: nat, ghost text: string) returns (src: nat)
    requires Unread(line, text, start)
    ensures src == SkipSpaces(text, start)
  {
    src := start;
    while line[src] == ' '
      invariant start <= src <= |text| && SkipSpaces(text, start) == SkipSpaces(text, src)
      decreases |text| - src
    {
      src := src + 1;
    }
  }

  /** The buffer front `mem` holds the strings `parsed` at the offsets `starts`. */
  ghost predicate AllHeld(mem: string, starts: seq<nat>, parsed: seq<string>) {
    |starts| == |parsed| && forall k :: 0 <= k < |parsed| ==> HoldsAt(mem, starts[k], parsed[k])
  }

  lemma AllHeldPrefix(mem: string, mem': string, starts: seq<nat>, parsed: seq<string>)
    requires AllHeld(mem, starts, parsed) && mem <= mem'
    ensures AllHeld(mem', starts, parsed)
  {
    forall k | 0 <= k < |parsed| ensures HoldsAt(mem', starts[k], parsed[k]) {
      HoldsAtPrefix(mem, mem', starts[k], parsed[k]);
    }
  }

  lemma NextToken(parsed: seq<string>, text: string, start: nat, src: nat)
    requires start <= |text| && src == SkipSpaces(text, start) < |text|
    ensures var rest := TokensFrom(text, AfterToken(text, src));
      parsed + TokensFrom(text, start) == (parsed + [TokenAt(text, src)]) + rest
  {
  }

  /** Appending a terminated token keeps the earlier ones readable and adds one. */
  lemma TokenTerminated(mem: string, token: string, starts: seq<nat>, parsed: seq<string>)
    requires AllHeld(mem, starts, parsed) && NulFree(token)
    ensures AllHeld(mem + token + [NUL], starts + [|mem|], parsed + [token])
  {
    var mem' := mem + token + [NUL];
    AllHeldPrefix(mem, mem', starts, parsed);
  }

  /**
   * Splits the C string in `line` into tokens, unescaping toward the front of the
   * same buffer. `argv[k]` is the offset of token k. The write cursor `dst` never
   * passes the read cursor `src` while there is text left to read.
   */
  method Split(line: array<char>, max: nat) returns (argc: int, argv: seq<nat>)
    requires NUL in line[..]
    modifies line
    ensures var args := Tokens(UpToNul(old(line[..])));
      && argc == (if |args| <= max then |args| else -1)
      && (argc >= 0 ==> AllHeld(line[..], argv, args))
    ensures forall i :: |UpToNul(old(line[..]))| < i < line.Length ==> line[i] == old(line[i])
  {
    ghost var text := UpToNul(line[..]);
    TextInBuffer(line, text);
    // What has been written so far: the buffer's front and the tokens in it.
    ghost var mem, parsed := "", [];
    var src, dst := 0, 0;
    argv := [];
    while line[src] != NUL
      invariant Unread(line, text, src) && dst == |mem| <= |text| + 1
      invariant dst <= src || src == |text|
      invariant forall i :: |text| < i < line.Length ==> line[i] == old(line[i])
      invariant forall i :: 0 <= i < dst ==> line[i] == mem[i]
      invariant |argv| <= max && AllHeld(mem, argv, parsed)
      invariant parsed + TokensFrom(text, src) == Tokens(text)
      decreases |text| - src
    {
      ghost var start := src;
      src := SkipRun(line, src, text);
      if line[src] == NUL {
        break;
      }
      ghost var token := TokenAt(text, src);
      NextToken(parsed, text, start, src);
      if |argv| >= max {
        return -1, argv;
      }
      TokenNulFree(text, src);
      TokenTerminated(mem, token, argv, parsed);
      argv := argv + [dst];
      src, dst := TakeArg(line, src, dst, text, mem);
      mem, parsed := mem + token + [NUL], parsed + [token];
    }
    AllHeldPrefix(mem, line[..], argv, parsed);
    argc := |argv|;
  }

  // ---- Joining ----

  /** Copies `piece` behind the `text` already in the buffer. */
  method Append(out: array<char>, len: nat, piece: string, ghost text: string) returns (end: nat)
    requires len == |text| && len + |piece| <= out.Length
    requires forall k :: 0 <= k < len ==> out[k] == text[k]
    modifies out
    ensures end == len + |piece|
    ensures forall k :: 0 <= k < end ==> out[k] == (text + piece)[k]
  {
    forall k | 0 <= k < |piece| {
      out[len + k] := piece[k];
    }
    end := len + |piece|;
  }

  /** Escapes one token behind `text`; `rest` is what the whole line still needs after it. */
  method JoinToken(out: array<char>, cap: nat, len: nat, token: string, ghost text: string, ghost rest: string)
    returns (end: int)
    requires len == |text| && (len == 0 || len < cap) && cap <= out.Length
    requires forall k :: 0 <= k < len ==> out[k] == text[k]
    modifies out
    ensures end == -1 ==> |text + (EscapeFrom(token, 0) + rest)| >= cap
    ensures end != -1 ==> end == |text + EscapeFrom(token, 0)| && (end == 0 || end < cap)
    ensures end != -1 ==> forall k :: 0 <= k < end ==> out[k] == (text + EscapeFrom(token, 0))[k]
  {
    end := len;
    ghost var written := text;
    assert text + EscapeFrom(token, 0) == written + EscapeFrom(token, 0);
    for j := 0 to |token|
      invariant end == |written| && (end == 0 || end < cap)
      invariant forall k :: 0 <= k < end ==> out[k] == written[k]
      invariant written + EscapeFrom(token, j) == text + EscapeFrom(token, 0)
    {
      var esc := EscapeChar(token[j]);
      Associative(written, esc, EscapeFrom(token, j + 1));
      if end + |esc| >= cap {
        return -1;
      }
      end := Append(out, end, esc, written);
      written := written + esc;
    }
    assert written == text + EscapeFrom(token, 0);
  }

  lemma JoinStep(text: string, args: seq<string>, i: nat)
    requires i < |args|
    ensures var text' := if i > 0 then text + " " else text;
      && text + JoinFrom(args, i) == text' + (EscapeFrom(args[i], 0) + JoinFrom(args, i + 1))
      && text + JoinFrom(args, i) == (text' + EscapeFrom(args[i], 0)) + JoinFrom(args, i + 1)
  {
    var more := EscapeFrom(args[i], 0) + JoinFrom(args, i + 1);
    var sep := if i > 0 then " " else "";
    Associative(text, sep, more);
    Associative(text + sep, EscapeFrom(args[i], 0), JoinFrom(args, i + 1));
    assert text + "" == text;
  }

  method Join(out: array<char>, cap: nat, args: seq<string>) returns (len: int)
    requires cap <= out.Length
    modifies out
    ensures |Joined(args)| < cap ==>
              len == |Joined(args)| && out[..len] == Joined(args) && out[len] == NUL
    ensures |Joined(args)| >= cap ==> len == -1
  {
    len := 0;
    ghost var text := "";
    for i := 0 to |args|
      invariant len == |text| && (len == 0 || len < cap)
      invariant forall k :: 0 <= k < len ==> out[k] == text[k]
      invariant text + JoinFrom(args, i) == Joined(args)
    {
      JoinStep(text, args, i);
      if i > 0 {
        if len + 1 >= cap {
          return -1;
        }
        len := Append(out, len, " ", text);
        text := text + " ";
      }
      len := JoinToken(out, cap, len, args[i], text, JoinFrom(args, i + 1));
      if len == -1 {
        return;
      }
      text := text + EscapeFrom(args[i], 0);
    }
    assert text == Joined(args);
    if len >= cap {
      return -1;
    }
    out[len] := NUL;
  }

  // ---- Splitting undoes joining ----

  function One(arg: string): seq<string> {
    if arg == "" then [] else [arg]
  }

  /** The non-empty arguments from `i` on. */
  function NonEmptyFrom(args: seq<string>, i: nat): seq<string>
    requires i <= |args|
    decreases |args| - i
  {
    if i == |args| then [] else One(args[i]) + NonEmptyFrom(args, i + 1)
  }

  function NonEmpty(args: seq<string>): seq<string> {
    NonEmptyFrom(args, 0)
  }

  lemma SpaceSkipped(s: string, i: nat)
    requires i < |s| && s[i] == ' '
    ensures TokensFrom(s, i) == TokensFrom(s, i + 1)
  {
  }

  /** From `i` on, `s` reads `t` and ends. */
  ghost predicate Reads(s: string, i: nat, t: string) {
    |s| == i + |t| && forall k :: i <= k < |s| ==> s[k] == t[k - i]
  }

  lemma ReadsParts(s: string, i: nat, a: string, b: string)
    requires Reads(s, i, a + b)
    ensures forall k :: i <= k < i + |a| ==> s[k] == a[k - i]
    ensures Reads(s, i + |a|, b)
  {
    forall k | i <= k < |s|
      ensures k < i + |a| ==> s[k] == a[k - i]
      ensures k >= i + |a| ==> s[k] == b[k - i - |a|]
    {
      assert s[k] == (a + b)[k - i];
    }
  }

  lemma CharReadBack(s: string, i: nat, c: char, tail: string)
    requires i <= |s| && Reads(s, i, EscapeChar(c) + tail)
    ensures i < |s| && s[i] != ' '
    ensures var e := EscapeChar(c);
      && Reads(s, i + |e|, tail)
      && if s[i] == '\\' && i + 1 < |s| then |e| == 2 && c == Decode(s[i + 1]) else |e| == 1 && c == s[i]
  {
    ReadsParts(s, i, EscapeChar(c), tail);
  }

  lemma CharDecoded(s: string, i: nat, c: char, more: string, rest: string) returns (next: nat)
    requires i <= |s| && Reads(s, i, (EscapeChar(c) + more) + rest)
    ensures next <= |s| && Reads(s, next, more + rest)
    ensures TokenAt(s, i) == [c] + TokenAt(s, next) && TokenEnd(s, i) == TokenEnd(s, next)
  {
    var e := EscapeChar(c);
    assert (e + more) + rest == e + (more + rest);
    CharReadBack(s, i, c, more + rest);
    next := i + |e|;
    CopyStep(s, i, next, c, "");
  }

  lemma {:induction false} EscapeReadBack(s: string, i: nat, token: string, j: nat, rest: string)
    requires i <= |s| && j <= |token| && Reads(s, i, EscapeFrom(token, j) + rest)
    requires rest == "" || rest[0] == ' '
    ensures TokenAt(s, i) == token[j..] && TokenEnd(s, i) == |s| - |rest|
    decreases |token| - j
  {
    if j == |token| {
      assert EscapeFrom(token, j) + rest == rest;
    } else {
      var next := CharDecoded(s, i, token[j], EscapeFrom(token, j + 1), rest);
      EscapeReadBack(s, next, token, j + 1, rest);
      assert token[j..] == [token[j]] + token[j + 1..];
    }
  }

  lemma LaterStartsWithSpace(args: seq<string>, i: nat)
    requires 0 < i <= |args|
    ensures JoinFrom(args, i) == "" || JoinFrom(args, i)[0] == ' '
  {
  }

  lemma SeparatorReadBack(args: seq<string>, i: nat, s: string, p: nat) returns (q: nat)
    requires i < |args| && p <= |s| && Reads(s, p, JoinFrom(args, i))
    ensures q <= |s| && Reads(s, q, EscapeFrom(args[i], 0) + JoinFrom(args, i + 1))
    ensures TokensFrom(s, p) == TokensFrom(s, q)
  {
    var more := EscapeFrom(args[i], 0) + JoinFrom(args, i + 1);
    q := p;
    if i > 0 {
      q := p + 1;
      ReadsParts(s, p, " ", more);
      SpaceSkipped(s, p);
    } else {
      assert "" + more == more;
    }
  }

  lemma TokenReadBack(s: string, q: nat, token: string, end: nat)
    requires q < |s| && token != "" && s[q] == EscapeChar(token[0])[0]
    requires TokenAt(s, q) == token[0..] && TokenEnd(s, q) == end
    ensures TokensFrom(s, q) == [token] + TokensFrom(s, end)
  {
    assert s[q] != ' ';
    assert token[0..] == token;
    if end < |s| {
      SpaceSkipped(s, end);
    }
  }

  lemma OneReadBack(token: string, s: string, q: nat, rest: string) returns (end: nat)
    requires q <= |s| && Reads(s, q, EscapeFrom(token, 0) + rest)
    requires rest == "" || rest[0] == ' '
    ensures end <= |s| && Reads(s, end, rest)
    ensures TokensFrom(s, q) == One(token) + TokensFrom(s, end)
  {
    end := |s| - |rest|;
    ReadsParts(s, q, EscapeFrom(token, 0), rest);
    EscapeReadBack(s, q, token, 0, rest);
    if token != "" {
      TokenReadBack(s, q, token, end);
    }
  }

  lemma ArgReadBack(args: seq<string>, i: nat, s: string, p: nat) returns (end: nat)
    requires i < |args| && p <= |s| && Reads(s, p, JoinFrom(args, i))
    ensures end <= |s| && Reads(s, end, JoinFrom(args, i + 1))
    ensures TokensFrom(s, p) == One(args[i]) + TokensFrom(s, end)
  {
    var rest := JoinFrom(args, i + 1);
    var q := SeparatorReadBack(args, i, s, p);
    LaterStartsWithSpace(args, i + 1);
    end := OneReadBack(args[i], s, q, rest);
  }

  lemma {:induction false} JoinReadBack(args: seq<string>, i: nat, s: string, p: nat)
    requires i <= |args| && p <= |s| && Reads(s, p, JoinFrom(args, i))
    ensures TokensFrom(s, p) == NonEmptyFrom(args, i)
    decreases |args| - i
  {
    if i < |args| {
      var end := ArgReadBack(args, i, s, p);
      JoinReadBack(args, i + 1, s, end);
    }
  }

  lemma {:induction false} NonEmptyIsAll(args: seq<string>, i: nat)
    requires i <= |args|
    ensures |NonEmptyFrom(args, i)| <= |args| - i
    ensures |NonEmptyFrom(args, i)| == |args| - i ==> NonEmptyFrom(args, i) == args[i..]
    ensures forall k :: 0 <= k < |NonEmptyFrom(args, i)| ==> NonEmptyFrom(args, i)[k] != ""
    ensures NonEmptyFrom(args, i) == args[i..] <==> forall k :: i <= k < |args| ==> args[k] != ""
    decreases |args| - i
  {
    if i < |args| {
      NonEmptyIsAll(args, i + 1);
      assert args[i..] == [args[i]] + args[i + 1..];
    }
  }

  /**
   * Splitting a joined line gives back the non-empty arguments, all of them and in
   * order: the two are inverse exactly on the lists without an empty argument.
   */
  lemma SplitOfJoin(args: seq<string>)
    ensures Tokens(Joined(args)) == NonEmpty(args)
    ensures Tokens(Joined(args)) == args <==> forall k :: 0 <= k < |args| ==> args[k] != ""
  {
    JoinReadBack(args, 0, Joined(args), 0);
    NonEmptyIsAll(args, 0);
    assert args[0..] == args;
  }

  /** The shortest list that does not come back. */
  lemma EmptyArgumentLost()
    ensures Tokens(Joined([""])) == [] != [""]
  {
    SplitOfJoin([""]);
    assert NonEmptyFrom([""], 1) == [];
  }

  lemma TokensNonEmpty(s: string, i: nat)
    requires i <= |s|
    ensures forall k :: 0 <= k < |TokensFrom(s, i)| ==> TokensFrom(s, i)[k] != ""
    decreases |s| - i
  {
  }

  /** Joining what a line spelled gives a line that spells the same: any line can be re-sent. */
  lemma JoinOfSplit(line: string)
    ensures Tokens(Joined(Tokens(line))) == Tokens(line)
  {
    TokensNonEmpty(line, 0);
    SplitOfJoin(Tokens(line));
  }

  ghost predicate Clean(s: string) {
    forall k :: 0 <= k < |s| ==> s[k] != NUL && s[k] != '\n'
  }

  lemma CleanConcat(a: string, b: string)
    requires Clean(a) && Clean(b)
    ensures Clean(a + b)
  {
  }

  lemma {:induction false} EscapeClean(token: string, j: nat)
    requires j <= |token| && NulFree(token)
    ensures Clean(EscapeFrom(token, j))
    decreases |token| - j
  {
    if j < |token| {
      EscapeClean(token, j + 1);
      CleanConcat(EscapeChar(token[j]), EscapeFrom(token, j + 1));
    }
  }

  /** A request line never contains the byte that ends it. */
  lemma {:induction false} JoinClean(args: seq<string>, i: nat)
    requires i <= |args| && forall k :: 0 <= k < |args| ==> NulFree(args[k])
    ensures Clean(JoinFrom(args, i))
    decreases |args| - i
  {
    if i < |args| {
      EscapeClean(args[i], 0);
      JoinClean(args, i + 1);
      CleanConcat(EscapeFrom(args[i], 0), JoinFrom(args, i + 1));
    }
  }
}
