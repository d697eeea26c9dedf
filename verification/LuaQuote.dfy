/** The config emitter's string literals, read back by section 3.1 of the Lua 5.4 Reference Manual. */
module LuaQuote {
  import opened Common

  ghost predicate IsByteString(s: string) {
    forall k :: 0 <= k < |s| ==> 0 < s[k] as int < 256
  }

  // ---- Writing ----

  function HexDigit(d: nat): char
    requires d < 16
  {
    if d < 10 then '0' + d as char else 'A' + (d - 10) as char
  }

  /** How one byte appears inside the quotes. */
  function Emitted(c: char): string {
    if c == '"' then "\\\""
    else if c == '\\' then "\\\\"
    else if 0x20 <= c as int < 0x7f then [c]
    else "\\x" + [HexDigit(c as int / 16 % 16), HexDigit(c as int % 16)]
  }

  function EmittedFrom(s: string, i: nat): string
    requires i <= |s|
    decreases |s| - i
  {
    if i == |s| then "" else Emitted(s[i]) + EmittedFrom(s, i + 1)
  }

  function Literal(s: string): string {
    "\"" + EmittedFrom(s, 0) + "\""
  }

  method EmitQuoted(s: string) returns (out: string)
    ensures out == Literal(s)
  {
    out := "\"";
    for i := 0 to |s|
      invariant out + EmittedFrom(s, i) == "\"" + EmittedFrom(s, 0)
    {
      Associative(out, Emitted(s[i]), EmittedFrom(s, i + 1));
      var c := s[i];
      if c == '"' {
        out := out + "\\\"";
      } else if c == '\\' {
        out := out + "\\\\";
      } else if 0x20 <= c as int < 0x7f {
        out := out + [c];
      } else {
        out := out + ("\\x" + [HexDigit(c as int / 16 % 16), HexDigit(c as int % 16)]);
      }
    }
    out := out + "\"";
  }

  /** Printable characters stand for themselves, all but the quote and the backslash. */
  lemma EmittedMeans(c: char)
    requires 0 < c as int < 256
    ensures var hex, n := "0123456789ABCDEF", c as int;
      Emitted(c) == if c == '"' then "\\\"" else if c == '\\' then "\\\\" else if 0x20 <= n < 0x7f then [c]
                    else ['\\', 'x', hex[n / 16], hex[n % 16]]
  {
  }

  lemma EmittedStep(s: string, i: nat, c: char, more: string)
    requires i < |s| && s[i] == c && EmittedFrom(s, i + 1) == more
    ensures EmittedFrom(s, i) == Emitted(c) + more
  {
  }

  lemma {:induction false} EmittedShifted(a: string, b: string, k: nat)
    requires k <= |b|
    ensures EmittedFrom(a + b, |a| + k) == EmittedFrom(b, k)
    decreases |b| - k
  {
    if k < |b| {
      var c, more := b[k], EmittedFrom(b, k + 1);
      assert EmittedFrom(a + b, |a| + k) == Emitted(c) + more by {
        EmittedShifted(a, b, k + 1);
        assert (a + b)[|a| + k] == c;
        EmittedStep(a + b, |a| + k, c, more);
      }
      EmittedStep(b, k, c, more);
    }
  }

  /** A literal is its characters, each emitted on its own, between two quotes. */
  lemma LiteralMeans(c: char, s: string)
    ensures Literal("") == "\"\"" && Literal([c] + s) == "\"" + Emitted(c) + Literal(s)[1..]
  {
    assert Literal(s)[1..] == EmittedFrom(s, 0) + "\"";
    EmittedShifted([c], s, 0);
    assert EmittedFrom([c] + s, 0) == Emitted(c) + EmittedFrom(s, 0);
  }

  // ---- Reading ----

  predicate IsHex(c: char) {
    '0' <= c <= '9' || 'a' <= c <= 'f' || 'A' <= c <= 'F'
  }

  function HexValue(c: char): nat
    requires IsHex(c)
  {
    if '0' <= c <= '9' then (c - '0') as nat
    else if 'a' <= c <= 'f' then 10 + (c - 'a') as nat
    else 10 + (c - 'A') as nat
  }

  predicate IsDigit(c: char) {
    '0' <= c <= '9'
  }

  predicate IsSpace(c: char) {
    c == ' ' || '\t' <= c <= '\r'
  }

  function SkipSpace(s: string): (r: string)
    ensures |r| <= |s|
  {
    if s != "" && IsSpace(s[0]) then SkipSpace(s[1..]) else s
  }

  /** The decimal escape at the start of `s`: its value and its length, at most three digits. */
  function Decimal(s: string): (nat, nat)
    requires s != "" && IsDigit(s[0])
  {
    var a := (s[0] - '0') as nat;
    if |s| < 2 || !IsDigit(s[1]) then (a, 1)
    else
      var b := 10 * a + (s[1] - '0') as nat;
      if |s| < 3 || !IsDigit(s[2]) then (b, 2) else (10 * b + (s[2] - '0') as nat, 3)
  }

  function Prepend(c: char, r: Option<string>): Option<string> {
    if r.Some? then Some([c] + r.value) else None
  }

  /** The simple escapes: one letter each. */
  function Simple(c: char): Option<char> {
    match c
    case 'a' => Some(7 as char)
    case 'b' => Some(8 as char)
    case 'f' => Some(12 as char)
    case 'n' => Some('\n')
    case 'r' => Some('\r')
    case 't' => Some('\t')
    case 'v' => Some(11 as char)
    case '\\' => Some('\\')
    case '"' => Some('"')
    case '\'' => Some('\'')
    case '\n' => Some('\n')
    case _ => None
  }

  /** The value of a double-quoted literal behind its opening quote; it must end with the text. */
  function ReadBody(s: string): Option<string>
    decreases |s|
  {
    if s == "" || s[0] == '\n' || s[0] == '\r' then None
    else if s[0] == '"' then (if |s| == 1 then Some("") else None)
    else if s[0] != '\\' then Prepend(s[0], ReadBody(s[1..]))
    else if |s| < 2 then None
    else if Simple(s[1]).Some? then Prepend(Simple(s[1]).value, ReadBody(s[2..]))
    else if s[1] == 'x' then
      if |s| < 4 || !IsHex(s[2]) || !IsHex(s[3]) then None
      else Prepend((16 * HexValue(s[2]) + HexValue(s[3])) as char, ReadBody(s[4..]))
    else if s[1] == 'z' then ReadBody(SkipSpace(s[2..]))
    else if IsDigit(s[1]) then
      var (v, n) := Decimal(s[1..]);
      if v > 255 then None else Prepend(v as char, ReadBody(s[1 + n..]))
    else None
  }

  function ReadLiteral(s: string): Option<string> {
    if s != "" && s[0] == '"' then ReadBody(s[1..]) else None
  }

  // ---- Round trip ----

  lemma HexReadBack(c: char)
    requires c as int < 256
    ensures var h, l := HexDigit(c as int / 16 % 16), HexDigit(c as int % 16);
      IsHex(h) && IsHex(l) && 16 * HexValue(h) + HexValue(l) == c as int
  {
  }

  lemma ByteReadBack(c: char, rest: string)
    requires 0 < c as int < 256
    ensures ReadBody(Emitted(c) + rest) == Prepend(c, ReadBody(rest))
  {
    var s := Emitted(c) + rest;
    if c == '"' || c == '\\' {
      assert s[2..] == rest;
    } else if 0x20 <= c as int < 0x7f {
      assert s[1..] == rest;
    } else {
      HexReadBack(c);
      assert s[4..] == rest;
    }
  }

  lemma {:induction false} BodyReadBack(s: string, i: nat)
    requires i <= |s| && IsByteString(s)
    ensures ReadBody(EmittedFrom(s, i) + "\"") == Some(s[i..])
    decreases |s| - i
  {
    if i == |s| {
      assert EmittedFrom(s, i) + "\"" == "\"";
    } else {
      BodyReadBack(s, i + 1);
      Associative(Emitted(s[i]), EmittedFrom(s, i + 1), "\"");
      ByteReadBack(s[i], EmittedFrom(s, i + 1) + "\"");
      assert s[i..] == [s[i]] + s[i + 1..];
    }
  }

  /** Lua reads every NUL-free byte string back from the literal written for it. */
  lemma LiteralReadBack(s: string)
    requires IsByteString(s)
    ensures ReadLiteral(Literal(s)) == Some(s)
  {
    BodyReadBack(s, 0);
    assert Literal(s)[1..] == EmittedFrom(s, 0) + "\"";
    assert s[0..] == s;
  }
}
