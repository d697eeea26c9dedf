/** The bridge's newline normaliser: bare LF becomes CRLF, across arbitrary write chunks. */
module Newlines {
  import opened CStrings
  import opened Common

  /** The bytes `s[i..]` as the terminal gets them, `prevCr` telling whether a CR came just before. */
  function Normalized(prevCr: bool, s: string, i: nat): string
    requires i <= |s|
    decreases |s| - i
  {
    if i == |s| then ""
    else (if s[i] == '\n' && !prevCr then "\r\n" else [s[i]]) + Normalized(s[i] == '\r', s, i + 1)
  }

  /** Whether a CR comes just before what follows `s`. */
  function CrAfter(prevCr: bool, s: string): bool {
    if s == "" then prevCr else EndsInCr(s)
  }

  lemma ConcatStep(chunks: seq<string>, k: nat)
    requires k < |chunks|
    ensures Concat(chunks[..k + 1]) == Concat(chunks[..k]) + chunks[k]
  {
    assert chunks[..k + 1][..k] == chunks[..k];
  }

  lemma {:induction false} Shifted(prevCr: bool, a: string, b: string, k: nat)
    requires k <= |b|
    ensures Normalized(prevCr, a + b, |a| + k) == Normalized(prevCr, b, k)
    decreases |b| - k
  {
    if k < |b| {
      Shifted(b[k] == '\r', a, b, k + 1);
    }
  }

  lemma {:induction false} NormalizedSplit(prevCr: bool, a: string, i: nat, b: string)
    requires i <= |a| && (i == |a| ==> prevCr == CrAfter(prevCr, a))
    ensures Normalized(prevCr, a + b, i)
            == Normalized(prevCr, a, i) + Normalized(CrAfter(prevCr, a), b, 0)
    decreases |a| - i
  {
    if i == |a| {
      Shifted(prevCr, a, b, 0);
    } else {
      var c := a[i] == '\r';
      NormalizedSplit(c, a, i + 1, b);
      assert CrAfter(c, a) == CrAfter(prevCr, a) && (a + b)[i] == a[i];
      var head := if a[i] == '\n' && !prevCr then "\r\n" else [a[i]];
      Associative(head, Normalized(c, a, i + 1), Normalized(CrAfter(prevCr, a), b, 0));
    }
  }

  /** Whether a CR comes just before `s[k]`, in the text that starts at `i`. */
  predicate CrBefore(prevCr: bool, s: string, i: nat, k: nat)
    requires i <= k <= |s|
  {
    if k == i then prevCr else s[k - 1] == '\r'
  }

  /** From `i` on, every LF follows a CR. */
  ghost predicate LfAfterCr(prevCr: bool, s: string, i: nat) {
    forall k :: i <= k < |s| && s[k] == '\n' ==> CrBefore(prevCr, s, i, k)
  }

  /** Every LF that reaches the terminal follows a CR. */
  lemma {:induction false} NoBareLf(prevCr: bool, s: string, i: nat)
    requires i <= |s|
    ensures LfAfterCr(prevCr, Normalized(prevCr, s, i), 0)
    decreases |s| - i
  {
    if i < |s| {
      NoBareLf(s[i] == '\r', s, i + 1);
      var head := if s[i] == '\n' && !prevCr then "\r\n" else [s[i]];
      var rest := Normalized(s[i] == '\r', s, i + 1);
      forall k | 0 <= k < |head + rest| && (head + rest)[k] == '\n'
        ensures CrBefore(prevCr, head + rest, 0, k)
      {
        if k >= |head| {
          assert rest[k - |head|] == '\n';
          assert CrBefore(s[i] == '\r', rest, 0, k - |head|);
        }
      }
    }
  }

  // ---- Nothing is lost ----

  /** The text without each CR that stands directly before an LF. */
  function Unix(s: string): string {
    if s == "" then ""
    else if s[0] == '\r' && |s| > 1 && s[1] == '\n' then Unix(s[1..])
    else [s[0]] + Unix(s[1..])
  }

  lemma UnixHead(c: char, rest: string)
    ensures Unix([c] + rest) == if c == '\r' && rest != "" && rest[0] == '\n' then Unix(rest) else [c] + Unix(rest)
  {
    assert ([c] + rest)[1..] == rest;
  }

  /** The CR that may stand before a text. */
  function Carried(prevCr: bool): string {
    if prevCr then "\r" else ""
  }

  lemma CarriedHead(prevCr: bool, c: char, rest: string)
    requires c != '\n'
    ensures Unix(Carried(prevCr) + ([c] + rest)) == Carried(prevCr) + Unix([c] + rest)
  {
    assert Carried(false) + ([c] + rest) == [c] + rest;
    assert Carried(false) + Unix([c] + rest) == Unix([c] + rest);
    UnixHead('\r', [c] + rest);
  }

  lemma CarriedLf(prevCr: bool, rest: string)
    ensures Unix(Carried(prevCr) + ("\n" + rest)) == "\n" + Unix(rest)
    ensures Unix(Carried(false) + ("\r\n" + rest)) == "\n" + Unix(rest)
  {
    UnixHead('\n', rest);
    UnixHead('\r', "\n" + rest);
    assert Carried(false) + ("\n" + rest) == "\n" + rest;
    assert Carried(false) + ("\r\n" + rest) == "\r" + ("\n" + rest);
  }

  /** One byte of the normalizer: whatever it does, only a CR before an LF is added. */
  lemma ConservedHead(prevCr: bool, c: char, out: string, rest: string)
    requires Unix(Carried(c == '\r') + out) == Unix(Carried(c == '\r') + rest)
    ensures Unix(Carried(prevCr) + ((if c == '\n' && !prevCr then "\r\n" else [c]) + out))
            == Unix(Carried(prevCr) + ([c] + rest))
  {
    if c == '\n' {
      CarriedLf(prevCr, out);
      CarriedLf(prevCr, rest);
      assert Carried(false) + out == out && Carried(false) + rest == rest;
    } else {
      CarriedHead(prevCr, c, out);
      CarriedHead(prevCr, c, rest);
      if c != '\r' {
        UnixHead(c, out);
        UnixHead(c, rest);
        assert Carried(false) + out == out && Carried(false) + rest == rest;
      }
    }
  }

  /** The output says what the input says: they differ in CRs before LFs only. */
  lemma {:induction false} NormalizedKeeps(prevCr: bool, s: string, i: nat)
    requires i <= |s|
    ensures Unix(Carried(prevCr) + Normalized(prevCr, s, i)) == Unix(Carried(prevCr) + s[i..])
    decreases |s| - i
  {
    if i < |s| {
      NormalizedKeeps(s[i] == '\r', s, i + 1);
      ConservedHead(prevCr, s[i], Normalized(s[i] == '\r', s, i + 1), s[i + 1..]);
      assert s[i..] == [s[i]] + s[i + 1..];
    }
  }

  /** `out` is `data` with a CR before every LF, and nothing else changed. */
  ghost predicate Shows(prevCr: bool, data: string, out: string) {
    && (forall k :: 0 <= k < |out| && out[k] == '\n' ==> if k == 0 then prevCr else out[k - 1] == '\r')
    && (if prevCr then Unix("\r" + out) == Unix("\r" + data) else Unix(out) == Unix(data))
  }

  lemma NormalizedShows(prevCr: bool, s: string)
    ensures Shows(prevCr, s, Normalized(prevCr, s, 0))
  {
    var out := Normalized(prevCr, s, 0);
    NoBareLf(prevCr, s, 0);
    NormalizedKeeps(prevCr, s, 0);
    assert s[0..] == s && Carried(false) + out == out && Carried(false) + s == s;
    forall k | 0 <= k < |out| && out[k] == '\n' ensures if k == 0 then prevCr else out[k - 1] == '\r' {
      assert CrBefore(prevCr, out, 0, k);
    }
  }

  lemma {:induction false} NothingToDo(prevCr: bool, s: string, i: nat)
    requires i <= |s| && LfAfterCr(prevCr, s, i)
    ensures Normalized(prevCr, s, i) == s[i..]
    decreases |s| - i
  {
    if i < |s| {
      assert s[i] == '\n' ==> prevCr;
      NothingToDo(s[i] == '\r', s, i + 1);
      assert s[i..] == [s[i]] + s[i + 1..];
    }
  }

  /** Normalizing twice is normalizing once. */
  lemma NormalizeIdempotent(s: string)
    ensures var t := Normalized(false, s, 0); Normalized(false, t, 0) == t
  {
    var t := Normalized(false, s, 0);
    NoBareLf(false, s, 0);
    assert t[0..] == t;
    NothingToDo(false, t, 0);
  }

  lemma ChunkShown(base: string, cr: bool, done: string, chunk: string)
    ensures (base + Normalized(cr, done, 0)) + Normalized(CrAfter(cr, done), chunk, 0)
            == base + Normalized(cr, done + chunk, 0)
    ensures CrAfter(CrAfter(cr, done), chunk) == CrAfter(cr, done + chunk)
  {
    NormalizedSplit(cr, done, 0, chunk);
    Associative(base, Normalized(cr, done, 0), Normalized(CrAfter(cr, done), chunk, 0));
  }

  /** The run that is still to be written grows by a byte, or is written and starts anew. */
  lemma RunGrows(terminal: string, data: string, runStart: nat, i: nat)
    requires runStart <= i < |data|
    ensures (terminal + data[runStart..i]) + [data[i]] == terminal + data[runStart..i + 1]
    ensures data[i + 1..i + 1] == ""
    ensures runStart == i ==> terminal + data[runStart..i] == terminal
  {
    assert data[runStart..i] + [data[i]] == data[runStart..i + 1];
  }

  lemma Behind(a: string, b: string)
    ensures a <= a + b && (a + b)[|a|..] == b
  {
  }

  class Bridge {
    var prevWriteWasCr: bool
    var terminal: string

    constructor ()
      ensures terminal == "" && !prevWriteWasCr
    {
      terminal, prevWriteWasCr := "", false;
    }

    /** Goes over byte `i`; a bare LF ends the run that starts at `runStart`. */
    method WriteByte(data: string, runStart: nat, i: nat) returns (next: nat)
      requires runStart <= i < |data|
      modifies this
      ensures next <= i + 1 && prevWriteWasCr == (data[i] == '\r')
      ensures terminal + data[next..i + 1]
              == (old(terminal) + data[runStart..i])
                 + if data[i] == '\n' && !old(prevWriteWasCr) then "\r\n" else [data[i]]
    {
      RunGrows(terminal, data, runStart, i);
      next := runStart;
      if data[i] == '\n' && !prevWriteWasCr {
        if i > runStart {
          terminal := terminal + data[runStart..i];
        }
        terminal := terminal + "\r\n";
        next := i + 1;
        assert terminal + "" == terminal;
      }
      prevWriteWasCr := data[i] == '\r';
    }

    /** Hands `data` to the terminal in runs, with a CRLF where a bare LF stood. */
    method Write(data: string)
      modifies this
      ensures terminal == old(terminal) + Normalized(old(prevWriteWasCr), data, 0)
      ensures prevWriteWasCr == CrAfter(old(prevWriteWasCr), data)
      ensures old(terminal) <= terminal && Shows(old(prevWriteWasCr), data, terminal[|old(terminal)|..])
    {
      ghost var base, cr, all := terminal, prevWriteWasCr, Normalized(prevWriteWasCr, data, 0);
      var runStart := 0;
      assert (terminal + data[0..0]) + all == base + all;
      for i := 0 to |data|
        invariant 0 <= runStart <= i && prevWriteWasCr == CrAfter(cr, data[..i])
        invariant (terminal + data[runStart..i]) + Normalized(prevWriteWasCr, data, i) == base + all
      {
        ghost var done := terminal + data[runStart..i];
        ghost var piece := if data[i] == '\n' && !prevWriteWasCr then "\r\n" else [data[i]];
        Associative(done, piece, Normalized(data[i] == '\r', data, i + 1));
        runStart := WriteByte(data, runStart, i);
      }
      if runStart < |data| {
        terminal := terminal + data[runStart..];
      }
      assert data[runStart..|data|] == data[runStart..] && data[..|data|] == data;
      assert terminal + "" == terminal;
      NormalizedShows(cr, data);
      Behind(base, all);
    }

    /** Any sequence of writes shows the terminal what one write of everything would. */
    method WriteChunks(chunks: seq<string>)
      modifies this
      ensures terminal == old(terminal) + Normalized(old(prevWriteWasCr), Concat(chunks), 0)
      ensures prevWriteWasCr == CrAfter(old(prevWriteWasCr), Concat(chunks))
      ensures old(terminal) <= terminal && Shows(old(prevWriteWasCr), Concat(chunks), terminal[|old(terminal)|..])
    {
      NormalizedShows(prevWriteWasCr, Concat(chunks));
      ghost var base, cr, done := terminal, prevWriteWasCr, "";
      assert base + "" == base;
      for k := 0 to |chunks|
        invariant done == Concat(chunks[..k])
        invariant terminal == base + Normalized(cr, done, 0)
        invariant prevWriteWasCr == CrAfter(cr, done)
      {
        ConcatStep(chunks, k);
        ChunkShown(base, cr, done, chunks[k]);
        Write(chunks[k]);
        done := done + chunks[k];
      }
      assert chunks[..|chunks|] == chunks;
      Behind(base, Normalized(cr, Concat(chunks), 0));
    }
  }
}
