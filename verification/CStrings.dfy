/** NUL-terminated strings inside a flat byte buffer. A C `char` is a Dafny `char`. */
module CStrings {
  const NUL: char := '\0'

  ghost predicate NulFree(s: string) {
    forall i :: 0 <= i < |s| ==> s[i] != NUL
  }

  /** The C string that starts at the beginning of `s`. */
  function UpToNul(s: string): (r: string)
    ensures NulFree(r) && r <= s
    ensures |r| < |s| ==> s[|r|] == NUL
    ensures NulFree(s) ==> r == s
  {
    if s == "" || s[0] == NUL then "" else [s[0]] + UpToNul(s[1..])
  }

  lemma UpToNulShorter(s: string)
    requires NUL in s
    ensures |UpToNul(s)| < |s| && UpToNul(s) == s[..|UpToNul(s)|]
  {
    if s[0] != NUL {
      UpToNulShorter(s[1..]);
    }
  }

  /** `mem` holds the C string `t` at offset `p`. */
  ghost predicate HoldsAt(mem: string, p: nat, t: string) {
    p + |t| < |mem| && mem[p..p + |t|] == t && mem[p + |t|] == NUL && NulFree(t)
  }

  lemma HoldsAtPrefix(mem: string, mem': string, p: nat, t: string)
    requires HoldsAt(mem, p, t) && mem <= mem'
    ensures HoldsAt(mem', p, t)
  {
    assert mem'[p..p + |t|] == mem[p..p + |t|];
  }

  /** A NUL ends the string, whatever follows it. */
  lemma SameUpToNul(text: string, rest: string)
    ensures UpToNul(text + [NUL] + rest) == UpToNul(text)
  {
    if text != "" {
      assert (text + [NUL] + rest)[1..] == text[1..] + [NUL] + rest;
      SameUpToNul(text[1..], rest);
    }
  }

  /** Reads the C string at `p` of a buffer. */
  function StringAt(mem: string, p: nat): string
    requires p <= |mem|
  {
    UpToNul(mem[p..])
  }

  lemma StringHeld(mem: string, p: nat, t: string)
    requires HoldsAt(mem, p, t)
    ensures StringAt(mem, p) == t
  {
    assert mem[p..] == t + [NUL] + mem[p + |t| + 1..];
    SameUpToNul(t, mem[p + |t| + 1..]);
  }

  predicate EndsInCr(s: string) {
    s != "" && s[|s| - 1] == '\r'
  }

  function NewlineAt(s: string, i: nat): (j: nat)
    requires i <= |s|
    ensures i <= j <= |s| && (j < |s| ==> s[j] == '\n')
    ensures forall k :: i <= k < j ==> s[k] != '\n'
    decreases |s| - i
  {
    if i == |s| || s[i] == '\n' then i else NewlineAt(s, i + 1)
  }

  lemma NewlineFound(s: string, i: nat, j: nat)
    requires i <= j < |s| && s[j] == '\n' && forall k :: i <= k < j ==> s[k] != '\n'
    ensures NewlineAt(s, i) == j
  {
    var f := NewlineAt(s, i);
    assert f <= j;
  }
}
