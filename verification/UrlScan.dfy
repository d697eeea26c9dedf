/** Finding URLs in the visible text. */
module UrlScan {
  import opened Common

  const MAX_MATCHES: nat := 64
  const MAX_URL_LEN: nat := 512

  /** A URL in the text: where it starts, how long it is, and whether a scheme is put before it. */
  datatype Match = Match(start: nat, len: nat, prependHttps: bool)

  // ---- What counts as a URL ----

  predicate IsAlnum(c: char) {
    '0' <= c <= '9' || 'A' <= c <= 'Z' || 'a' <= c <= 'z'
  }

  predicate IsUrlChar(c: char) {
    || IsAlnum(c)
    || c == '-' || c == '.' || c == '_' || c == '~' || c == ':' || c == '/' || c == '?' || c == '#'
    || c == '[' || c == ']' || c == '@' || c == '!' || c == '$' || c == '&' || c == '\'' || c == '('
    || c == ')' || c == '*' || c == '+' || c == ',' || c == ';' || c == '=' || c == '%'
  }

  predicate IsHostChar(c: char) {
    IsAlnum(c) || c == '_' || c == '-'
  }

  /** `prefix` stands at `i`, at the start of a token. */
  predicate HasPrefixAt(s: string, i: nat, prefix: string) {
    i + |prefix| <= |s| && s[i..i + |prefix|] == prefix && !(0 < i <= |s| && IsUrlChar(s[i - 1]))
  }

  /** The scheme prefix at `i`, or the empty string. */
  function SchemeAt(s: string, i: nat): string {
    if HasPrefixAt(s, i, "https://") then "https://"
    else if HasPrefixAt(s, i, "http://") then "http://"
    else if HasPrefixAt(s, i, "www.") then "www."
    else ""
  }

  function UrlEnd(s: string, i: nat): (end: nat)
    requires i <= |s|
    ensures i <= end <= |s| && (end < |s| ==> !IsUrlChar(s[end]))
    ensures forall k :: i <= k < end ==> IsUrlChar(s[k])
    decreases |s| - i
  {
    if i < |s| && IsUrlChar(s[i]) then UrlEnd(s, i + 1) else i
  }

  function Opener(closer: char): char {
    if closer == ')' then '(' else if closer == ']' then '[' else '{'
  }

  /** The last character of `s[start..end]` is prose punctuation, or a closer without its opener. */
  predicate Trimmable(s: string, start: nat, end: nat)
    requires start < end <= |s|
  {
    var c := s[end - 1];
    || c in ".,;:!?>'\""
    || (c in ")]}" && forall k :: start <= k < end - 1 ==> s[k] != Opener(c))
  }

  function TrimmedEnd(s: string, start: nat, end: nat): (e: nat)
    requires start <= end <= |s|
    ensures start <= e <= end
  {
    if start < end && Trimmable(s, start, end) then TrimmedEnd(s, start, end - 1) else end
  }

  /** The trimmed end is the one place where trimming must stop and everything after it must go. */
  lemma {:induction false} TrimmedEndExact(s: string, start: nat, end: nat, e: nat)
    requires start <= e <= end <= |s|
    ensures e == TrimmedEnd(s, start, end) <==>
            (start < e ==> !Trimmable(s, start, e)) && forall k :: e < k <= end ==> Trimmable(s, start, k)
    decreases end
  {
    if start < end && Trimmable(s, start, end) && e < end {
      TrimmedEndExact(s, start, end - 1, e);
    }
  }

  /** The URL behind the scheme prefix `p` at `i`, if the rest of the token makes one. */
  function MatchWith(s: string, i: nat, p: string): Option<Match> {
    var host := i + |p|;
    if p == "" || host >= |s| || !IsHostChar(s[host]) then None
    else
      var len := TrimmedEnd(s, i, UrlEnd(s, host)) - i;
      var prepend := p == "www.";
      if len <= |p| || (if prepend then 8 else 0) + len + 1 > MAX_URL_LEN then None
      else Some(Match(i, len, prepend))
  }

  /** The URL that starts at `i`, if one does. */
  function MatchAt(s: string, i: nat): Option<Match> {
    MatchWith(s, i, SchemeAt(s, i))
  }

  /** All URLs that start at `i` or later, in order. */
  function AllMatches(s: string, i: nat): seq<Match>
    decreases |s| - i
  {
    if i >= |s| then []
    else (match MatchAt(s, i) case Some(m) => [m] case None => []) + AllMatches(s, i + 1)
  }

  // ---- What the list is ----

  lemma MatchStart(s: string, i: nat)
    ensures MatchAt(s, i).Some? ==> MatchAt(s, i).value.start == i
  {
  }

  /** The character classes, spelled out. */
  lemma CharClasses(c: char)
    ensures IsHostChar(c) <==> '0' <= c <= '9' || 'A' <= c <= 'Z' || 'a' <= c <= 'z' || c == '_' || c == '-'
    ensures IsUrlChar(c) <==>
              '0' <= c <= '9' || 'A' <= c <= 'Z' || 'a' <= c <= 'z' || c in "-._~:/?#[]@!$&'()*+,;=%"
  {
  }

  /** What trimming takes off, spelled out: prose punctuation, and a closer that nothing opens. */
  lemma TrimmableMeans(s: string, start: nat, end: nat)
    requires start < end <= |s|
    ensures Trimmable(s, start, end) <==>
            || s[end - 1] in ".,;:!?>'\""
            || (s[end - 1] == ')' && '(' !in s[start..end - 1])
            || (s[end - 1] == ']' && '[' !in s[start..end - 1])
            || (s[end - 1] == '}' && '{' !in s[start..end - 1])
  {
    var c, front := s[end - 1], s[start..end - 1];
    assert forall k :: start <= k < end - 1 ==> s[k] == front[k - start];
    assert forall k :: 0 <= k < |front| ==> front[k] == s[start + k];
  }

  /**
   * `m` is the URL at `i`: a scheme `p` at the start of a token, a host character behind it, and
   * of the URL characters up to `end` as many as trimming leaves, more than the scheme alone and
   * with its own scheme at most 511 bytes.
   */
  ghost predicate UrlWith(s: string, i: nat, m: Match, p: string, end: nat) {
    && (p == "https://" || p == "http://" || p == "www.")
    && m.start == i && m.prependHttps == (p == "www.")
    && i + |p| < |s| && s[i..i + |p|] == p && (i == 0 || !IsUrlChar(s[i - 1])) && IsHostChar(s[i + |p|])
    && i + |p| <= end <= |s| && (forall k :: i + |p| <= k < end ==> IsUrlChar(s[k]))
    && (end == |s| || !IsUrlChar(s[end]))
    && |p| < m.len && i + m.len <= end && !Trimmable(s, i, i + m.len)
    && (forall k :: i + m.len < k <= end ==> Trimmable(s, i, k))
    && (if p == "www." then 8 else 0) + m.len + 1 <= 512
  }

  ghost predicate UrlAt(s: string, i: nat, m: Match) {
    exists p: string, end: nat :: UrlWith(s, i, m, p, end)
  }

  lemma {:induction false} UrlEndIs(s: string, i: nat, end: nat)
    requires i <= end <= |s| && (forall k :: i <= k < end ==> IsUrlChar(s[k]))
    requires end == |s| || !IsUrlChar(s[end])
    ensures UrlEnd(s, i) == end
    decreases end - i
  {
    if i < end {
      UrlEndIs(s, i + 1, end);
    }
  }

  /** Prefixes that differ do not stand at the same place. */
  lemma NotPrefix(s: string, i: nat, p: string, q: string, k: nat)
    requires i + |p| <= |s| && s[i..i + |p|] == p && k < |p| && k < |q| && p[k] != q[k]
    ensures !HasPrefixAt(s, i, q)
  {
    assert s[i..i + |p|][k] == s[i + k];
    if i + |q| <= |s| {
      assert s[i..i + |q|][k] == s[i + k];
    }
  }

  /** At most one of the three schemes stands at a place. */
  lemma SchemeIs(s: string, i: nat, p: string)
    requires p == "https://" || p == "http://" || p == "www."
    requires i + |p| <= |s| && s[i..i + |p|] == p && (i == 0 || !IsUrlChar(s[i - 1]))
    ensures SchemeAt(s, i) == p
  {
    assert HasPrefixAt(s, i, p);
    if p == "http://" {
      NotPrefix(s, i, p, "https://", 4);
    } else if p == "www." {
      NotPrefix(s, i, p, "https://", 0);
      NotPrefix(s, i, p, "http://", 0);
    }
  }

  lemma TrimmedIs(s: string, i: nat, m: Match, p: string, end: nat)
    requires UrlWith(s, i, m, p, end)
    ensures UrlEnd(s, i + |p|) == end && TrimmedEnd(s, i, end) == i + m.len
  {
    assert UrlEnd(s, i + |p|) == end by {
      UrlEndIs(s, i + |p|, end);
    }
    assert TrimmedEnd(s, i, end) == i + m.len by {
      TrimmedEndExact(s, i, end, i + m.len);
    }
  }

  lemma UrlWithMatches(s: string, i: nat, m: Match, p: string, end: nat)
    requires UrlWith(s, i, m, p, end)
    ensures MatchAt(s, i) == Some(m)
  {
    SchemeIs(s, i, p);
    TrimmedIs(s, i, m, p, end);
    assert MatchWith(s, i, p) == Some(Match(i, m.len, p == "www."));
  }

  lemma MatchIsUrlWith(s: string, i: nat)
    requires MatchAt(s, i).Some?
    ensures UrlWith(s, i, MatchAt(s, i).value, SchemeAt(s, i), UrlEnd(s, i + |SchemeAt(s, i)|))
  {
    var m, p := MatchAt(s, i).value, SchemeAt(s, i);
    TrimmedEndExact(s, i, UrlEnd(s, i + |p|), i + m.len);
  }

  /** A match is reported exactly for the URL that stands there. */
  lemma MatchExact(s: string, i: nat, m: Match)
    ensures MatchAt(s, i) == Some(m) <==> UrlAt(s, i, m)
  {
    if MatchAt(s, i) == Some(m) {
      MatchIsUrlWith(s, i);
    }
    if UrlAt(s, i, m) {
      var p: string, end: nat :| UrlWith(s, i, m, p, end);
      UrlWithMatches(s, i, m, p, end);
    }
  }

  lemma {:induction false} AllMatchesSound(s: string, i: nat)
    ensures forall k :: 0 <= k < |AllMatches(s, i)| ==>
      i <= AllMatches(s, i)[k].start < |s| && MatchAt(s, AllMatches(s, i)[k].start) == Some(AllMatches(s, i)[k])
    decreases |s| - i
  {
    if i < |s| {
      AllMatchesSound(s, i + 1);
      MatchStart(s, i);
    }
  }

  lemma {:induction false} AllMatchesSorted(s: string, i: nat)
    ensures forall j, k :: 0 <= j < k < |AllMatches(s, i)| ==> AllMatches(s, i)[j].start < AllMatches(s, i)[k].start
    decreases |s| - i
  {
    if i < |s| {
      AllMatchesSorted(s, i + 1);
      AllMatchesSound(s, i + 1);
      MatchStart(s, i);
    }
  }

  lemma {:induction false} AllMatchesComplete(s: string, i: nat, p: nat)
    requires i <= p < |s| && MatchAt(s, p).Some?
    ensures MatchAt(s, p).value in AllMatches(s, i)
    decreases p - i
  {
    if i < p {
      AllMatchesComplete(s, i + 1, p);
    }
  }

  /** The list holds exactly the matching positions, each once, in increasing order. */
  lemma AllMatchesExact(s: string)
    ensures var all := AllMatches(s, 0);
      && (forall k :: 0 <= k < |all| ==> all[k].start < |s| && MatchAt(s, all[k].start) == Some(all[k]))
      && (forall j, k :: 0 <= j < k < |all| ==> all[j].start < all[k].start)
      && (forall p :: 0 <= p < |s| && MatchAt(s, p).Some? ==> MatchAt(s, p).value in all)
  {
    AllMatchesSound(s, 0);
    AllMatchesSorted(s, 0);
    forall p | 0 <= p < |s| && MatchAt(s, p).Some? ensures MatchAt(s, p).value in AllMatches(s, 0) {
      AllMatchesComplete(s, 0, p);
    }
  }

  lemma SchemeIsUrlText(s: string, i: nat)
    requires SchemeAt(s, i) != ""
    ensures i + |SchemeAt(s, i)| <= |s|
    ensures forall k :: i <= k < i + |SchemeAt(s, i)| ==> IsUrlChar(s[k])
  {
    var p := SchemeAt(s, i);
    assert s[i..i + |p|] == p;
    assert forall k :: 0 <= k < |p| ==> IsUrlChar(p[k]);
    assert forall k :: i <= k < i + |p| ==> s[k] == s[i..i + |p|][k - i];
  }

  lemma InsideTokenNone(s: string, i: nat)
    requires 0 < i <= |s| && IsUrlChar(s[i - 1])
    ensures MatchAt(s, i) == None
  {
  }

  /** A jump over URL characters loses nothing: no URL starts behind a URL character. */
  lemma {:induction false} JumpLosesNothing(s: string, i: nat, j: nat)
    requires i <= j <= |s| && 0 < i && forall k :: i - 1 <= k < j ==> IsUrlChar(s[k])
    ensures AllMatches(s, i) == AllMatches(s, j)
    decreases j - i
  {
    if i < j {
      InsideTokenNone(s, i);
      JumpLosesNothing(s, i + 1, j);
    }
  }

  /** Reported URLs do not overlap. */
  lemma MatchesDisjoint(s: string, p: nat, q: nat)
    ensures p < q && MatchAt(s, p).Some? && MatchAt(s, q).Some? ==> p + MatchAt(s, p).value.len <= q
  {
    if p < q && MatchAt(s, p).Some? && MatchAt(s, q).Some? {
      SchemeIsUrlText(s, p);
      var end := UrlEnd(s, p + |SchemeAt(s, p)|);
      if q < end {
        InsideTokenNone(s, q);
      }
    }
  }

  // ---- The scanner ----

  method TrimTrailing(s: string, start: nat, end: nat) returns (e: nat)
    requires start <= end <= |s|
    ensures e == TrimmedEnd(s, start, end)
  {
    e := end;
    while e > start
      invariant start <= e <= end && TrimmedEnd(s, start, end) == TrimmedEnd(s, start, e)
    {
      var c := s[e - 1];
      if c in ".,;:!?>'\"" {
        e := e - 1;
        continue;
      }
      if c in ")]}" {
        var hasOpen, j := false, start;
        while j < e - 1 && !hasOpen
          invariant start <= j <= e - 1
          invariant hasOpen <==> exists k :: start <= k < j && s[k] == Opener(c)
          decreases e - 1 - j
        {
          if s[j] == Opener(c) { hasOpen := true; }
          j := j + 1;
        }
        if hasOpen {
          return;
        }
        e := e - 1;
        continue;
      }
      break;
    }
  }

  /** The first 64 of a list. */
  function Capped(all: seq<Match>): seq<Match> {
    if |all| <= MAX_MATCHES then all else all[..MAX_MATCHES]
  }

  /** The length of the scheme prefix at `i`, 0 if there is none. */
  method FindScheme(s: string, i: nat) returns (prefixLen: nat, prepend: bool)
    ensures prefixLen == |SchemeAt(s, i)| && (prepend <==> SchemeAt(s, i) == "www.")
  {
    prefixLen, prepend := 0, false;
    if HasPrefixAt(s, i, "https://") {
      prefixLen := 8;
    } else if HasPrefixAt(s, i, "http://") {
      prefixLen := 7;
    } else if HasPrefixAt(s, i, "www.") {
      prefixLen, prepend := 4, true;
    }
  }

  lemma NoScheme(s: string, i: nat)
    requires i < |s| && SchemeAt(s, i) == ""
    ensures AllMatches(s, i) == AllMatches(s, i + 1)
  {
  }

  lemma ScanStep(found: seq<Match>, s: string, start: nat, i: nat)
    requires start < i <= |s| && forall k :: start <= k < i ==> IsUrlChar(s[k])
    ensures found + AllMatches(s, start)
            == (match MatchWith(s, start, SchemeAt(s, start)) case Some(m) => found + [m] case None => found)
               + AllMatches(s, i)
  {
    JumpLosesNothing(s, start + 1, i);
    var m := MatchAt(s, start);
    var head := if m.Some? then [m.value] else [];
    assert AllMatches(s, start) == head + AllMatches(s, start + 1);
    Associative(found, head, AllMatches(s, i));
    assert found + [] == found;
  }

  method SkipUrlChars(s: string, host: nat) returns (i: nat)
    requires host <= |s|
    ensures i == UrlEnd(s, host)
  {
    i := host;
    while i < |s| && IsUrlChar(s[i])
      invariant host <= i <= |s| && UrlEnd(s, host) == UrlEnd(s, i)
    {
      i := i + 1;
    }
  }

  /** What follows the scheme prefix `p` at `start`: the URL, if it is one, and where to go on. */
  method ScanToken(s: string, start: nat, prefixLen: nat, prepend: bool, ghost p: string)
    returns (r: (Option<Match>, nat))
    requires p != "" && prefixLen == |p| && start + |p| <= |s| && (prepend <==> p == "www.")
    requires forall k :: start <= k < start + |p| ==> IsUrlChar(s[k])
    ensures r.0 == MatchWith(s, start, p) && start < r.1 <= |s|
    ensures forall k :: start <= k < r.1 ==> IsUrlChar(s[k])
  {
    var i := start + prefixLen;
    if i >= |s| || !IsHostChar(s[i]) {
      return (None, i);
    }
    ghost var host := i;
    i := SkipUrlChars(s, i);
    var e := TrimTrailing(s, start, i);
    var matched := e - start;
    if matched <= prefixLen {
      return (None, i);
    }
    var prependLen := if prepend then 8 else 0;
    if prependLen + matched + 1 > MAX_URL_LEN {
      return (None, i);
    }
    return (Some(Match(start, matched, prepend)), i);
  }

  /** `found` are the first 64 URLs of the text, in order, and all of them if there are fewer. */
  ghost predicate FirstUrls(s: string, found: seq<Match>) {
    && |found| <= 64
    && (forall k :: 0 <= k < |found| ==> UrlAt(s, found[k].start, found[k]))
    && (forall j, k :: 0 <= j < k < |found| ==> found[j].start < found[k].start)
    && forall i: nat, m: Match {:trigger UrlAt(s, i, m)} :: UrlAt(s, i, m) && m !in found ==>
         |found| == 64 && found[63].start < i
  }

  lemma AfterCapped(all: seq<Match>, m: Match)
    requires m in all && m !in Capped(all)
    requires forall j, k :: 0 <= j < k < |all| ==> all[j].start < all[k].start
    ensures |Capped(all)| == 64 && Capped(all)[63].start < m.start
  {
    var k :| 0 <= k < |all| && all[k] == m;
    assert forall x :: 0 <= x < |Capped(all)| ==> Capped(all)[x] == all[x];
  }

  lemma CappedComplete(s: string, all: seq<Match>, i: nat, m: Match)
    requires all == AllMatches(s, 0) && UrlAt(s, i, m) && m !in Capped(all)
    ensures |Capped(all)| == 64 && Capped(all)[63].start < i
  {
    AllMatchesExact(s);
    MatchExact(s, i, m);
    MatchStart(s, i);
    assert i < |s| && m in all;
    AfterCapped(all, m);
  }

  lemma CappedAreFirst(s: string)
    ensures FirstUrls(s, Capped(AllMatches(s, 0)))
  {
    var all := AllMatches(s, 0);
    AllMatchesExact(s);
    forall k | 0 <= k < |Capped(all)| ensures UrlAt(s, Capped(all)[k].start, Capped(all)[k]) {
      MatchExact(s, Capped(all)[k].start, Capped(all)[k]);
    }
    forall i: nat, m: Match | UrlAt(s, i, m) && m !in Capped(all)
      ensures |Capped(all)| == 64 && Capped(all)[63].start < i
    {
      CappedComplete(s, all, i, m);
    }
  }

  /** The greedy scan reports exactly the first 64 URLs of the text, in order. */
  method ScanBuffer(s: string) returns (found: seq<Match>)
    ensures found == Capped(AllMatches(s, 0)) && FirstUrls(s, found)
  {
    CappedAreFirst(s);
    found := [];
    var i := 0;
    while i < |s| && |found| < MAX_MATCHES
      invariant i <= |s| && |found| <= MAX_MATCHES
      invariant found + AllMatches(s, i) == AllMatches(s, 0)
      decreases |s| - i
    {
      var prefixLen, prepend := FindScheme(s, i);
      if prefixLen == 0 {
        NoScheme(s, i);
        i := i + 1;
        continue;
      }
      var start := i;
      SchemeIsUrlText(s, start);
      var m := ScanToken(s, start, prefixLen, prepend, SchemeAt(s, start));
      i := m.1;
      ScanStep(found, s, start, i);
      match m.0 {
        case None =>
        case Some(u) => found := found + [u];
      }
    }
    assert i == |s| ==> AllMatches(s, i) == [];
  }
}
