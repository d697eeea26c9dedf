/** The URL picker's modes: hint labels, the action prompt, and the QR view. */
module UrlKeys {
  import opened Common
  import opened UrlScan
  import opened UrlPicker

  datatype Mode = Inactive | Hint | Action | Qr

  datatype Url = Url(text: string, row: nat, col: nat)

  datatype State = State(mode: Mode, urls: seq<Url>, selected: int, typed: string)

  const IDLE := State(Inactive, [], -1, "")

  /** A pressed key: escape, or any other key by its character. */
  datatype Sym = Escape | Char(c: char)

  datatype Effect = Nothing | OpenUrl(text: string) | CopyUrl(text: string) | QrFailed(text: string)

  // ---- Labels ----

  function Needed(total: nat): nat {
    if total > 26 then 2 else 1
  }

  function Letter(i: nat): char
    requires i < 26
  {
    'a' + i as char
  }

  function Label(i: nat, total: nat): string
    requires i < total <= MAX_MATCHES
  {
    if total <= 26 then [Letter(i)] else [Letter(i / 26), Letter(i % 26)]
  }

  lemma LabelsDistinct(i: nat, j: nat, total: nat)
    requires i < total <= MAX_MATCHES && j < total && Label(i, total) == Label(j, total)
    ensures i == j
  {
    assert Label(i, total)[0] == Label(j, total)[0];
    if total > 26 {
      assert Label(i, total)[1] == Label(j, total)[1];
      assert i == 26 * (i / 26) + i % 26 && j == 26 * (j / 26) + j % 26;
    }
  }

  /** The first URL with that word, or the number of URLs. */
  function Picked(typed: string, total: nat, i: nat): (j: nat)
    requires i <= total <= MAX_MATCHES
    ensures i <= j <= total && (j < total ==> Label(j, total) == typed)
    ensures forall k :: i <= k < j ==> Label(k, total) != typed
    decreases total - i
  {
    if i == total || Label(i, total) == typed then i else Picked(typed, total, i + 1)
  }

  // ---- Keys ----

  function ToLetter(c: char): char {
    if 'a' <= c <= 'z' then c
    else if 'A' <= c <= 'Z' then (c - 'A') + 'a'
    else '\0'
  }

  function HintKey(s: State, letter: char): State
    requires |s.urls| <= MAX_MATCHES
  {
    var needed := Needed(|s.urls|);
    var typed := (if |s.typed| >= needed then "" else s.typed) + [letter];
    if |typed| < needed then s.(typed := typed)
    else
      var i := Picked(typed, |s.urls|, 0);
      if i == |s.urls| then s.(typed := "") else s.(typed := "", selected := i, mode := Action)
  }

  function ActionKey(s: State, letter: char, qrFits: bool): (State, Effect) {
    if s.selected < 0 || s.selected >= |s.urls| then (IDLE, Nothing)
    else
      var text := s.urls[s.selected].text;
      if letter == 'o' then (IDLE, OpenUrl(text))
      else if letter == 'c' then (IDLE, CopyUrl(text))
      else if letter == 'q' then (if qrFits then (s.(mode := Qr), Nothing) else (IDLE, QrFailed(text)))
      else (s, Nothing)
  }

  /** One key press; `qrFits` is the QR encoder's answer. */
  function Key(s: State, sym: Sym, isRepeat: bool, qrFits: bool): (State, Effect)
    requires |s.urls| <= MAX_MATCHES
  {
    if s.mode == Inactive || isRepeat then (s, Nothing)
    else if sym == Escape || s.mode == Qr then (IDLE, Nothing)
    else if ToLetter(sym.c) == '\0' then (s, Nothing)
    else if s.mode == Hint then (HintKey(s, ToLetter(sym.c)), Nothing)
    else ActionKey(s, ToLetter(sym.c), qrFits)
  }

  datatype Press = Press(sym: Sym, isRepeat: bool, qrFits: bool)

  /** Hint mode has something to pick; the action prompt and the QR view have a valid selection. */
  predicate Ok(s: State) {
    && |s.urls| <= MAX_MATCHES
    && (s.mode == Inactive ==> s == IDLE)
    && (s.mode == Hint ==> s.urls != [] && |s.typed| < Needed(|s.urls|))
    && (s.mode == Action || s.mode == Qr ==> 0 <= s.selected < |s.urls| && s.typed == "")
  }

  lemma KeyKeeps(s: State, sym: Sym, isRepeat: bool, qrFits: bool)
    requires Ok(s)
    ensures var (s', e) := Key(s, sym, isRepeat, qrFits);
      && Ok(s')
      && (isRepeat ==> s' == s && e == Nothing)
      && (e != Nothing ==> s.mode == Action && e.text == s.urls[s.selected].text && s' == IDLE)
      && (s'.mode != Inactive ==> s'.urls == s.urls)
  {
  }

  /** The picker after a sequence of presses. */
  function After(s: State, keys: seq<Press>): (r: State)
    requires Ok(s)
    ensures Ok(r)
    decreases |keys|
  {
    if keys == [] then s
    else
      var v, k := After(s, keys[..|keys| - 1]), keys[|keys| - 1];
      KeyKeeps(v, k.sym, k.isRepeat, k.qrFits);
      Key(v, k.sym, k.isRepeat, k.qrFits).0
  }

  /** Over every key sequence the picker keeps its invariant, and the list it shows never changes. */
  lemma {:induction false} KeysKeep(s: State, keys: seq<Press>)
    requires Ok(s)
    ensures Ok(After(s, keys))
    ensures After(s, keys).mode != Inactive ==> After(s, keys).urls == s.urls
    decreases |keys|
  {
    if keys != [] {
      var v, k := After(s, keys[..|keys| - 1]), keys[|keys| - 1];
      KeysKeep(s, keys[..|keys| - 1]);
      KeyKeeps(v, k.sym, k.isRepeat, k.qrFits);
    }
  }

  lemma LabelIsLetters(i: nat, total: nat)
    requires i < total <= MAX_MATCHES
    ensures |Label(i, total)| == Needed(total)
    ensures forall k :: 0 <= k < |Label(i, total)| ==> Label(i, total)[k] != '\0'
  {
  }

  /** Typing the label of URL `i` at a fresh prompt, in either case, selects URL `i`. */
  lemma TypingLabelSelects(s: State, i: nat, a: char, b: char, qrFits: bool)
    requires Ok(s) && s.mode == Hint && s.typed == "" && i < |s.urls|
    requires var word := Label(i, |s.urls|); ToLetter(a) == word[0] && (|word| == 2 ==> ToLetter(b) == word[1])
    ensures var one := Key(s, Char(a), false, qrFits).0;
      var last := if |s.urls| > 26 then Key(one, Char(b), false, qrFits).0 else one;
      last == s.(mode := Action, selected := i)
  {
    var n, word := |s.urls|, Label(i, |s.urls|);
    LabelIsLetters(i, n);
    var j := Picked(word, n, 0);
    assert j <= i;
    LabelsDistinct(j, i, n);
    var one := Key(s, Char(a), false, qrFits).0;
    if n > 26 {
      assert one == s.(typed := [word[0]]);
      assert [word[0]] + [word[1]] == word;
    } else {
      assert "" + [word[0]] == word;
    }
  }

  // ---- What each key does, spelled out ----

  /** A key that is not for the picker, or a held one, does nothing. */
  lemma IgnoredKeys(s: State, sym: Sym, isRepeat: bool, qrFits: bool)
    requires Ok(s)
    requires s.mode == Inactive || isRepeat
             || (s.mode != Qr && sym.Char? && !('a' <= sym.c <= 'z' || 'A' <= sym.c <= 'Z'))
    ensures Key(s, sym, isRepeat, qrFits) == (s, Nothing)
  {
  }

  /** Escape closes the picker from everywhere, and any key closes the QR view. */
  lemma ClosingKeys(s: State, sym: Sym, qrFits: bool)
    requires Ok(s) && s.mode != Inactive && (sym == Escape || s.mode == Qr)
    ensures Key(s, sym, false, qrFits) == (State(Inactive, [], -1, ""), Nothing)
  {
  }

  /** At the action prompt: open, copy, or show as a QR code, in either case. */
  lemma ActionKeys(s: State, c: char, qrFits: bool)
    requires Ok(s) && s.mode == Action
    ensures var text, closed := s.urls[s.selected].text, State(Inactive, [], -1, "");
      Key(s, Char(c), false, qrFits)
      == if c == 'o' || c == 'O' then (closed, OpenUrl(text))
         else if c == 'c' || c == 'C' then (closed, CopyUrl(text))
         else if c == 'q' || c == 'Q' then (if qrFits then (s.(mode := Qr), Nothing) else (closed, QrFailed(text)))
         else (s, Nothing)
  {
    assert ToLetter(c) == 'o' <==> c == 'o' || c == 'O';
    assert ToLetter(c) == 'c' <==> c == 'c' || c == 'C';
    assert ToLetter(c) == 'q' <==> c == 'q' || c == 'Q';
  }

  lemma PickedIs(typed: string, total: nat, i: nat)
    requires i < total <= MAX_MATCHES && Label(i, total) == typed
    ensures Picked(typed, total, 0) == i
  {
    var j := Picked(typed, total, 0);
    assert j <= i;
    LabelsDistinct(j, i, total);
  }

  lemma PickedNone(typed: string, total: nat)
    requires total <= MAX_MATCHES && forall i :: 0 <= i < total ==> Label(i, total) != typed
    ensures Picked(typed, total, 0) == total
  {
  }

  /** With up to 26 URLs one letter picks: a the first, b the second, and so on. */
  lemma OneLetterPicks(s: State, c: char, qrFits: bool)
    requires Ok(s) && s.mode == Hint && |s.urls| <= 26 && 'a' <= c <= 'z'
    ensures var i := c as int - 'a' as int;
      Key(s, Char(c), false, qrFits) == (if i < |s.urls| then s.(mode := Action, selected := i) else s, Nothing)
  {
    var i, n := c as int - 'a' as int, |s.urls|;
    assert s.typed == "" && "" + [c] == [c];
    if i < n {
      PickedIs([c], n, i);
    } else {
      PickedNone([c], n);
    }
  }

  /** With more, two letters do: the first counts in steps of 26. */
  lemma TwoLettersPick(s: State, a: char, b: char, qrFits: bool)
    requires Ok(s) && s.mode == Hint && |s.urls| > 26 && s.typed == "" && 'a' <= a <= 'z' && 'a' <= b <= 'z'
    ensures Key(s, Char(a), false, qrFits) == (s.(typed := [a]), Nothing)
    ensures var i := 26 * (a as int - 'a' as int) + (b as int - 'a' as int);
      Key(s.(typed := [a]), Char(b), false, qrFits)
      == (if i < |s.urls| then s.(mode := Action, selected := i) else s, Nothing)
  {
    var i, n := 26 * (a as int - 'a' as int) + (b as int - 'a' as int), |s.urls|;
    assert "" + [a] == [a] && [a] + [b] == [a, b];
    if i < n {
      assert i / 26 == a as int - 'a' as int && i % 26 == b as int - 'a' as int;
      PickedIs([a, b], n, i);
    } else {
      forall j | 0 <= j < n ensures Label(j, n) != [a, b] {
        assert j == 26 * (j / 26) + j % 26;
      }
      PickedNone([a, b], n);
    }
  }

  // ---- Entering ----

  predicate Fits(m: Match, n: nat) {
    m.start + m.len <= n && 0 < m.len
  }

  function UrlOf(s: string, buf: seq<Slot>, m: Match): Url
    requires |s| == |buf| && Fits(m, |buf|)
  {
    Url((if m.prependHttps then "https://" else "") + s[m.start..m.start + m.len], buf[m.start].row, buf[m.start].col)
  }

  /** What the picker offers for a screen: one URL per match, in screen order. */
  ghost predicate Offers(urls: seq<Url>, buf: seq<Slot>) {
    var found := Capped(AllMatches(Text(buf), 0));
    && |urls| == |found|
    && forall k :: 0 <= k < |urls| ==>
         Fits(found[k], |buf|) && urls[k] == UrlOf(Text(buf), buf, found[k])
  }

  /** One URL per match: its text, with a scheme where it has none, at the cell it starts in. */
  ghost predicate Lists(urls: seq<Url>, buf: seq<Slot>, found: seq<Match>) {
    && |urls| == |found|
    && forall k :: 0 <= k < |urls| ==>
         var m := found[k];
         && m.start + m.len <= |buf| && 0 < m.len
         && urls[k].text == (if m.prependHttps then "https://" else "") + Text(buf)[m.start..m.start + m.len]
         && urls[k].row == buf[m.start].row && urls[k].col == buf[m.start].col
  }

  /** The list is that of the first 64 URLs of the text. */
  ghost predicate ListsFirst(urls: seq<Url>, buf: seq<Slot>) {
    exists found :: FirstUrls(Text(buf), found) && Lists(urls, buf, found)
  }

  /** The list is empty exactly when there is no URL in the text. */
  lemma NoUrls(s: string)
    ensures AllMatches(s, 0) == [] <==> forall i: nat, m: Match :: !UrlAt(s, i, m)
  {
    AllMatchesExact(s);
    if AllMatches(s, 0) == [] {
      forall i: nat, m: Match ensures !UrlAt(s, i, m) {
        MatchExact(s, i, m);
        MatchStart(s, i);
      }
    } else {
      var m := AllMatches(s, 0)[0];
      MatchExact(s, m.start, m);
    }
  }

  lemma MatchesFit(text: string, all: seq<Match>)
    requires forall k :: 0 <= k < |all| ==> all[k].start < |text| && MatchAt(text, all[k].start) == Some(all[k])
    ensures forall k :: 0 <= k < |Capped(all)| ==> Fits(Capped(all)[k], |text|)
  {
    forall k | 0 <= k < |all| ensures Fits(all[k], |text|) {
      MatchIsUrlText(text, all[k]);
    }
  }

  lemma FoundFit(text: string, found: seq<Match>)
    requires found == Capped(AllMatches(text, 0))
    ensures forall k :: 0 <= k < |found| ==> Fits(found[k], |text|)
  {
    AllMatchesSound(text, 0);
    MatchesFit(text, AllMatches(text, 0));
  }

  method CollectUrls(text: string, buf: seq<Slot>, found: seq<Match>) returns (urls: seq<Url>)
    requires |text| == |buf| && forall k :: 0 <= k < |found| ==> Fits(found[k], |buf|)
    ensures |urls| == |found|
    ensures forall k :: 0 <= k < |urls| ==> urls[k] == UrlOf(text, buf, found[k])
  {
    urls := [];
    for k := 0 to |found|
      invariant |urls| == k && forall i :: 0 <= i < k ==> urls[i] == UrlOf(text, buf, found[i])
    {
      urls := urls + [UrlOf(text, buf, found[k])];
    }
  }

  /** Scans a flattened screen and labels what it finds with its cells. */
  method FindUrls(buf: seq<Slot>) returns (urls: seq<Url>)
    ensures |urls| <= MAX_MATCHES && Offers(urls, buf) && ListsFirst(urls, buf)
    ensures urls != [] <==> exists i: nat, m: Match :: UrlAt(Text(buf), i, m)
  {
    var text := Text(buf);
    var found := ScanBuffer(text);
    FoundFit(text, found);
    NoUrls(text);
    urls := CollectUrls(text, buf, found);
    assert FirstUrls(text, found) && Lists(urls, buf, found);
  }

  class Picker {
    var mode: Mode
    var urls: seq<Url>
    var selected: int
    var typed: string

    function Value(): State
      reads this
    {
      State(mode, urls, selected, typed)
    }

    constructor ()
      ensures Value() == IDLE
    {
      mode, urls, selected, typed := Inactive, [], -1, "";
    }

    method Exit()
      modifies this
      ensures Value() == IDLE
    {
      mode, urls, selected, typed := Inactive, [], -1, "";
    }

    /** Starts hint mode on the URLs of a flattened screen, or stays idle without any. */
    method Offer(buf: seq<Slot>) returns (entered: bool)
      requires Value() == IDLE
      modifies this
      ensures Ok(Value())
      ensures entered <==> exists i: nat, m: Match :: UrlAt(Text(buf), i, m)
      ensures entered ==> mode == Hint && typed == "" && Offers(urls, buf) && ListsFirst(urls, buf)
      ensures !entered ==> Value() == IDLE
    {
      urls := FindUrls(buf);
      if |urls| == 0 {
        Exit();
        return false;
      }
      mode := Hint;
      return true;
    }

    /** Scans the visible rows and, if there is any URL, starts hint mode. */
    method Enter(rows: seq<Option<seq<Cell>>>, layoutCols: nat) returns (entered: bool)
      requires Ok(Value())
      modifies this
      ensures Ok(Value())
      ensures layoutCols == 0 || rows == [] ==> !entered && Value() == old(Value())
      ensures layoutCols > 0 && rows != [] ==>
        var buf := ScreenText(rows, layoutCols);
        && (entered <==> exists i: nat, m: Match :: UrlAt(Text(buf), i, m))
        && (entered ==> mode == Hint && typed == "" && Offers(urls, buf))
        && (entered ==> ListsFirst(urls, buf))
        && (!entered ==> Value() == IDLE)
    {
      if layoutCols == 0 || rows == [] {
        return false;
      }
      Exit();
      var buf := ReadScreen(rows, layoutCols);
      entered := Offer(buf);
    }

    method HandleHintKey(letter: char)
      requires |urls| <= MAX_MATCHES
      modifies this
      ensures Value() == HintKey(old(Value()), letter)
    {
      var needed := if |urls| > 26 then 2 else 1;
      if |typed| >= needed {
        typed := "";
      }
      typed := typed + [letter];
      if |typed| < needed {
        return;
      }
      var i := 0;
      while i < |urls| && Label(i, |urls|) != typed
        invariant 0 <= i <= |urls| && Picked(typed, |urls|, 0) == Picked(typed, |urls|, i)
      {
        i := i + 1;
      }
      typed := "";
      if i == |urls| {
        return;
      }
      selected := i;
      mode := Action;
    }

    /** `consumed` is whether the picker was open; `effect` is what reaches the platform. */
    method HandleKey(sym: Sym, isRepeat: bool, qrFits: bool) returns (consumed: bool, effect: Effect)
      requires Ok(Value())
      modifies this
      ensures Ok(Value()) && consumed == (old(mode) != Inactive)
      ensures (Value(), effect) == Key(old(Value()), sym, isRepeat, qrFits)
    {
      KeyKeeps(Value(), sym, isRepeat, qrFits);
      effect := Nothing;
      if mode == Inactive {
        return false, effect;
      }
      consumed := true;
      if isRepeat {
        return;
      }
      if sym == Escape || mode == Qr {
        Exit();
        return;
      }
      var letter := ToLetter(sym.c);
      if letter == '\0' {
        return;
      }
      if mode == Hint {
        HandleHintKey(letter);
      } else {
        var text := urls[selected].text;
        match letter {
          case 'o' => effect := OpenUrl(text); Exit();
          case 'c' => effect := CopyUrl(text); Exit();
          case 'q' =>
            if qrFits { mode := Qr; } else { effect := QrFailed(text); Exit(); }
          case _ =>
        }
      }
    }
  }
}
