/** Modifier chords and the sticky-modifier machine they drive. */
module Chords {
  import opened Common

  /** The named bits of a modifier mask. */
  datatype Mod = Ctrl | Alt | Shift | Sym

  datatype Action = CtrlDown | MetamodeToggle | SendBytes(data: string)

  datatype Chord = Chord(keycode: int, mods: set<Mod>, action: Action)

  /** Key codes; only that they differ from one another and from the sentinel matters. */
  const KEYCODE_LEFT_SHIFT := 0xF0E1
  const KEYCODE_RIGHT_SHIFT := 0xF0E2
  const KEYCODE_BB_ALT := 0xF0E9
  const KEYCODE_BB_SYM := 0xF0D3
  const KEYCODE_RETURN := 0xF00D

  const DEFAULT_CHORDS := [
    Chord(KEYCODE_BB_ALT, {Shift}, CtrlDown),
    Chord(KEYCODE_BB_SYM, {Shift}, MetamodeToggle),
    Chord(KEYCODE_RETURN, {Alt}, SendBytes("\t"))]

  // ---- Lookup ----

  /** `head` is a table closed by a sentinel with key code 0; its chords are `head[..n]`. */
  ghost predicate Table(head: seq<Chord>, n: nat) {
    n < |head| && head[n].keycode == 0 && forall k :: 0 <= k < n ==> head[k].keycode != 0
  }

  method ChordLookup(head: seq<Chord>, keycode: int, mods: set<Mod>, ghost n: nat) returns (found: Option<nat>)
    requires Table(head, n)
    ensures found.Some? ==> found.value < n && head[found.value].keycode == keycode && head[found.value].mods == mods
    ensures forall k :: 0 <= k < (if found.Some? then found.value else n) ==>
      !(head[k].keycode == keycode && head[k].mods == mods)
  {
    var i := 0;
    while head[i].keycode != 0
      invariant 0 <= i <= n
      invariant forall k :: 0 <= k < i ==> !(head[k].keycode == keycode && head[k].mods == mods)
      decreases n - i
    {
      if head[i].keycode == keycode && head[i].mods == mods {
        return Some(i);
      }
      i := i + 1;
    }
    return None;
  }

  predicate Fires(c: Chord, keycode: int, prefix: set<Mod>) {
    c.keycode == keycode && c.mods != {} && c.mods <= prefix
  }

  /** `i` is the first of the most specific chords that fire. */
  ghost predicate IsBest(chords: seq<Chord>, keycode: int, prefix: set<Mod>, i: int) {
    && 0 <= i < |chords| && Fires(chords[i], keycode, prefix)
    && forall k :: 0 <= k < |chords| && Fires(chords[k], keycode, prefix) ==>
         |chords[k].mods| <= |chords[i].mods| && (|chords[k].mods| == |chords[i].mods| ==> i <= k)
  }

  lemma BestUnique(chords: seq<Chord>, keycode: int, prefix: set<Mod>, i: int, j: int)
    requires IsBest(chords, keycode, prefix, i) && IsBest(chords, keycode, prefix, j)
    ensures i == j
  {
  }

  /** The chord with the most modifier bits among those whose bits are all stuck; the first on a tie. */
  method ChordLookupSubset(head: seq<Chord>, keycode: int, prefix: set<Mod>, ghost n: nat) returns (best: Option<nat>)
    requires Table(head, n)
    ensures best.Some? ==> IsBest(head[..n], keycode, prefix, best.value)
    ensures best.None? ==> forall k :: 0 <= k < n ==> !Fires(head[k], keycode, prefix)
    ensures best.Some? ==>
      var b := best.value;
      && b < n && head[b].keycode == keycode && {} < head[b].mods <= prefix
      && forall k :: 0 <= k < n && head[k].keycode == keycode && {} < head[k].mods <= prefix ==>
           |head[k].mods| < |head[b].mods| || (|head[k].mods| == |head[b].mods| && b <= k)
    ensures best.None? ==>
      forall k :: 0 <= k < n && head[k].keycode == keycode && head[k].mods <= prefix ==> head[k].mods == {}
  {
    best := None;
    var bestBits, i := -1, 0;
    while head[i].keycode != 0
      invariant 0 <= i <= n
      invariant best.Some? ==> IsBest(head[..i], keycode, prefix, best.value) && bestBits == |head[best.value].mods|
      invariant best.None? ==> bestBits == -1 && forall k :: 0 <= k < i ==> !Fires(head[k], keycode, prefix)
      decreases n - i
    {
      assert forall k :: 0 <= k < i ==> head[..i + 1][k] == head[..i][k];
      var c := head[i];
      if c.keycode == keycode && c.mods != {} {
        if prefix * c.mods == c.mods {
          var bits := |c.mods|;
          if bits > bestBits {
            best, bestBits := Some(i), bits;
          }
        }
      }
      i := i + 1;
    }
  }

  // ---- The modifier state ----

  /** The keyboard state the modifier keys read and write. */
  datatype Keys = Keys(
    vmods: set<Mod>, altsymLock: bool, symmenu: Option<nat>, symmenuLock: bool, metamode: bool, vkbVisible: bool)

  datatype Prefs = Prefs(
    chords: seq<Chord>, stickySym: bool, stickyAlt: bool, stickyShift: bool, mainMenu: nat, menuHeight: int)

  function ModMask(s: Keys): set<Mod> {
    s.vmods * {Ctrl, Alt, Shift}
    + (if s.altsymLock then {Alt} else {})
    + if s.symmenu.Some? || s.symmenuLock then {Sym} else {}
  }

  function Toggled(s: Keys, m: Mod): Keys {
    s.(vmods := if m in s.vmods then s.vmods - {m} else s.vmods + {m})
  }

  /** Spends the modifiers a chord matched on. */
  function PrefixCleared(s: Keys, mask: set<Mod>): Keys {
    var v := s.(vmods := s.vmods - mask * {Ctrl, Alt, Shift});
    var a := if Alt in mask then v.(altsymLock := false) else v;
    if Sym in mask then a.(symmenu := None, symmenuLock := false) else a
  }

  function Dispatched(s: Keys, a: Action): Keys {
    match a
    case CtrlDown => Toggled(s, Ctrl)
    case MetamodeToggle => s.(metamode := !s.metamode)
    case SendBytes(_) => s
  }

  /** The modifier a key stands for, if the key is a modifier trigger at all. */
  function SelfMod(s: Keys, sym: int): Option<Mod> {
    if sym == KEYCODE_BB_SYM then Some(Sym)
    else if sym == KEYCODE_BB_ALT then Some(Alt)
    else if (sym == KEYCODE_LEFT_SHIFT || sym == KEYCODE_RIGHT_SHIFT) && !s.vkbVisible then Some(Shift)
    else None
  }

  function Trigger(sym: int): int {
    if sym == KEYCODE_RIGHT_SHIFT then KEYCODE_LEFT_SHIFT else sym
  }

  /** The key's own toggle, when no chord fires. */
  function Defaulted(p: Prefs, s: Keys, m: Mod, isRepeat: bool): Keys {
    match m
    case Sym =>
      if isRepeat then s.(symmenuLock := true)
      else if s.symmenu.Some? then s.(symmenu := None, symmenuLock := false)
      else if p.menuHeight <= 0 then s
      else s.(symmenu := Some(p.mainMenu), symmenuLock := s.symmenuLock || p.stickySym)
    case Alt => if isRepeat then s else s.(altsymLock := !s.altsymLock)
    case _ => if isRepeat then s else Toggled(s, Shift)
  }

  function Gate(p: Prefs, m: Mod): bool {
    match m
    case Alt => p.stickyAlt
    case Shift => p.stickyShift
    case _ => true
  }

  /** Some chord fires, and `s'` is the state after the best one. */
  ghost predicate ChordFired(chords: seq<Chord>, keycode: int, prefix: set<Mod>, s: Keys, s': Keys) {
    exists i :: IsBest(chords, keycode, prefix, i)
                && s' == Dispatched(PrefixCleared(s, chords[i].mods), chords[i].action)
  }

  /** What the modifier-key layer does: the consumed flag and the state after it. */
  ghost predicate ModkeyStep(p: Prefs, s: Keys, sym: int, isRepeat: bool, consumed: bool, s': Keys) {
    var self := SelfMod(s, sym);
    if self.None? then !consumed && s' == s
    else
      var m, prefix := self.value, ModMask(s) - {self.value};
      if !isRepeat && exists i :: IsBest(p.chords, Trigger(sym), prefix, i) then
        consumed && ChordFired(p.chords, Trigger(sym), prefix, s, s')
      else consumed == Gate(p, m) && s' == if Gate(p, m) then Defaulted(p, s, m, isRepeat) else s
  }

  /** No default chord is triggered by shift. */
  lemma NoShiftChord(prefix: set<Mod>)
    ensures forall i :: !IsBest(DEFAULT_CHORDS, KEYCODE_LEFT_SHIFT, prefix, i)
  {
    assert forall i :: 0 <= i < |DEFAULT_CHORDS| ==> DEFAULT_CHORDS[i].keycode != KEYCODE_LEFT_SHIFT;
  }

  lemma ShiftTap(p: Prefs, s: Keys, consumed: bool, s': Keys)
    requires p.chords == DEFAULT_CHORDS && p.stickyShift && !s.vkbVisible && Shift !in s.vmods
    ensures ModkeyStep(p, s, KEYCODE_LEFT_SHIFT, false, consumed, s') ==>
              consumed && s' == s.(vmods := s.vmods + {Shift})
  {
    NoShiftChord(ModMask(s) - {Shift});
  }

  lemma AltTap(p: Prefs, s: Keys, consumed: bool, s': Keys)
    requires p.chords == DEFAULT_CHORDS && Shift in s.vmods
    requires ModkeyStep(p, s, KEYCODE_BB_ALT, false, consumed, s')
    ensures consumed && s' == Toggled(s.(vmods := s.vmods - {Shift}), Ctrl)
  {
    var prefix := ModMask(s) - {Alt};
    assert DEFAULT_CHORDS[0].mods == {Shift} && Shift in prefix;
    assert forall i :: 0 < i < |DEFAULT_CHORDS| ==> DEFAULT_CHORDS[i].keycode != KEYCODE_BB_ALT;
    assert IsBest(DEFAULT_CHORDS, KEYCODE_BB_ALT, prefix, 0);
    var i :| IsBest(p.chords, Trigger(KEYCODE_BB_ALT), prefix, i)
             && s' == Dispatched(PrefixCleared(s, p.chords[i].mods), p.chords[i].action);
    BestUnique(p.chords, KEYCODE_BB_ALT, prefix, 0, i);
    assert s.vmods - {Shift} * {Ctrl, Alt, Shift} == s.vmods - {Shift};
  }

  /** Left shift and then alt, each pressed once. */
  ghost predicate ShiftAltTaps(p: Prefs, s: Keys, s': Keys) {
    exists v :: ModkeyStep(p, s, KEYCODE_LEFT_SHIFT, false, true, v)
                && ModkeyStep(p, v, KEYCODE_BB_ALT, false, true, s')
  }

  /** Both presses are consumed by the modifier layer. */
  lemma TapsConsumed(p: Prefs, s: Keys, c1: bool, s1: Keys, c2: bool, s2: Keys)
    requires p.chords == DEFAULT_CHORDS && p.stickyShift && !s.vkbVisible && Shift !in s.vmods
    requires ModkeyStep(p, s, KEYCODE_LEFT_SHIFT, false, c1, s1) && ModkeyStep(p, s1, KEYCODE_BB_ALT, false, c2, s2)
    ensures c1 && c2 && ShiftAltTaps(p, s, s2)
  {
    ShiftTap(p, s, c1, s1);
    AltTap(p, s1, c2, s2);
  }

  /** On the hardware keyboard with sticky shift, left shift and then alt flips exactly the Ctrl latch. */
  lemma ShiftAltFlipsCtrl(p: Prefs, s: Keys, s': Keys)
    requires p.chords == DEFAULT_CHORDS && p.stickyShift && !s.vkbVisible && Shift !in s.vmods
    requires ShiftAltTaps(p, s, s')
    ensures s' == Toggled(s, Ctrl)
  {
    var v :| ModkeyStep(p, s, KEYCODE_LEFT_SHIFT, false, true, v) && ModkeyStep(p, v, KEYCODE_BB_ALT, false, true, s');
    ShiftTap(p, s, true, v);
    AltTap(p, v, true, s');
    assert v.vmods - {Shift} == s.vmods;
  }

  lemma ToggledTwice(s: Keys, m: Mod)
    ensures Toggled(Toggled(s, m), m) == s
  {
    assert m in s.vmods ==> (s.vmods - {m}) + {m} == s.vmods;
    assert m !in s.vmods ==> (s.vmods + {m}) - {m} == s.vmods;
  }

  /** Doing it twice restores the whole modifier state, whatever else is latched. */
  lemma ShiftAltTwiceRestores(p: Prefs, s: Keys, s1: Keys, s2: Keys)
    requires p.chords == DEFAULT_CHORDS && p.stickyShift && !s.vkbVisible && Shift !in s.vmods
    ensures ShiftAltTaps(p, s, s1) && ShiftAltTaps(p, s1, s2) ==> s2 == s
  {
    if ShiftAltTaps(p, s, s1) && ShiftAltTaps(p, s1, s2) {
      ShiftAltFlipsCtrl(p, s, s1);
      ShiftAltFlipsCtrl(p, s1, s2);
      ToggledTwice(s, Ctrl);
    }
  }

  // ---- The state changes, spelled out ----

  /** Which modifiers count as stuck. */
  lemma ModMaskMeans(s: Keys)
    ensures Ctrl in ModMask(s) <==> Ctrl in s.vmods
    ensures Shift in ModMask(s) <==> Shift in s.vmods
    ensures Alt in ModMask(s) <==> Alt in s.vmods || s.altsymLock
    ensures Sym in ModMask(s) <==> s.symmenu.Some? || s.symmenuLock
  {
  }

  /** A chord spends its own modifiers wherever they are kept, and no others. */
  lemma PrefixClearedMeans(s: Keys, mask: set<Mod>)
    ensures var s' := PrefixCleared(s, mask);
      && (forall m :: m in s'.vmods <==> m in s.vmods && (m == Sym || m !in mask))
      && s'.altsymLock == (s.altsymLock && Alt !in mask)
      && s'.symmenu == (if Sym in mask then None else s.symmenu)
      && s'.symmenuLock == (s.symmenuLock && Sym !in mask)
      && s'.metamode == s.metamode && s'.vkbVisible == s.vkbVisible
  {
  }

  lemma ActionMeans(s: Keys, data: string)
    ensures Dispatched(s, SendBytes(data)) == s
    ensures Dispatched(s, MetamodeToggle) == s.(metamode := !s.metamode)
    ensures var s' := Dispatched(s, CtrlDown);
      s' == s.(vmods := s'.vmods) && forall m :: m in s'.vmods <==> (if m == Ctrl then m !in s.vmods else m in s.vmods)
  {
  }

  /** Alt on its own arms or disarms the symbol layer; held, it does nothing more. */
  lemma AltAlone(p: Prefs, s: Keys, isRepeat: bool, consumed: bool, s': Keys)
    requires forall k :: 0 <= k < |p.chords| ==> p.chords[k].keycode != KEYCODE_BB_ALT
    requires ModkeyStep(p, s, KEYCODE_BB_ALT, isRepeat, consumed, s')
    ensures consumed == p.stickyAlt
    ensures s' == if p.stickyAlt && !isRepeat then s.(altsymLock := !s.altsymLock) else s
  {
  }

  /** Either shift key on its own flips the shift latch, unless the on-screen keyboard is up. */
  lemma ShiftAlone(p: Prefs, s: Keys, sym: int, isRepeat: bool, consumed: bool, s': Keys)
    requires forall k :: 0 <= k < |p.chords| ==> p.chords[k].keycode != KEYCODE_LEFT_SHIFT
    requires sym == KEYCODE_LEFT_SHIFT || sym == KEYCODE_RIGHT_SHIFT
    requires ModkeyStep(p, s, sym, isRepeat, consumed, s')
    ensures consumed == (p.stickyShift && !s.vkbVisible)
    ensures s' == if !consumed || isRepeat then s
                  else s.(vmods := if Shift in s.vmods then s.vmods - {Shift} else s.vmods + {Shift})
  {
  }

  /** Sym on its own opens the main menu or closes the open one; held, it locks the menu. */
  lemma SymAlone(p: Prefs, s: Keys, isRepeat: bool, consumed: bool, s': Keys)
    requires forall k :: 0 <= k < |p.chords| ==> p.chords[k].keycode != KEYCODE_BB_SYM
    requires ModkeyStep(p, s, KEYCODE_BB_SYM, isRepeat, consumed, s')
    ensures consumed
    ensures s' == if isRepeat then s.(symmenuLock := true)
                  else if s.symmenu.Some? then s.(symmenu := None, symmenuLock := false)
                  else if p.menuHeight <= 0 then s
                  else s.(symmenu := Some(p.mainMenu), symmenuLock := s.symmenuLock || p.stickySym)
  {
  }

  /** Any other key is not for this layer. */
  lemma OtherKeyPasses(p: Prefs, s: Keys, sym: int, isRepeat: bool, consumed: bool, s': Keys)
    requires sym !in {KEYCODE_BB_SYM, KEYCODE_BB_ALT, KEYCODE_LEFT_SHIFT, KEYCODE_RIGHT_SHIFT}
    requires ModkeyStep(p, s, sym, isRepeat, consumed, s')
    ensures !consumed && s' == s
  {
  }

  // ---- The layer as it runs ----

  class Keyboard {
    var vmods: set<Mod>
    var altsymLock: bool
    var symmenu: Option<nat>
    var symmenuLock: bool
    var metamode: bool
    var vkbVisible: bool

    function Value(): Keys
      reads this
    {
      Keys(vmods, altsymLock, symmenu, symmenuLock, metamode, vkbVisible)
    }

    constructor ()
      ensures Value() == Keys({}, false, None, false, false, false)
    {
      vmods, altsymLock, symmenu, symmenuLock, metamode, vkbVisible := {}, false, None, false, false, false;
    }

    method ToggleVkeymod(m: Mod)
      modifies this`vmods
      ensures Value() == Toggled(old(Value()), m)
    {
      if m in vmods {
        vmods := vmods - {m};
      } else {
        vmods := vmods + {m};
      }
    }

    method ChordClearPrefix(mask: set<Mod>)
      modifies this
      ensures Value() == PrefixCleared(old(Value()), mask)
    {
      vmods := vmods - mask * {Ctrl, Alt, Shift};
      if Alt in mask {
        altsymLock := false;
      }
      if Sym in mask {
        symmenu, symmenuLock := None, false;
      }
    }

    method Dispatch(a: Action)
      modifies this
      ensures Value() == Dispatched(old(Value()), a)
    {
      match a {
        case CtrlDown => ToggleVkeymod(Ctrl);
        case MetamodeToggle => metamode := !metamode;
        case SendBytes(_) =>
      }
    }

    /** Fires the best chord the stuck prefix allows, spending only that chord's modifiers. */
    method TryChord(p: Prefs, head: seq<Chord>, keycode: int, prefix: set<Mod>) returns (fired: bool)
      requires Table(head, |p.chords|) && head[..|p.chords|] == p.chords
      modifies this
      ensures fired <==> exists i :: IsBest(p.chords, keycode, prefix, i)
      ensures fired ==> ChordFired(p.chords, keycode, prefix, old(Value()), Value())
      ensures !fired ==> Value() == old(Value())
    {
      var best := ChordLookupSubset(head, keycode, prefix, |p.chords|);
      if best.None? {
        assert forall k :: 0 <= k < |p.chords| ==> p.chords[k] == head[k];
        return false;
      }
      var c := head[best.value];
      assert c == p.chords[best.value];
      ChordClearPrefix(c.mods);
      Dispatch(c.action);
      return true;
    }

    method DefaultToggle(p: Prefs, m: Mod, isRepeat: bool)
      modifies this
      ensures Value() == Defaulted(p, old(Value()), m, isRepeat)
    {
      match m {
        case Sym =>
          if isRepeat {
            symmenuLock := true;
          } else if symmenu.None? {
            if p.menuHeight <= 0 { return; }
            symmenu := Some(p.mainMenu);
            if p.stickySym { symmenuLock := true; }
          } else {
            symmenu, symmenuLock := None, false;
          }
        case Alt => if !isRepeat { altsymLock := !altsymLock; }
        case _ => if !isRepeat { ToggleVkeymod(Shift); }
      }
    }

    /** Resolves a modifier-key press: a chord with the stuck prefix first, else its own toggle. */
    method LayerModkey(p: Prefs, head: seq<Chord>, sym: int, isRepeat: bool) returns (consumed: bool)
      requires Table(head, |p.chords|) && head[..|p.chords|] == p.chords
      modifies this
      ensures ModkeyStep(p, old(Value()), sym, isRepeat, consumed, Value())
    {
      var self := SelfMod(Value(), sym);
      if self.None? {
        return false;
      }
      var m, trig := self.value, Trigger(sym);
      if !isRepeat {
        var prefix := ModMask(Value()) - {m};
        if prefix != {} {
          consumed := TryChord(p, head, trig, prefix);
          if consumed {
            return;
          }
        } else {
          assert forall k :: 0 <= k < |p.chords| ==> !Fires(p.chords[k], trig, prefix);
        }
      }
      if Gate(p, m) {
        DefaultToggle(p, m, isRepeat);
        return true;
      }
      return false;
    }
  }
}
