/** The registry of open sessions and the active tab. */
module Tabs {
  const MAX_SESSIONS: nat := 8

  /** The registry: session ids in tab order, the active index, and the next id to hand out. */
  datatype Registry = Registry(ids: seq<nat>, active: nat, nextId: nat)

  ghost predicate RegistryOk(r: Registry) {
    && |r.ids| <= MAX_SESSIONS && 0 < r.nextId
    && (if r.ids == [] then r.active == 0 else r.active < |r.ids|)
    && (forall i, j :: 0 <= i < j < |r.ids| ==> r.ids[i] < r.ids[j])
    && forall i :: 0 <= i < |r.ids| ==> 0 < r.ids[i] < r.nextId
  }

  function Open(r: Registry): Registry {
    if |r.ids| >= MAX_SESSIONS then r else Registry(r.ids + [r.nextId], |r.ids|, r.nextId + 1)
  }

  function Close(r: Registry, index: nat): Registry {
    if index >= |r.ids| then r
    else
      var ids := r.ids[..index] + r.ids[index + 1..];
      Registry(ids, if ids == [] then 0 else if r.active >= |ids| then |ids| - 1 else r.active, r.nextId)
  }

  function Next(r: Registry): Registry {
    if r.ids == [] then r else r.(active := (r.active + 1) % |r.ids|)
  }

  function Prev(r: Registry): Registry {
    if r.ids == [] then r else r.(active := (r.active + |r.ids| - 1) % |r.ids|)
  }

  function SelectIndex(r: Registry, index: nat): Registry {
    if index >= |r.ids| then r else r.(active := index)
  }

  datatype Op = OpenTab(created: bool) | CloseTab(index: nat) | NextTab | PrevTab | SelectTab(index: nat)

  function Step(r: Registry, op: Op): Registry {
    match op
    case OpenTab(created) => if created then Open(r) else r
    case CloseTab(index) => Close(r, index)
    case NextTab => Next(r)
    case PrevTab => Prev(r)
    case SelectTab(index) => SelectIndex(r, index)
  }

  function After(ops: seq<Op>): Registry {
    if ops == [] then Registry([1], 0, 2) else Step(After(ops[..|ops| - 1]), ops[|ops| - 1])
  }

  lemma Wrap(x: nat, n: nat)
    requires 0 < n && x < 2 * n
    ensures x % n == if x < n then x else x - n
  {
    var q, r := x / n, x % n;
    assert x == q * n + r;
    assert q >= 2 ==> q * n >= 2 * n;
    assert q == 0 || q == 1;
  }

  lemma CloseKeeps(r: Registry, index: nat)
    requires RegistryOk(r) && index < |r.ids|
    ensures RegistryOk(Close(r, index))
    ensures forall i :: 0 <= i < |Close(r, index).ids| ==> Close(r, index).ids[i] in r.ids
  {
    var ids := Close(r, index).ids;
    assert forall i :: 0 <= i < |ids| ==> ids[i] == r.ids[if i < index then i else i + 1];
  }

  lemma OpenKeeps(r: Registry)
    requires RegistryOk(r)
    ensures RegistryOk(Open(r)) && Open(r).nextId >= r.nextId
    ensures forall i :: 0 <= i < |Open(r).ids| ==> Open(r).ids[i] in r.ids || Open(r).ids[i] >= r.nextId
  {
  }

  lemma SelectionKeeps(r: Registry)
    requires RegistryOk(r)
    ensures RegistryOk(Next(r)) && RegistryOk(Prev(r))
  {
    if r.ids != [] {
      Wrap(r.active + 1, |r.ids|);
      Wrap(r.active + |r.ids| - 1, |r.ids|);
    }
  }

  lemma StepKeeps(r: Registry, op: Op)
    requires RegistryOk(r)
    ensures RegistryOk(Step(r, op)) && Step(r, op).nextId >= r.nextId
    ensures forall i :: 0 <= i < |Step(r, op).ids| ==>
      Step(r, op).ids[i] in r.ids || Step(r, op).ids[i] >= r.nextId
  {
    match op {
      case OpenTab(created) => OpenKeeps(r);
      case CloseTab(index) => if index < |r.ids| { CloseKeeps(r, index); }
      case _ => SelectionKeeps(r);
    }
  }

  /** Over every run: at most eight tabs, a valid selection, ids strictly increasing. */
  lemma {:induction false} RunOk(ops: seq<Op>)
    ensures RegistryOk(After(ops))
  {
    if ops != [] {
      RunOk(ops[..|ops| - 1]);
      StepKeeps(After(ops[..|ops| - 1]), ops[|ops| - 1]);
    }
  }

  /** An id that is gone never comes back: whatever follows, it is not handed out again. */
  lemma {:induction false} IdsNotReused(ops: seq<Op>, more: seq<Op>, id: nat)
    requires id < After(ops).nextId && id !in After(ops).ids
    ensures id !in After(ops + more).ids && id < After(ops + more).nextId
    decreases |more|
  {
    if more == [] {
      assert ops + more == ops;
    } else {
      var front := more[..|more| - 1];
      assert (ops + more)[..|ops + more| - 1] == ops + front;
      IdsNotReused(ops, front, id);
      RunOk(ops + front);
      StepKeeps(After(ops + front), more[|more| - 1]);
    }
  }

  lemma NextPrevInverse(r: Registry)
    requires RegistryOk(r)
    ensures Prev(Next(r)) == r && Next(Prev(r)) == r
  {
    if r.ids != [] {
      var n := |r.ids|;
      Wrap(r.active + 1, n);
      Wrap(Next(r).active + n - 1, n);
      Wrap(r.active + n - 1, n);
      Wrap(Prev(r).active + 1, n);
    }
  }

  /**
   * Closing another tab keeps the active session exactly when that tab is to the right, or
   * the active one is the last; otherwise the selection moves on to the next session.
   */
  lemma CloseMovesSelection(r: Registry, index: nat)
    requires RegistryOk(r) && index < |r.ids| && index != r.active
    ensures var r' := Close(r, index);
      && (r'.ids[r'.active] == r.ids[r.active] <==> index > r.active || r.active == |r.ids| - 1)
      && (index < r.active < |r.ids| - 1 ==> r'.ids[r'.active] == r.ids[r.active + 1])
  {
  }

  /**
   * The rollback of a tab that failed to start: the tabs are as before, but the last one is
   * active, which is the tab left behind if and only if that was the last.
   */
  lemma RollbackSelection(r: Registry)
    requires RegistryOk(r) && r.ids != [] && |r.ids| < MAX_SESSIONS
    ensures var r' := Close(Open(r), |r.ids|);
      r'.ids == r.ids && r'.active == |r.ids| - 1 && (r'.active == r.active <==> r.active == |r.ids| - 1)
  {
    assert Close(Open(r), |r.ids|).ids == r.ids;
  }

  lemma StepsLeft(slot: nat, active: nat, count: nat)
    requires slot < count && active < count && slot != active
    ensures (slot + count - (active + 1) % count) % count == (slot + count - active) % count - 1
  {
    Wrap(active + 1, count);
    Wrap(slot + count - active, count);
    Wrap(slot + count - (active + 1) % count, count);
  }

  lemma GapClosed(now: seq<nat>, ids: seq<nat>, index: nat)
    requires index < |ids| == |now| + 1
    requires forall k :: 0 <= k < |now| ==> now[k] == ids[if k < index then k else k + 1]
    ensures now == ids[..index] + ids[index + 1..]
  {
  }

  // ---- Each operation, spelled out ----

  lemma OpenMeans(r: Registry)
    requires RegistryOk(r)
    ensures Open(r) == if |r.ids| == 8 then r else Registry(r.ids + [r.nextId], |r.ids|, r.nextId + 1)
  {
  }

  /** Closing the active tab selects its right neighbour, or the left one if it was the last. */
  lemma CloseActive(r: Registry)
    requires RegistryOk(r) && |r.ids| > 1
    ensures var r' := Close(r, r.active);
      && r'.ids == r.ids[..r.active] + r.ids[r.active + 1..] && r'.nextId == r.nextId
      && r'.ids[r'.active] == r.ids[if r.active + 1 < |r.ids| then r.active + 1 else r.active - 1]
  {
  }

  /** Closing any tab removes it alone; the active index moves only if it would point past the end. */
  lemma CloseMeans(r: Registry, index: nat)
    requires RegistryOk(r)
    ensures Close(r, index)
            == if index >= |r.ids| then r
               else if |r.ids| == 1 then Registry([], 0, r.nextId)
               else Registry(r.ids[..index] + r.ids[index + 1..],
                             if r.active == |r.ids| - 1 then |r.ids| - 2 else r.active, r.nextId)
  {
  }

  /** Next goes right, previous goes left, both around the ends; nothing else changes. */
  lemma SelectionMeans(r: Registry)
    requires RegistryOk(r)
    ensures Next(r) == if r.ids == [] then r
                       else r.(active := if r.active == |r.ids| - 1 then 0 else r.active + 1)
    ensures Prev(r) == if r.ids == [] then r
                       else r.(active := if r.active == 0 then |r.ids| - 1 else r.active - 1)
  {
    if r.ids != [] {
      Wrap(r.active + 1, |r.ids|);
      Wrap(r.active + |r.ids| - 1, |r.ids|);
    }
  }

  class App {
    const sessions: array<nat>
    var count: nat
    var active: nat
    var nextId: nat

    ghost function Value(): Registry
      reads this, sessions
      requires count <= sessions.Length
    {
      Registry(sessions[..count], active, nextId)
    }

    ghost predicate Valid()
      reads this, sessions
    {
      sessions.Length == MAX_SESSIONS && count <= MAX_SESSIONS && RegistryOk(Value())
    }

    constructor ()
      ensures Valid() && Value() == After([]) && fresh(sessions)
    {
      sessions := new nat[MAX_SESSIONS](_ => 0);
      count, active, nextId := 1, 0, 2;
      new;
      sessions[0] := 1;
      assert sessions[..1] == [1];
    }

    /** `created` tells whether the session itself could be allocated. */
    method SessionOpen(created: bool) returns (ok: bool)
      requires Valid()
      modifies this, sessions
      ensures Valid() && Value() == Step(old(Value()), OpenTab(created))
      ensures ok <==> created && old(count) < MAX_SESSIONS
    {
      StepKeeps(Value(), OpenTab(created));
      if count >= sessions.Length || !created {
        return false;
      }
      sessions[count] := nextId;
      nextId := nextId + 1;
      active := count;
      count := count + 1;
      assert Value() == Open(old(Value()));
      return true;
    }

    /** Closes the gap at `index`. */
    method ShiftLeft(index: nat)
      requires index < count <= sessions.Length
      modifies sessions
      ensures var ids := old(sessions[..count]); sessions[..count - 1] == ids[..index] + ids[index + 1..]
    {
      ghost var ids := sessions[..count];
      var i := index;
      while i + 1 < count
        invariant index <= i < count
        invariant forall k :: 0 <= k < index ==> sessions[k] == ids[k]
        invariant forall k :: index <= k < i ==> sessions[k] == ids[k + 1]
        invariant forall k :: i <= k < count ==> sessions[k] == ids[k]
      {
        sessions[i] := sessions[i + 1];
        i := i + 1;
      }
      GapClosed(sessions[..count - 1], ids, index);
    }

    method SessionCloseIndex(index: nat)
      requires Valid()
      modifies this, sessions
      ensures Valid() && Value() == Step(old(Value()), CloseTab(index))
    {
      StepKeeps(Value(), CloseTab(index));
      if index >= count {
        return;
      }
      ghost var ids := sessions[..count];
      ShiftLeft(index);
      count := count - 1;
      sessions[count] := 0;
      assert sessions[..count] == ids[..index] + ids[index + 1..];
      if count == 0 {
        active := 0;
        return;
      }
      if active >= count {
        active := count - 1;
      }
    }

    method SelectNext()
      requires Valid()
      modifies this`active
      ensures Valid() && Value() == Next(old(Value()))
    {
      if count == 0 { return; }
      active := (active + 1) % count;
    }

    method SelectPrev()
      requires Valid()
      modifies this`active
      ensures Valid() && Value() == Prev(old(Value()))
    {
      if count == 0 { return; }
      active := (active + count - 1) % count;
    }

    /** A tap on the pill of a live tab steps forward until that tab is active. */
    method TapPill(slot: nat)
      requires Valid()
      modifies this`active
      ensures Valid() && Value() == SelectIndex(old(Value()), slot)
    {
      if slot != active && slot < count {
        while active != slot
          invariant Valid() && Value() == old(Value()).(active := active)
          decreases (slot + count - active) % count
        {
          ghost var before := active;
          SelectNext();
          StepsLeft(slot, before, count);
        }
      }
    }
  }
}
