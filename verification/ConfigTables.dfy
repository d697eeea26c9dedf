/**
 * The merged tables as the loader builds them: sentinel-terminated arrays that own their
 * strings, edited in place, and torn down by walking to the sentinel.
 */
module ConfigTables {
  import opened Common
  import opened ConfigMerge

  /** A heap pointer; 0 is NULL. */
  type Ptr = nat

  /** The C heap, as far as duplicated strings go. */
  class StringHeap {
    var live: map<Ptr, string>
    var next: Ptr

    ghost predicate Valid()
      reads this
    {
      0 < next && 0 !in live && forall p :: p in live ==> p < next
    }

    constructor ()
      ensures Valid() && live == map[]
    {
      live, next := map[], 1;
    }

    method StrDup(s: string) returns (p: Ptr)
      requires Valid()
      modifies this
      ensures Valid() && p != 0 && p !in old(live) && live == old(live)[p := s]
    {
      p := next;
      live := live[p := s];
      next := next + 1;
    }

    /** Freeing what is not live is an error; freeing NULL is not. */
    method Free(p: Ptr)
      requires Valid() && (p == 0 || p in live)
      modifies this`live
      ensures Valid() && live == old(live) - {p}
    {
      live := map q | q in live && q != p :: live[q];
    }
  }

  // ---- Who owns what ----

  ghost predicate Owned(p: Ptr, owners: seq<set<Ptr>>) {
    exists k :: 0 <= k < |owners| && p in owners[k]
  }

  /** Everything live is in `base` or owned by exactly one slot, exactly once. */
  ghost predicate Owns(base: set<Ptr>, live: set<Ptr>, owners: seq<set<Ptr>>) {
    && base <= live
    && (forall k :: 0 <= k < |owners| ==> owners[k] <= live && owners[k] !! base)
    && (forall i, j :: 0 <= i < j < |owners| ==> owners[i] !! owners[j])
    && forall p {:trigger Owned(p, owners)} :: p in live ==> p in base || Owned(p, owners)
  }

  lemma NothingOwned(base: set<Ptr>, live: set<Ptr>)
    requires Owns(base, live, [])
    ensures live == base
  {
    forall p | p in live ensures p in base {
      assert !Owned(p, []);
    }
  }

  lemma OwnsAppend(base: set<Ptr>, live: set<Ptr>, owners: seq<set<Ptr>>, s: set<Ptr>)
    requires Owns(base, live, owners) && s !! live
    ensures Owns(base, live + s, owners + [s])
  {
    var owners' := owners + [s];
    assert owners'[|owners|] == s;
    forall p | p in live + s ensures p in base || Owned(p, owners') {
      if p in live && p !in base {
        assert Owned(p, owners);
        var k :| 0 <= k < |owners| && p in owners[k];
        assert p in owners'[k];
      }
    }
  }

  lemma OwnsRemove(base: set<Ptr>, live: set<Ptr>, owners: seq<set<Ptr>>, j: nat)
    requires Owns(base, live, owners) && j < |owners|
    ensures Owns(base, live - owners[j], owners[..j] + owners[j + 1..])
  {
    var owners' := owners[..j] + owners[j + 1..];
    assert forall k :: 0 <= k < |owners'| ==> owners'[k] == owners[if k < j then k else k + 1];
    forall p | p in live - owners[j] ensures p in base || Owned(p, owners') {
      if p !in base {
        assert Owned(p, owners);
        var k :| 0 <= k < |owners| && p in owners[k];
        assert p in owners'[if k < j then k else k - 1];
      }
    }
  }

  lemma OwnsReplace(base: set<Ptr>, live: set<Ptr>, owners: seq<set<Ptr>>, j: nat, s: set<Ptr>)
    requires Owns(base, live, owners) && j < |owners| && s !! (live - owners[j])
    requires s !! base
    ensures Owns(base, live - owners[j] + s, owners[j := s])
  {
    var owners' := owners[j := s];
    assert owners'[j] == s;
    forall p | p in live - owners[j] + s ensures p in base || Owned(p, owners') {
      if p !in base && p !in s {
        assert Owned(p, owners);
        var k :| 0 <= k < |owners| && p in owners[k];
        assert p in owners'[k];
      }
    }
  }

  // ---- Keymaps ----

  datatype Binding = Binding(to: string, sticky: bool)

  /** A keymap slot; `to` is NULL in the sentinel. */
  datatype Keymap = Keymap(from: char, to: Ptr, sticky: bool)

  ghost function KeymapOwner(slot: Keymap): set<Ptr> {
    {slot.to}
  }

  ghost function KeymapOwners(slots: seq<Keymap>): seq<set<Ptr>> {
    seq(|slots|, k requires 0 <= k < |slots| => KeymapOwner(slots[k]))
  }

  ghost predicate KeymapHolds(slots: seq<Keymap>, live: map<Ptr, string>, table: seq<Entry<char, Binding>>) {
    && |slots| == |table|
    && forall k :: 0 <= k < |slots| ==>
         && slots[k].to != 0 && slots[k].to in live
         && slots[k].from == table[k].key
         && live[slots[k].to] == table[k].val.to && slots[k].sticky == table[k].val.sticky
  }

  /** `slots` are the live part of a table that holds `table`, and own all that is not in `base`. */
  ghost predicate KeymapTable(
    slots: seq<Keymap>, base: map<Ptr, string>, live: map<Ptr, string>, table: seq<Entry<char, Binding>>)
  {
    && KeymapHolds(slots, live, table)
    && Owns(base.Keys, live.Keys, KeymapOwners(slots))
    && forall p :: p in base ==> p in live && live[p] == base[p]
  }

  lemma KeymapAppended(slots: seq<Keymap>, base: map<Ptr, string>, live: map<Ptr, string>,
                       table: seq<Entry<char, Binding>>, key: char, val: Binding, p: Ptr)
    requires KeymapTable(slots, base, live, table) && p != 0 && p !in live
    ensures KeymapTable(slots + [Keymap(key, p, val.sticky)], base, live[p := val.to], table + [Entry(key, val)])
  {
    var slots' := slots + [Keymap(key, p, val.sticky)];
    OwnsAppend(base.Keys, live.Keys, KeymapOwners(slots), {p});
    assert KeymapOwners(slots') == KeymapOwners(slots) + [{p}];
    assert live[p := val.to].Keys == live.Keys + {p};
  }

  lemma KeymapPtrsDistinct(slots: seq<Keymap>, base: set<Ptr>, live: set<Ptr>, j: nat)
    requires Owns(base, live, KeymapOwners(slots)) && j < |slots|
    ensures KeymapOwners(slots)[j] == {slots[j].to} && slots[j].to in live && slots[j].to !in base
    ensures forall k :: 0 <= k < |slots| && k != j ==> slots[k].to != slots[j].to
  {
    var owners := KeymapOwners(slots);
    assert owners[j] == {slots[j].to};
    forall k | 0 <= k < |slots| && k != j ensures slots[k].to != slots[j].to {
      assert owners[k] == {slots[k].to} && owners[if k < j then k else j] !! owners[if k < j then j else k];
    }
  }

  lemma KeymapHoldsReplaced(slots: seq<Keymap>, live: map<Ptr, string>, table: seq<Entry<char, Binding>>,
                            j: nat, val: Binding, p: Ptr)
    requires KeymapHolds(slots, live, table) && j < |slots| && p != 0 && p !in live - {slots[j].to}
    requires forall k :: 0 <= k < |slots| && k != j ==> slots[k].to != slots[j].to
    ensures KeymapHolds(slots[j := Keymap(slots[j].from, p, val.sticky)], (live - {slots[j].to})[p := val.to],
                        table[j := Entry(table[j].key, val)])
  {
    assert forall k :: 0 <= k < |slots| && k != j ==> slots[k].to in live - {slots[j].to};
  }

  lemma KeymapReplaced(slots: seq<Keymap>, base: map<Ptr, string>, live: map<Ptr, string>,
                       table: seq<Entry<char, Binding>>, j: nat, val: Binding, p: Ptr)
    requires KeymapTable(slots, base, live, table) && j < |slots|
    requires p != 0 && p !in live - {slots[j].to}
    ensures KeymapTable(slots[j := Keymap(slots[j].from, p, val.sticky)], base, (live - {slots[j].to})[p := val.to],
                        table[j := Entry(table[j].key, val)])
  {
    var slots' := slots[j := Keymap(slots[j].from, p, val.sticky)];
    var live' := (live - {slots[j].to})[p := val.to];
    var owners := KeymapOwners(slots);
    KeymapPtrsDistinct(slots, base.Keys, live.Keys, j);
    assert forall q :: q in base ==> q in live - {slots[j].to};
    OwnsReplace(base.Keys, live.Keys, owners, j, {p});
    assert KeymapOwners(slots') == owners[j := {p}];
    assert live'.Keys == live.Keys - owners[j] + {p};
    KeymapHoldsReplaced(slots, live, table, j, val, p);
  }

  lemma KeymapHoldsRemoved(slots: seq<Keymap>, live: map<Ptr, string>, table: seq<Entry<char, Binding>>, j: nat)
    requires KeymapHolds(slots, live, table) && j < |slots|
    requires forall k :: 0 <= k < |slots| && k != j ==> slots[k].to != slots[j].to
    ensures KeymapHolds(slots[..j] + slots[j + 1..], live - {slots[j].to}, table[..j] + table[j + 1..])
  {
    var slots', table' := slots[..j] + slots[j + 1..], table[..j] + table[j + 1..];
    assert forall k :: 0 <= k < |slots'| ==> slots'[k] == slots[if k < j then k else k + 1];
    assert forall k :: 0 <= k < |slots'| ==> table'[k] == table[if k < j then k else k + 1];
  }

  lemma KeymapRemoved(slots: seq<Keymap>, base: map<Ptr, string>, live: map<Ptr, string>,
                      table: seq<Entry<char, Binding>>, j: nat)
    requires KeymapTable(slots, base, live, table) && j < |slots|
    ensures KeymapTable(slots[..j] + slots[j + 1..], base, live - {slots[j].to}, table[..j] + table[j + 1..])
  {
    var owners := KeymapOwners(slots);
    KeymapPtrsDistinct(slots, base.Keys, live.Keys, j);
    OwnsRemove(base.Keys, live.Keys, owners, j);
    assert KeymapOwners(slots[..j] + slots[j + 1..]) == owners[..j] + owners[j + 1..];
    assert (live - {slots[j].to}).Keys == live.Keys - owners[j];
    KeymapHoldsRemoved(slots, live, table, j);
  }

  const NO_KEYMAP := Keymap('\0', 0, false)

  /** The first slot with that key among the `n` live ones, or `n`. */
  method FindKeymap(result: array<Keymap>, n: nat, key: char, ghost live: map<Ptr, string>,
                    ghost table: seq<Entry<char, Binding>>) returns (j: nat)
    requires n <= result.Length && KeymapHolds(result[..n], live, table)
    ensures j == Find(table, key, 0)
  {
    j := 0;
    while j < n && result[j].from != key
      invariant 0 <= j <= n && Find(table, key, 0) == Find(table, key, j)
    {
      assert result[j] == result[..n][j];
      j := j + 1;
    }
    assert j < n ==> result[j] == result[..n][j];
  }

  /** The `memmove` that closes the gap at `j`. */
  method MoveDown<T>(result: array<T>, j: nat, n: nat)
    requires j < n <= result.Length
    modifies result
    ensures result[..n - 1] == old(result[..n])[..j] + old(result[..n])[j + 1..]
  {
    forall k | j <= k < n - 1 {
      result[k] := result[k + 1];
    }
  }

  method KeymapUnset(heap: StringHeap, result: array<Keymap>, n: nat, j: nat,
                     ghost base: map<Ptr, string>, ghost table: seq<Entry<char, Binding>>)
    requires heap.Valid() && j < n <= result.Length && KeymapTable(result[..n], base, heap.live, table)
    modifies heap`live, result
    ensures heap.Valid() && KeymapTable(result[..n - 1], base, heap.live, table[..j] + table[j + 1..])
  {
    ghost var slots := result[..n];
    assert result[j] == slots[j];
    KeymapRemoved(slots, base, heap.live, table, j);
    heap.Free(result[j].to);
    MoveDown(result, j, n);
  }

  method KeymapOverride(heap: StringHeap, result: array<Keymap>, n: nat, j: nat, val: Binding,
                        ghost base: map<Ptr, string>, ghost table: seq<Entry<char, Binding>>)
    requires heap.Valid() && j < n <= result.Length && KeymapTable(result[..n], base, heap.live, table)
    modifies heap, result
    ensures heap.Valid() && KeymapTable(result[..n], base, heap.live, table[j := Entry(table[j].key, val)])
  {
    ghost var slots, live := result[..n], heap.live;
    assert result[j] == slots[j];
    heap.Free(result[j].to);
    var p := heap.StrDup(val.to);
    KeymapReplaced(slots, base, live, table, j, val, p);
    result[j] := Keymap(result[j].from, p, val.sticky);
    assert result[..n] == slots[j := Keymap(slots[j].from, p, val.sticky)];
  }

  method KeymapAppend(heap: StringHeap, result: array<Keymap>, n: nat, key: char, val: Binding,
                      ghost base: map<Ptr, string>, ghost table: seq<Entry<char, Binding>>)
    requires heap.Valid() && n < result.Length && KeymapTable(result[..n], base, heap.live, table)
    modifies heap, result
    ensures heap.Valid() && KeymapTable(result[..n + 1], base, heap.live, table + [Entry(key, val)])
  {
    ghost var slots, live := result[..n], heap.live;
    var p := heap.StrDup(val.to);
    KeymapAppended(slots, base, live, table, key, val, p);
    result[n] := Keymap(key, p, val.sticky);
    assert result[..n + 1] == slots + [Keymap(key, p, val.sticky)];
  }

  /** Applies one validated user entry to the table in place. */
  method ApplyKeymap(heap: StringHeap, result: array<Keymap>, n: nat, u: UserEntry<char, Binding>,
                     ghost base: map<Ptr, string>, ghost table: seq<Entry<char, Binding>>) returns (n': nat)
    requires heap.Valid() && n < result.Length && KeymapTable(result[..n], base, heap.live, table)
    modifies heap, result
    ensures heap.Valid() && n' <= n + 1
    ensures n' <= result.Length && KeymapTable(result[..n'], base, heap.live, Apply(table, u))
  {
    var j := FindKeymap(result, n, u.key, heap.live, table);
    n' := n;
    ApplyAt(table, u, j);
    match u {
      case Unbind(_) =>
        if j < n {
          KeymapUnset(heap, result, n, j, base, table);
          n' := n - 1;
        }
      case Bind(key, val) =>
        if j < n {
          KeymapOverride(heap, result, n, j, val, base, table);
        } else {
          KeymapAppend(heap, result, n, key, val, base, table);
          n' := n + 1;
        }
    }
  }

  /** Copies the defaults into a zeroed table. */
  method KeymapSeed(heap: StringHeap, result: array<Keymap>, def: seq<Entry<char, Binding>>)
    requires heap.Valid() && |def| <= result.Length
    modifies heap, result
    ensures heap.Valid() && KeymapTable(result[..|def|], old(heap.live), heap.live, def)
  {
    ghost var base := heap.live;
    for i := 0 to |def|
      invariant heap.Valid() && KeymapTable(result[..i], base, heap.live, def[..i])
    {
      KeymapAppend(heap, result, i, def[i].key, def[i].val, base, def[..i]);
      assert def[..i + 1] == def[..i] + [Entry(def[i].key, def[i].val)];
    }
    assert def[..|def|] == def;
  }

  /** Applies the user's entries in file order. */
  method KeymapApplyAll(heap: StringHeap, result: array<Keymap>, def: seq<Entry<char, Binding>>,
                        user: seq<UserEntry<char, Binding>>, ghost base: map<Ptr, string>) returns (n: nat)
    requires heap.Valid() && result.Length == |def| + |user| + 1
    requires KeymapTable(result[..|def|], base, heap.live, def)
    modifies heap, result
    ensures heap.Valid() && n < result.Length
    ensures KeymapTable(result[..n], base, heap.live, Merged(def, user, |user|))
  {
    n := |def|;
    for i := 0 to |user|
      invariant heap.Valid() && n <= |def| + i
      invariant KeymapTable(result[..n], base, heap.live, Merged(def, user, i))
    {
      n := ApplyKeymap(heap, result, n, user[i], base, Merged(def, user, i));
    }
  }

  /** Merges the user's table over the defaults; every write and the sentinel fit the allocation. */
  method KeymapMerge(heap: StringHeap, def: seq<Entry<char, Binding>>, user: seq<UserEntry<char, Binding>>)
    returns (result: array<Keymap>, n: nat)
    requires heap.Valid()
    modifies heap
    ensures heap.Valid() && fresh(result) && result.Length == |def| + |user| + 1 && n < result.Length
    ensures KeymapTable(result[..n], old(heap.live), heap.live, Merged(def, user, |user|))
    ensures result[n] == NO_KEYMAP
  {
    ghost var base := heap.live;
    result := new Keymap[|def| + |user| + 1](_ => NO_KEYMAP);
    KeymapSeed(heap, result, def);
    n := KeymapApplyAll(heap, result, def, user, base);
    ghost var slots := result[..n];
    result[n] := NO_KEYMAP;
    assert result[..n] == slots;
  }

  /** Looks a key up in a built table by walking to the sentinel. */
  method KeymapLookup(result: array<Keymap>, key: char, ghost n: nat, ghost live: map<Ptr, string>,
                      ghost table: seq<Entry<char, Binding>>) returns (found: Option<Keymap>)
    requires n < result.Length && KeymapHolds(result[..n], live, table) && result[n].to == 0
    ensures found.Some? <==> Lookup(table, key).Some?
    ensures found.Some? ==> found.value.to in live
    ensures found.Some? ==> Lookup(table, key) == Some(Binding(live[found.value.to], found.value.sticky))
  {
    var i := 0;
    assert forall k :: 0 <= k < n ==> result[k] == result[..n][k] && result[k].to != 0;
    while result[i].to != 0
      invariant 0 <= i <= n && Find(table, key, 0) == Find(table, key, i)
      decreases n - i
    {
      if result[i].from == key {
        return Some(result[i]);
      }
      i := i + 1;
    }
    return None;
  }

  /** Frees every string of a table, each once, by walking to the sentinel. */
  method KeymapDestroy(heap: StringHeap, result: array<Keymap>, ghost n: nat, ghost base: map<Ptr, string>,
                       ghost table: seq<Entry<char, Binding>>)
    requires heap.Valid() && n < result.Length && result[n].to == 0
    requires KeymapTable(result[..n], base, heap.live, table)
    modifies heap`live
    ensures heap.Valid() && heap.live == base
  {
    ghost var slots := result[..n];
    var i := 0;
    assert slots[0..] == slots && table[0..] == table;
    assert forall k :: 0 <= k < n ==> result[k] == slots[k] && result[k].to != 0;
    while result[i].to != 0
      invariant 0 <= i <= n && heap.Valid() && |table| == n
      invariant KeymapTable(slots[i..], base, heap.live, table[i..])
      decreases n - i
    {
      KeymapRemoved(slots[i..], base, heap.live, table[i..], 0);
      assert slots[i..][..0] + slots[i..][1..] == slots[i + 1..];
      assert table[i..][..0] + table[i..][1..] == table[i + 1..];
      heap.Free(result[i].to);
      i := i + 1;
    }
    assert KeymapOwners(slots[i..]) == [];
    NothingOwned(base.Keys, heap.live.Keys);
  }

  /** Building a table, using it and tearing it down frees exactly what was allocated. */
  method KeymapLifetime(
      heap: StringHeap, def: seq<Entry<char, Binding>>, user: seq<UserEntry<char, Binding>>, key: char)
    returns (to: Option<string>)
    requires heap.Valid() && UniqueKeys(def)
    modifies heap
    ensures heap.Valid() && heap.live == old(heap.live)
    ensures var e := Expected(def, user, |user|, key);
      to == if e.Some? then Some(e.value.to) else None
  {
    ghost var base, table := heap.live, Merged(def, user, |user|);
    var result, n := KeymapMerge(heap, def, user);
    var found := KeymapLookup(result, key, n, heap.live, table);
    MergeMeans(def, user, |user|, key);
    to := None;
    if found.Some? {
      to := Some(heap.live[found.value.to]);
    }
    KeymapDestroy(heap, result, n, base, table);
  }
}
