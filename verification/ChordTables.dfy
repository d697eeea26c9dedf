/** The chord table: the same merge, keyed by trigger and modifiers, with two owned strings a slot. */
module ChordTables {
  import opened Common
  import opened ConfigMerge
  import opened ConfigTables

  datatype Trigger = Trigger(keycode: int, mods: nat)

  datatype ChordVal = ChordVal(spec: string, label_: Option<string>)

  type ChordEntry = Entry<Trigger, ChordVal>

  /** A chord slot; `keycode` is 0 in the sentinel, and a missing label is NULL. */
  datatype Chord = Chord(keycode: int, mods: nat, spec: Ptr, label_: Ptr)

  const NO_CHORD := Chord(0, 0, 0, 0)

  ghost function Owner(c: Chord): set<Ptr> {
    {c.spec} + if c.label_ == 0 then {} else {c.label_}
  }

  ghost function Owners(slots: seq<Chord>): seq<set<Ptr>> {
    seq(|slots|, k requires 0 <= k < |slots| => Owner(slots[k]))
  }

  ghost predicate ChordHolds(c: Chord, live: map<Ptr, string>, e: ChordEntry) {
    && c.keycode == e.key.keycode != 0 && c.mods == e.key.mods
    && c.spec != 0 && c.spec in live && live[c.spec] == e.val.spec
    && (if c.label_ == 0 then e.val.label_.None?
        else c.label_ != c.spec && c.label_ in live && e.val.label_ == Some(live[c.label_]))
  }

  ghost predicate AllHold(slots: seq<Chord>, live: map<Ptr, string>, table: seq<ChordEntry>) {
    |slots| == |table| && forall k :: 0 <= k < |slots| ==> ChordHolds(slots[k], live, table[k])
  }

  ghost predicate ChordTable(
    slots: seq<Chord>, base: map<Ptr, string>, live: map<Ptr, string>, table: seq<ChordEntry>)
  {
    && AllHold(slots, live, table)
    && Owns(base.Keys, live.Keys, Owners(slots))
    && forall p :: p in base ==> p in live && live[p] == base[p]
  }

  /** A chord built from a user record, owned by nobody else yet. */
  ghost predicate Detached(c: Chord, before: map<Ptr, string>, live: map<Ptr, string>, e: ChordEntry) {
    && ChordHolds(c, live, e) && Owner(c) !! before.Keys
    && live.Keys == before.Keys + Owner(c)
    && forall p :: p in before ==> live[p] == before[p]
  }

  lemma Appended(slots: seq<Chord>, base: map<Ptr, string>, before: map<Ptr, string>, live: map<Ptr, string>,
                 table: seq<ChordEntry>, c: Chord, e: ChordEntry)
    requires ChordTable(slots, base, before, table) && Detached(c, before, live, e)
    ensures ChordTable(slots + [c], base, live, table + [e])
  {
    OwnsAppend(base.Keys, before.Keys, Owners(slots), Owner(c));
    assert Owners(slots + [c]) == Owners(slots) + [Owner(c)];
    forall k | 0 <= k < |slots| ensures ChordHolds(slots[k], live, table[k]) {
      assert ChordHolds(slots[k], before, table[k]);
    }
  }

  lemma OthersKept(slots: seq<Chord>, base: map<Ptr, string>, live: map<Ptr, string>, table: seq<ChordEntry>, j: nat)
    requires ChordTable(slots, base, live, table) && j < |slots|
    ensures Owners(slots)[j] == Owner(slots[j]) <= live.Keys && Owner(slots[j]) !! base.Keys
    ensures forall k :: 0 <= k < |slots| && k != j ==> ChordHolds(slots[k], live - Owner(slots[j]), table[k])
  {
    var owners := Owners(slots);
    assert owners[j] == Owner(slots[j]);
    forall k | 0 <= k < |slots| && k != j ensures ChordHolds(slots[k], live - Owner(slots[j]), table[k]) {
      assert owners[k] == Owner(slots[k]) && owners[if k < j then k else j] !! owners[if k < j then j else k];
      assert ChordHolds(slots[k], live, table[k]);
      assert slots[k].spec in owners[k] && (slots[k].label_ != 0 ==> slots[k].label_ in owners[k]);
    }
  }

  lemma AllHoldRemoved(slots: seq<Chord>, live: map<Ptr, string>, table: seq<ChordEntry>, j: nat)
    requires |slots| == |table| && j < |slots|
    requires forall k :: 0 <= k < |slots| && k != j ==> ChordHolds(slots[k], live, table[k])
    ensures AllHold(slots[..j] + slots[j + 1..], live, table[..j] + table[j + 1..])
  {
    var slots', table' := slots[..j] + slots[j + 1..], table[..j] + table[j + 1..];
    forall k | 0 <= k < |slots'| ensures ChordHolds(slots'[k], live, table'[k]) {
      var k0 := if k < j then k else k + 1;
      assert slots'[k] == slots[k0] && table'[k] == table[k0];
    }
  }

  lemma Removed(slots: seq<Chord>, base: map<Ptr, string>, live: map<Ptr, string>, table: seq<ChordEntry>, j: nat)
    requires ChordTable(slots, base, live, table) && j < |slots|
    ensures ChordTable(slots[..j] + slots[j + 1..], base, live - Owner(slots[j]), table[..j] + table[j + 1..])
  {
    var owners := Owners(slots);
    OthersKept(slots, base, live, table, j);
    OwnsRemove(base.Keys, live.Keys, owners, j);
    assert Owners(slots[..j] + slots[j + 1..]) == owners[..j] + owners[j + 1..];
    assert (live - Owner(slots[j])).Keys == live.Keys - owners[j];
    AllHoldRemoved(slots, live - Owner(slots[j]), table, j);
  }

  /** The old strings are freed and the new chord, already built, takes the slot. */
  lemma Replaced(slots: seq<Chord>, base: map<Ptr, string>, before: map<Ptr, string>, live: map<Ptr, string>,
                 table: seq<ChordEntry>, j: nat, c: Chord, e: ChordEntry)
    requires ChordTable(slots, base, before, table) && j < |slots| && Detached(c, before, live, e)
    ensures ChordTable(slots[j := c], base, live - Owner(slots[j]), table[j := e])
  {
    var owners, freed := Owners(slots), Owner(slots[j]);
    OthersKept(slots, base, before, table, j);
    OwnsReplace(base.Keys, before.Keys, owners, j, Owner(c));
    assert Owners(slots[j := c]) == owners[j := Owner(c)];
    assert (live - freed).Keys == before.Keys - owners[j] + Owner(c);
    forall k | 0 <= k < |slots| && k != j ensures ChordHolds(slots[k], live - freed, table[k]) {
      assert ChordHolds(slots[k], before - freed, table[k]);
    }
    assert ChordHolds(c, live - freed, e);
  }

  // ---- The loader ----

  /** Builds a chord, duplicating its strings. */
  method ChordAt(heap: StringHeap, key: Trigger, val: ChordVal) returns (c: Chord)
    requires heap.Valid() && key.keycode != 0
    modifies heap
    ensures heap.Valid() && Detached(c, old(heap.live), heap.live, Entry(key, val))
  {
    var spec := heap.StrDup(val.spec);
    var text := 0;
    if val.label_.Some? {
      text := heap.StrDup(val.label_.value);
    }
    c := Chord(key.keycode, key.mods, spec, text);
  }

  method FreeChord(heap: StringHeap, c: Chord)
    requires heap.Valid() && c.spec != 0 && c.spec != c.label_ && Owner(c) <= heap.live.Keys
    modifies heap`live
    ensures heap.Valid() && heap.live == old(heap.live) - Owner(c)
  {
    heap.Free(c.spec);
    heap.Free(c.label_);
  }

  method FindChord(result: array<Chord>, n: nat, key: Trigger, ghost live: map<Ptr, string>,
                   ghost table: seq<ChordEntry>) returns (j: nat)
    requires n <= result.Length && AllHold(result[..n], live, table)
    ensures j == Find(table, key, 0)
  {
    j := 0;
    while j < n && !(result[j].keycode == key.keycode && result[j].mods == key.mods)
      invariant 0 <= j <= n && Find(table, key, 0) == Find(table, key, j)
    {
      assert ChordHolds(result[..n][j], live, table[j]);
      j := j + 1;
    }
    assert j < n ==> ChordHolds(result[..n][j], live, table[j]);
  }

  method ChordUnset(heap: StringHeap, result: array<Chord>, n: nat, j: nat,
                    ghost base: map<Ptr, string>, ghost table: seq<ChordEntry>)
    requires heap.Valid() && j < n <= result.Length && ChordTable(result[..n], base, heap.live, table)
    modifies heap`live, result
    ensures heap.Valid() && ChordTable(result[..n - 1], base, heap.live, table[..j] + table[j + 1..])
  {
    ghost var slots := result[..n];
    assert result[j] == slots[j] && ChordHolds(slots[j], heap.live, table[j]);
    OthersKept(slots, base, heap.live, table, j);
    Removed(slots, base, heap.live, table, j);
    FreeChord(heap, result[j]);
    MoveDown(result, j, n);
  }

  method ChordSet(heap: StringHeap, result: array<Chord>, n: nat, j: nat, key: Trigger, val: ChordVal,
                  ghost base: map<Ptr, string>, ghost table: seq<ChordEntry>) returns (n': nat)
    requires heap.Valid() && j <= n < result.Length && key.keycode != 0
    requires ChordTable(result[..n], base, heap.live, table)
    modifies heap, result
    ensures heap.Valid() && n' == (if j < n then n else n + 1)
    ensures ChordTable(result[..n'], base, heap.live,
                       if j < n then table[j := Entry(key, val)] else table + [Entry(key, val)])
  {
    ghost var slots, before := result[..n], heap.live;
    var c := ChordAt(heap, key, val);
    n' := n;
    if j < n {
      assert result[j] == slots[j] && ChordHolds(slots[j], before, table[j]);
      OthersKept(slots, base, before, table, j);
      Replaced(slots, base, before, heap.live, table, j, c, Entry(key, val));
      FreeChord(heap, result[j]);
      result[j] := c;
      assert result[..n] == slots[j := c];
    } else {
      Appended(slots, base, before, heap.live, table, c, Entry(key, val));
      result[n] := c;
      n' := n + 1;
      assert result[..n'] == slots + [c];
    }
  }

  /** What validation lets through: every record names a key. */
  ghost predicate Validated(user: seq<UserEntry<Trigger, ChordVal>>) {
    forall k :: 0 <= k < |user| ==> user[k].key.keycode != 0
  }

  method ApplyChord(heap: StringHeap, result: array<Chord>, n: nat, u: UserEntry<Trigger, ChordVal>,
                    ghost base: map<Ptr, string>, ghost table: seq<ChordEntry>) returns (n': nat)
    requires heap.Valid() && n < result.Length && u.key.keycode != 0
    requires ChordTable(result[..n], base, heap.live, table)
    modifies heap, result
    ensures heap.Valid() && n' <= n + 1
    ensures ChordTable(result[..n'], base, heap.live, Apply(table, u))
  {
    var j := FindChord(result, n, u.key, heap.live, table);
    n' := n;
    ApplyAt(table, u, j);
    match u {
      case Unbind(_) =>
        if j < n {
          ChordUnset(heap, result, n, j, base, table);
          n' := n - 1;
        }
      case Bind(key, val) =>
        n' := ChordSet(heap, result, n, j, key, val, base, table);
    }
  }

  method ChordSeed(heap: StringHeap, result: array<Chord>, def: seq<ChordEntry>) returns (n: nat)
    requires heap.Valid() && |def| < result.Length && forall k :: 0 <= k < |def| ==> def[k].key.keycode != 0
    modifies heap, result
    ensures heap.Valid() && n == |def| && ChordTable(result[..n], old(heap.live), heap.live, def)
  {
    ghost var base := heap.live;
    n := 0;
    for i := 0 to |def|
      invariant heap.Valid() && n == i && ChordTable(result[..n], base, heap.live, def[..i])
    {
      n := ChordSet(heap, result, n, n, def[i].key, def[i].val, base, def[..i]);
      assert def[..i + 1] == def[..i] + [Entry(def[i].key, def[i].val)];
    }
    assert def[..|def|] == def;
  }

  method ChordApplyAll(heap: StringHeap, result: array<Chord>, def: seq<ChordEntry>,
                       user: seq<UserEntry<Trigger, ChordVal>>, ghost base: map<Ptr, string>) returns (n: nat)
    requires heap.Valid() && result.Length == |def| + |user| + 1 && Validated(user)
    requires ChordTable(result[..|def|], base, heap.live, def)
    modifies heap, result
    ensures heap.Valid() && n < result.Length
    ensures ChordTable(result[..n], base, heap.live, Merged(def, user, |user|))
  {
    n := |def|;
    for i := 0 to |user|
      invariant heap.Valid() && n <= |def| + i
      invariant ChordTable(result[..n], base, heap.live, Merged(def, user, i))
    {
      n := ApplyChord(heap, result, n, user[i], base, Merged(def, user, i));
    }
  }

  /** Builds the merged chord table; every write and the sentinel fit the allocation. */
  method ChordMerge(heap: StringHeap, def: seq<ChordEntry>, user: seq<UserEntry<Trigger, ChordVal>>)
    returns (result: array<Chord>, n: nat)
    requires heap.Valid() && Validated(user) && forall k :: 0 <= k < |def| ==> def[k].key.keycode != 0
    modifies heap
    ensures heap.Valid() && fresh(result) && result.Length == |def| + |user| + 1 && n < result.Length
    ensures ChordTable(result[..n], old(heap.live), heap.live, Merged(def, user, |user|))
    ensures result[n] == NO_CHORD
  {
    ghost var base := heap.live;
    result := new Chord[|def| + |user| + 1](_ => NO_CHORD);
    n := ChordSeed(heap, result, def);
    n := ChordApplyAll(heap, result, def, user, base);
    ghost var slots := result[..n];
    result[n] := NO_CHORD;
    assert result[..n] == slots;
  }

  lemma FirstFreed(slots: seq<Chord>, base: map<Ptr, string>, live: map<Ptr, string>, table: seq<ChordEntry>, i: nat)
    requires i < |slots| == |table| && ChordTable(slots[i..], base, live, table[i..])
    ensures var c := slots[i];
      && c.spec != 0 && c.spec != c.label_ && Owner(c) <= live.Keys
      && ChordTable(slots[i + 1..], base, live - Owner(c), table[i + 1..])
  {
    var rest, more := slots[i..], table[i..];
    assert ChordHolds(rest[0], live, more[0]);
    OthersKept(rest, base, live, more, 0);
    Removed(rest, base, live, more, 0);
    assert rest[..0] + rest[1..] == slots[i + 1..];
    assert more[..0] + more[1..] == table[i + 1..];
  }

  /** Frees both strings of every chord, each once, by walking to the sentinel. */
  method ChordDestroy(heap: StringHeap, result: array<Chord>, ghost n: nat, ghost base: map<Ptr, string>,
                      ghost table: seq<ChordEntry>)
    requires heap.Valid() && n < result.Length && result[n].keycode == 0
    requires ChordTable(result[..n], base, heap.live, table)
    modifies heap`live
    ensures heap.Valid() && heap.live == base
  {
    ghost var slots := result[..n];
    var i := 0;
    assert slots[0..] == slots && table[0..] == table;
    forall k | 0 <= k < n ensures result[k] == slots[k] && result[k].keycode != 0 {
      assert ChordHolds(slots[k], heap.live, table[k]);
    }
    while result[i].keycode != 0
      invariant 0 <= i <= n && heap.Valid() && |table| == n
      invariant ChordTable(slots[i..], base, heap.live, table[i..])
      decreases n - i
    {
      FirstFreed(slots, base, heap.live, table, i);
      FreeChord(heap, result[i]);
      i := i + 1;
    }
    assert Owners(slots[i..]) == [];
    NothingOwned(base.Keys, heap.live.Keys);
  }

  /** Building and tearing down a chord table frees exactly what was allocated. */
  method ChordLifetime(heap: StringHeap, def: seq<ChordEntry>, user: seq<UserEntry<Trigger, ChordVal>>)
    requires heap.Valid() && Validated(user) && forall k :: 0 <= k < |def| ==> def[k].key.keycode != 0
    modifies heap
    ensures heap.Valid() && heap.live == old(heap.live)
  {
    ghost var base := heap.live;
    var result, n := ChordMerge(heap, def, user);
    ChordDestroy(heap, result, n, base, Merged(def, user, |user|));
  }
}
