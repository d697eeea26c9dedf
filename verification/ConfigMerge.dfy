/** Merging user tables over compiled defaults, as values. */
module ConfigMerge {
  import opened Common

  datatype Entry<K, V> = Entry(key: K, val: V)

  /** A user entry binds its key or, with `false` for an action, unbinds it. */
  datatype UserEntry<K, V> = Bind(key: K, val: V) | Unbind(key: K)

  function Keys<K, V>(table: seq<Entry<K, V>>): (keys: seq<K>)
    ensures |keys| == |table|
  {
    seq(|table|, k requires 0 <= k < |table| => table[k].key)
  }

  /** The first entry from `i` on with that key, or the end. */
  function Find<K(==), V>(table: seq<Entry<K, V>>, key: K, i: nat): (j: nat)
    requires i <= |table|
    ensures i <= j <= |table| && (j < |table| ==> table[j].key == key)
    ensures forall k :: i <= k < j ==> table[k].key != key
  {
    var keys := Keys(table);
    assert forall k :: 0 <= k < |table| ==> table[k].key == keys[k];
    IndexOf(keys, key, i)
  }

  function Lookup<K(==), V>(table: seq<Entry<K, V>>, key: K): Option<V> {
    var j := Find(table, key, 0);
    if j < |table| then Some(table[j].val) else None
  }

  /** What one user entry does to the table. */
  function Apply<K(==), V>(table: seq<Entry<K, V>>, u: UserEntry<K, V>): seq<Entry<K, V>> {
    var j := Find(table, u.key, 0);
    match u
    case Unbind(_) => if j < |table| then table[..j] + table[j + 1..] else table
    case Bind(key, val) => if j < |table| then table[j := Entry(key, val)] else table + [Entry(key, val)]
  }

  lemma ApplyAt<K, V>(table: seq<Entry<K, V>>, u: UserEntry<K, V>, j: nat)
    requires j == Find(table, u.key, 0)
    ensures u.Unbind? ==> Apply(table, u) == if j < |table| then table[..j] + table[j + 1..] else table
    ensures u.Bind? ==> Apply(table, u) == if j < |table| then table[j := Entry(table[j].key, u.val)]
                                           else table + [Entry(u.key, u.val)]
  {
  }

  function Merged<K(==), V>(def: seq<Entry<K, V>>, user: seq<UserEntry<K, V>>, n: nat): seq<Entry<K, V>>
    requires n <= |user|
  {
    if n == 0 then def else Apply(Merged(def, user, n - 1), user[n - 1])
  }

  // ---- The meaning of a merge ----

  /** What a key should be bound to: its last user entry decides, and else the default. */
  function Expected<K(==), V>(def: seq<Entry<K, V>>, user: seq<UserEntry<K, V>>, n: nat, key: K): Option<V>
    requires n <= |user|
  {
    if n == 0 then Lookup(def, key)
    else if user[n - 1].key == key then (match user[n - 1] case Bind(_, val) => Some(val) case Unbind(_) => None)
    else Expected(def, user, n - 1, key)
  }

  ghost predicate UniqueKeys<K, V>(table: seq<Entry<K, V>>) {
    forall i, j :: 0 <= i < j < |table| ==> table[i].key != table[j].key
  }

  lemma FindIs<K, V>(table: seq<Entry<K, V>>, key: K, i: nat)
    requires UniqueKeys(table) && i < |table| && table[i].key == key
    ensures Find(table, key, 0) == i
  {
    var j := Find(table, key, 0);
    assert j <= i;
  }

  lemma RemoveMeans<K, V>(table: seq<Entry<K, V>>, j: nat, key: K)
    requires UniqueKeys(table) && j < |table|
    ensures var t := table[..j] + table[j + 1..];
      UniqueKeys(t) && Lookup(t, key) == if table[j].key == key then None else Lookup(table, key)
  {
    var t, was := table[..j] + table[j + 1..], Find(table, key, 0);
    assert forall k :: 0 <= k < |t| ==> t[k] == table[if k < j then k else k + 1];
    if was < |table| && was != j {
      FindIs(t, key, if was < j then was else was - 1);
    }
  }

  lemma ApplyMeans<K, V>(table: seq<Entry<K, V>>, u: UserEntry<K, V>, key: K)
    requires UniqueKeys(table)
    ensures UniqueKeys(Apply(table, u)) && |Apply(table, u)| <= |table| + 1
    ensures Lookup(Apply(table, u), key)
            == if u.key != key then Lookup(table, key) else if u.Bind? then Some(u.val) else None
  {
    var j, t := Find(table, u.key, 0), Apply(table, u);
    var was := Find(table, key, 0);
    if u.Unbind? {
      if j < |table| {
        RemoveMeans(table, j, key);
      }
    } else {
      assert t[j] == Entry(u.key, u.val);
      assert forall k :: 0 <= k < |table| && k != j ==> t[k] == table[k];
      if key == u.key {
        FindIs(t, key, j);
      } else if was < |table| {
        FindIs(t, key, was);
      }
    }
  }

  /** With unique keys, a lookup finds the one entry with that key. */
  lemma LookupMeans<K, V>(table: seq<Entry<K, V>>, key: K, val: V)
    requires UniqueKeys(table)
    ensures Lookup(table, key) == Some(val) <==> Entry(key, val) in table
    ensures Lookup(table, key) == None <==> forall k :: 0 <= k < |table| ==> table[k].key != key
  {
    if Entry(key, val) in table {
      var k :| 0 <= k < |table| && table[k] == Entry(key, val);
      FindIs(table, key, k);
    }
  }

  /** A bound key changes in place, a new one goes last, an unbound one goes; the others stay put. */
  lemma ApplyPlaces<K, V>(table: seq<Entry<K, V>>, u: UserEntry<K, V>, j: nat)
    requires UniqueKeys(table) && j <= |table| && (j < |table| ==> table[j].key == u.key)
    requires j == |table| ==> forall k :: 0 <= k < |table| ==> table[k].key != u.key
    ensures Apply(table, u)
            == match u
               case Bind(key, val) => table[..j] + [Entry(key, val)] + (if j < |table| then table[j + 1..] else [])
               case Unbind(_) => if j < |table| then table[..j] + table[j + 1..] else table
  {
    if j < |table| {
      FindIs(table, u.key, j);
    }
    assert table[..|table|] == table;
  }

  /** The merged table is a last-writer-wins map over the defaults, with unique keys. */
  lemma {:induction false} MergeMeans<K, V>(def: seq<Entry<K, V>>, user: seq<UserEntry<K, V>>, n: nat, key: K)
    requires n <= |user| && UniqueKeys(def)
    ensures UniqueKeys(Merged(def, user, n)) && |Merged(def, user, n)| <= |def| + n
    ensures Lookup(Merged(def, user, n), key) == Expected(def, user, n, key)
  {
    if n > 0 {
      MergeMeans(def, user, n - 1, key);
      ApplyMeans(Merged(def, user, n - 1), user[n - 1], key);
    }
  }

  lemma RemoveKeepsOrder<K, V>(table: seq<Entry<K, V>>, gone: nat, a: K, b: K)
    requires UniqueKeys(table) && Find(table, a, 0) < Find(table, b, 0) < |table|
    requires gone < |table| && table[gone].key != a && table[gone].key != b
    ensures var t := table[..gone] + table[gone + 1..]; Find(t, a, 0) < Find(t, b, 0) < |t|
  {
    var t, i, j := table[..gone] + table[gone + 1..], Find(table, a, 0), Find(table, b, 0);
    RemoveMeans(table, gone, a);
    assert forall k :: 0 <= k < |t| ==> t[k] == table[if k < gone then k else k + 1];
    FindIs(t, a, if i < gone then i else i - 1);
    FindIs(t, b, if j < gone then j else j - 1);
  }

  lemma ApplyKeepsOrder<K, V>(table: seq<Entry<K, V>>, u: UserEntry<K, V>, a: K, b: K)
    requires UniqueKeys(table) && Find(table, a, 0) < Find(table, b, 0) < |table|
    requires u.Unbind? ==> u.key != a && u.key != b
    ensures var t := Apply(table, u); Find(t, a, 0) < Find(t, b, 0) < |t|
  {
    var t, i, j := Apply(table, u), Find(table, a, 0), Find(table, b, 0);
    var gone := Find(table, u.key, 0);
    if u.Unbind? {
      if gone < |table| {
        RemoveKeepsOrder(table, gone, a, b);
      }
    } else {
      ApplyMeans(table, u, a);
      assert t[i].key == a && t[j].key == b;
      FindIs(t, a, i);
      FindIs(t, b, j);
    }
  }

  /** Defaults that are never unbound keep their order. */
  lemma {:induction false} MergeKeepsOrder<K, V>(
    def: seq<Entry<K, V>>, user: seq<UserEntry<K, V>>, n: nat, a: nat, b: nat)
    requires n <= |user| && UniqueKeys(def) && a < b < |def|
    requires forall k :: 0 <= k < n && user[k].Unbind? ==> user[k].key != def[a].key && user[k].key != def[b].key
    ensures var t := Merged(def, user, n); Find(t, def[a].key, 0) < Find(t, def[b].key, 0) < |t|
  {
    if n == 0 {
      FindIs(def, def[a].key, a);
      FindIs(def, def[b].key, b);
    } else {
      MergeKeepsOrder(def, user, n - 1, a, b);
      MergeMeans(def, user, n - 1, def[a].key);
      ApplyKeepsOrder(Merged(def, user, n - 1), user[n - 1], def[a].key, def[b].key);
    }
  }
}
