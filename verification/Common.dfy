/** What several components share. */
module Common {
  datatype Option<+T> = None | Some(value: T)

  type byte = x: int | 0 <= x < 256

  datatype Rgb = Rgb(r: byte, g: byte, b: byte)

  lemma Associative<T>(a: seq<T>, b: seq<T>, c: seq<T>)
    ensures a + (b + c) == (a + b) + c
  {
  }

  function Concat(parts: seq<string>): string {
    if parts == [] then "" else Concat(parts[..|parts| - 1]) + parts[|parts| - 1]
  }

  /** The first place from `i` on that holds `key`, or the end. */
  function IndexOf<K(==)>(keys: seq<K>, key: K, i: nat): (j: nat)
    requires i <= |keys|
    ensures i <= j <= |keys| && (j < |keys| ==> keys[j] == key)
    ensures forall k :: i <= k < j ==> keys[k] != key
    decreases |keys| - i
  {
    if i == |keys| || keys[i] == key then i else IndexOf(keys, key, i + 1)
  }
}
