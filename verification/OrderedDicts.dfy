/** Python's dict: a map that remembers the order in which its keys were inserted. */
module OrderedDicts {
  import opened Collections

  datatype Entry<K, V> = Entry(key: K, value: V)

  type Dict<K, V> = seq<Entry<K, V>>

  ghost predicate Valid<K(!new), V(!new)>(d: Dict<K, V>) {
    forall i, j :: 0 <= i < j < |d| ==> d[i].key != d[j].key
  }

  /** Position of the key; the length of the dict when it is absent. */
  function IndexOf<K(==), V>(d: Dict<K, V>, k: K): (i: nat)
    ensures i <= |d|
    ensures i < |d| ==> d[i].key == k
    ensures forall j :: 0 <= j < i ==> d[j].key != k
  {
    if d == [] || d[0].key == k then 0 else 1 + IndexOf(d[1..], k)
  }

  predicate Has<K(==), V>(d: Dict<K, V>, k: K) { IndexOf(d, k) < |d| }

  function Get<K(==), V>(d: Dict<K, V>, k: K): Option<V> {
    if Has(d, k) then Some(d[IndexOf(d, k)].value) else None
  }

  function KeysOf<K, V>(d: Dict<K, V>): seq<K> {
    seq(|d|, i requires 0 <= i < |d| => d[i].key)
  }

  /** `d[k] = v`: a present key keeps its place, a new one goes last. */
  function Set<K(==), V>(d: Dict<K, V>, k: K, v: V): Dict<K, V> {
    if Has(d, k) then d[IndexOf(d, k) := Entry(k, v)] else d + [Entry(k, v)]
  }

  /** `d.pop(k, None)`. */
  function Remove<K(==), V>(d: Dict<K, V>, k: K): Dict<K, V> {
    if Has(d, k) then d[..IndexOf(d, k)] + d[IndexOf(d, k) + 1..] else d
  }

  lemma {:induction false} IndexIs<K, V>(d: Dict<K, V>, k: K, i: nat)
    requires i <= |d| && (i < |d| ==> d[i].key == k)
    requires forall j :: 0 <= j < i ==> d[j].key != k
    ensures IndexOf(d, k) == i
  {
    if i > 0 {
      IndexIs(d[1..], k, i - 1);
    }
  }

  lemma SetGet<K(!new), V(!new)>(d: Dict<K, V>, k: K, v: V, other: K)
    requires Valid(d)
    ensures Valid(Set(d, k, v))
    ensures Get(Set(d, k, v), other) == if other == k then Some(v) else Get(d, other)
  {
    hide IndexOf;
    var m := Set(d, k, v);
    IndexIs(m, other, if other == k || Has(d, other) then IndexOf(d, other) else |m|);
  }

  lemma RemoveGet<K(!new), V(!new)>(d: Dict<K, V>, k: K, other: K)
    requires Valid(d)
    ensures Valid(Remove(d, k))
    ensures Get(Remove(d, k), other) == if other == k then None else Get(d, other)
  {
    hide IndexOf;
    var i, m, n := IndexOf(d, k), Remove(d, k), IndexOf(d, other);
    if i < |d| {
      assert forall j :: 0 <= j < |m| ==> m[j] == if j < i then d[j] else d[j + 1];
      IndexIs(m, other, if other == k || !Has(d, other) then |m| else if n > i then n - 1 else n);
    }
  }

  /** Removing a key that was just inserted undoes the insertion. */
  lemma RemoveNew<K(!new), V(!new)>(d: Dict<K, V>, k: K, v: V)
    requires !Has(d, k)
    ensures Remove(Set(d, k, v), k) == d
  {
    hide IndexOf;
    IndexIs(d + [Entry(k, v)], k, |d|);
  }

  lemma SetTwice<K(!new), V(!new)>(d: Dict<K, V>, k: K, v: V, w: V)
    ensures Set(Set(d, k, v), k, w) == Set(d, k, w)
  {
    hide IndexOf;
    IndexIs(Set(d, k, v), k, IndexOf(d, k));
  }
}
