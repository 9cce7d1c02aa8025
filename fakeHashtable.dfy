/**
 * The identity-keyed associative store of app/js/fakeHashtable.js: two
 * parallel arrays, `keys` and `values`, searched with `indexOf`. Keys are
 * compared with `==`, which for objects is reference identity.
 *
 * `Table` is the store's contents as a value and carries the meaning of every
 * operation; the class `FakeHashtable` keeps the two arrays as sequence
 * fields that its methods reassign, and is proved to follow `Table`.
 */
module FakeHashtables {
  import opened Optional
  import opened Sequences

  datatype Table<K(==), V> = Table(keys: seq<K>, values: seq<V>) {

    /** What the class keeps true: as many values as keys, no key twice. */
    ghost predicate Valid() {
      |keys| == |values| && Distinct(keys)
    }

    /** The key-to-value mapping the two arrays encode. */
    ghost function Mapping(): (m: map<K, V>)
      requires Valid()
      ensures m.Keys == set k | k in keys
    {
      map k | k in keys :: values[IndexOf(keys, k)]
    }

    /** `get`: the value beside the key, or undefined (`indexOf` gives -1) when the key is absent. */
    function Get(key: K): (r: Option<V>)
      ensures r.Some? ==> key in keys
      ensures Valid() ==> (r.Some? <==> key in keys)
      ensures Valid() ==> forall i :: 0 <= i < |keys| && keys[i] == key ==> r == Some(values[i])
    {
      var i := IndexOf(keys, key);
      assert Valid() ==> forall j :: 0 <= j < |keys| && keys[j] == key ==> j == i by {
        if Valid() {
          forall j | 0 <= j < |keys| && keys[j] == key ensures j == i {
            IndexOfDistinct(keys, j);
          }
        }
      }
      if 0 <= i < |values| then Some(values[i]) else None
    }

    /** `containsKey`: whether `indexOf` finds the key. */
    function ContainsKey(key: K): (b: bool)
      ensures b <==> key in keys
    {
      IndexOf(keys, key) != -1
    }

    /** `entries`: one `[key, get(key)]` pair per key, in insertion order. */
    function Entries(): (r: seq<(K, Option<V>)>)
      ensures |r| == |keys|
      ensures forall i :: 0 <= i < |r| ==> r[i].0 == keys[i]
      ensures Valid() ==> forall i :: 0 <= i < |r| ==> r[i].1 == Some(values[i])
    {
      seq(|keys|, i requires 0 <= i < |keys| => (keys[i], Get(keys[i])))
    }

    /**
     * `put`: overwrite the value in place when the key is present (both arrays
     * keep their length), otherwise push the key and the value.
     */
    function Put(key: K, value: V): (r: Table<K, V>)
      requires Valid()
      ensures r.Valid()
      ensures r.Get(key) == Some(value)
      ensures key in keys ==> r.keys == keys && r.values == values[IndexOf(keys, key) := value]
      ensures key !in keys ==> r.keys == keys + [key] && r.values == values + [value]
    {
      var i := IndexOf(keys, key);
      if i != -1 then
        var r := Table(keys[i := key], values[i := value]);
        assert r.keys == keys;
        r
      else
        var r := Table(keys + [key], values + [value]);
        assert r.keys[|keys|] == key;
        r
    }

    /** `softPut`: a `put` only when the key is absent; a present key keeps its value. */
    function SoftPut(key: K, value: V): (r: Table<K, V>)
      requires Valid()
      ensures r.Valid()
      ensures r.Get(key) == if key in keys then Get(key) else Some(value)
      ensures key in keys ==> r == this
      ensures key !in keys ==> r == Put(key, value)
    {
      if ContainsKey(key) then this else Put(key, value)
    }
  }

  /** `put` leaves the value of every other key as it was, present or absent. */
  lemma PutKeepsOthers<K, V>(t: Table<K, V>, key: K, value: V, other: K)
    requires t.Valid() && other != key
    ensures t.Put(key, value).Get(other) == t.Get(other)
  {
    var r := t.Put(key, value);
    if other in t.keys {
      var j := IndexOf(t.keys, other);
      assert r.keys[j] == other;
    } else {
      assert other !in r.keys;
    }
  }

  /** `softPut` leaves the value of every other key as it was. */
  lemma SoftPutKeepsOthers<K, V>(t: Table<K, V>, key: K, value: V, other: K)
    requires t.Valid() && other != key
    ensures t.SoftPut(key, value).Get(other) == t.Get(other)
  {
    if key !in t.keys {
      PutKeepsOthers(t, key, value, other);
    }
  }

  /** `put` is map update on the abstract mapping. */
  lemma {:induction false} PutMapping<K, V>(t: Table<K, V>, key: K, value: V)
    requires t.Valid()
    ensures t.Put(key, value).Mapping() == t.Mapping()[key := value]
  {
    var r := t.Put(key, value);
    var m := t.Mapping()[key := value];
    assert r.Mapping().Keys == m.Keys;
    forall k | k in m ensures r.Mapping()[k] == m[k] {
      var i := IndexOf(r.keys, k);
      assert r.Get(k) == Some(r.values[i]);
      if k != key {
        PutKeepsOthers(t, key, value, k);
        var j := IndexOf(t.keys, k);
        assert t.Get(k) == Some(t.values[j]);
      }
    }
  }

  /** `get` reads the abstract mapping. */
  lemma GetMapping<K, V>(t: Table<K, V>, key: K)
    requires t.Valid()
    ensures t.Get(key) == if key in t.Mapping() then Some(t.Mapping()[key]) else None
  {
  }

  /**
   * The store of app/js/fakeHashtable.js. Its two arrays are sequence
   * fields that `Put` reassigns: `values` updated at the key's index for a
   * present key, both extended by one element otherwise.
   */
  class FakeHashtable<K(==), V> {
    var keys: seq<K>
    var values: seq<V>

    function Content(): Table<K, V>
      reads this
    {
      Table(keys, values)
    }

    ghost predicate Valid()
      reads this
    {
      Content().Valid()
    }

    constructor ()
      ensures Valid() && Content() == Table([], [])
    {
      keys := [];
      values := [];
    }

    function Get(key: K): Option<V>
      reads this
    {
      Content().Get(key)
    }

    function ContainsKey(key: K): bool
      reads this
    {
      Content().ContainsKey(key)
    }

    function Entries(): seq<(K, Option<V>)>
      reads this
    {
      Content().Entries()
    }

    method Put(key: K, value: V)
      requires Valid()
      modifies this
      ensures Valid()
      ensures Content() == old(Content()).Put(key, value)
    {
      var i := IndexOf(keys, key);
      if i != -1 {
        keys := keys[i := key];
        values := values[i := value];
      } else {
        keys := keys + [key];
        values := values + [value];
      }
    }

    method SoftPut(key: K, value: V)
      requires Valid()
      modifies this
      ensures Valid()
      ensures Content() == old(Content()).SoftPut(key, value)
    {
      if !ContainsKey(key) {
        Put(key, value);
      }
    }
  }
}
