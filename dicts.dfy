/** Python's built-in `dict`, as the launcher uses it: a finite map that
    remembers the order in which its keys were first inserted. Iterating
    over it (`items()`, `values()`) follows that order; assigning to a key
    that is already present keeps the key's position; deleting a key and
    inserting it again moves it to the end. */
module Dicts {

  datatype Dict<K, V> = Dict(keys: seq<K>, vals: map<K, V>)

  ghost predicate Distinct<K>(s: seq<K>) {
    forall i, j :: 0 <= i < j < |s| ==> s[i] != s[j]
  }

  /** The insertion order lists every key of the map exactly once. */
  ghost predicate Valid<K, V>(d: Dict<K, V>) {
    && Distinct(d.keys)
    && (forall k :: k in d.keys ==> k in d.vals)
    && (forall k :: k in d.vals ==> k in d.keys)
  }

  function Empty<K(==), V>(): (d: Dict<K, V>)
    ensures Valid(d) && d.keys == [] && d.vals == map[]
  {
    Dict([], map[])
  }

  function Id<K>(k: K): K { k }

  /** The list comprehension `[x for x in s if key(x) != k]`. */
  function Drop<K(==), V>(s: seq<V>, key: V -> K, k: K): seq<V>
    decreases |s|
  {
    if s == [] then []
    else Drop(s[..|s| - 1], key, k) + (if key(s[|s| - 1]) == k then [] else [s[|s| - 1]])
  }

  /** `Drop` keeps exactly the elements whose key differs from `k`. */
  lemma {:induction false} DropMembers<K, V>(s: seq<V>, key: V -> K, k: K)
    ensures forall x :: x in Drop(s, key, k) <==> x in s && key(x) != k
    decreases |s|
  {
    if s != [] {
      var init := s[..|s| - 1];
      DropMembers(init, key, k);
      assert s == init + [s[|s| - 1]];
    }
  }

  /** `Drop` works piecewise, so the survivors keep their relative order. */
  lemma {:induction false} DropAppend<K, V>(a: seq<V>, b: seq<V>, key: V -> K, k: K)
    ensures Drop(a + b, key, k) == Drop(a, key, k) + Drop(b, key, k)
    decreases |b|
  {
    if b == [] {
      assert a + b == a;
    } else {
      var b' := b[..|b| - 1];
      var x := b[|b| - 1];
      assert (a + b)[..|a + b| - 1] == a + b';
      DropAppend(a, b', key, k);
    }
  }

  lemma {:induction false} DropDistinct<K>(s: seq<K>, k: K)
    requires Distinct(s)
    ensures Distinct(Drop(s, Id, k))
    decreases |s|
  {
    if s != [] {
      var init := s[..|s| - 1];
      DropDistinct(init, k);
      DropMembers(init, Id, k);
    }
  }

  lemma DropKeyMember<K>(keys: seq<K>, k: K, j: K)
    requires j in Drop(keys, Id, k)
    ensures j in keys && j != k
  {
    DropMembers(keys, Id, k);
  }

  lemma RemoveValid<K, V>(d: Dict<K, V>, k: K)
    requires Valid(d)
    ensures Valid(Dict(Drop(d.keys, Id, k), d.vals - {k}))
  {
    DropDistinct(d.keys, k);
    DropMembers(d.keys, Id, k);
    forall j | j in Drop(d.keys, Id, k) ensures j in d.vals - {k} {
      DropKeyMember(d.keys, k, j);
    }
  }

  /** `d[k] = v`: afterwards `k` maps to `v`, every other key keeps its
      value, and a new key is appended to the iteration order while an
      existing one keeps its place. */
  function Put<K(==), V>(d: Dict<K, V>, k: K, v: V): (r: Dict<K, V>)
    requires Valid(d)
    ensures Valid(r)
    ensures k in r.vals && r.vals[k] == v
    ensures r.vals.Keys == d.vals.Keys + {k}
    ensures forall j :: j in d.vals && j != k ==> r.vals[j] == d.vals[j]
    ensures k in d.vals ==> r.keys == d.keys
    ensures k !in d.vals ==> r.keys == d.keys + [k]
  {
    if k in d.vals then Dict(d.keys, d.vals[k := v])
    else Dict(d.keys + [k], d.vals[k := v])
  }

  /** `del d[k]`: `k` is gone, every other key keeps its value, and the
      remaining keys keep their order. */
  function Remove<K(==), V>(d: Dict<K, V>, k: K): (r: Dict<K, V>)
    requires Valid(d)
    ensures Valid(r)
    ensures k !in r.vals
    ensures r.vals.Keys == d.vals.Keys - {k}
    ensures forall j :: j in r.vals ==> r.vals[j] == d.vals[j]
    ensures r.keys == Drop(d.keys, Id, k)
  {
    RemoveValid(d, k);
    Dict(Drop(d.keys, Id, k), d.vals - {k})
  }

  /** `list(d.values())`. */
  function Values<K(==), V>(d: Dict<K, V>): (vs: seq<V>)
    requires Valid(d)
    ensures |vs| == |d.keys|
    ensures forall i :: 0 <= i < |vs| ==> d.keys[i] in d.vals && vs[i] == d.vals[d.keys[i]]
  {
    seq(|d.keys|, i requires 0 <= i < |d.keys| => d.vals[d.keys[i]])
  }

  /** The dict comprehension `{key(x): x for x in s}`. */
  function FromList<K(==), V>(s: seq<V>, key: V -> K): (d: Dict<K, V>)
    ensures Valid(d)
    ensures forall x :: x in s ==> key(x) in d.vals
    ensures forall k :: k in d.vals ==> exists x :: x in s && key(x) == k
    decreases |s|
  {
    if s == [] then Empty()
    else
      var init := s[..|s| - 1];
      assert s == init + [s[|s| - 1]];
      Put(FromList(init, key), key(s[|s| - 1]), s[|s| - 1])
  }

  /** Appending an entry to the list is assigning it in the dict. */
  lemma FromListSnoc<K, V>(s: seq<V>, x: V, key: V -> K)
    ensures FromList(s + [x], key) == Put(FromList(s, key), key(x), x)
  {
    assert (s + [x])[..|s|] == s;
  }

  /** When several entries share a key, the last one is the one kept. */
  lemma {:induction false} LastEntryWins<K, V>(s: seq<V>, key: V -> K, i: nat)
    requires i < |s|
    requires forall j :: i < j < |s| ==> key(s[j]) != key(s[i])
    ensures key(s[i]) in FromList(s, key).vals
    ensures FromList(s, key).vals[key(s[i])] == s[i]
    decreases |s|
  {
    if i < |s| - 1 {
      var init := s[..|s| - 1];
      assert init[i] == s[i];
      LastEntryWins(init, key, i);
      assert key(s[|s| - 1]) != key(s[i]);
    }
  }

  lemma PutRemoveSame<K, V>(d: Dict<K, V>, k: K, v: V)
    requires Valid(d)
    ensures Remove(Put(d, k, v), k) == Remove(d, k)
  {
    if k !in d.vals {
      assert (d.keys + [k])[..|d.keys|] == d.keys;
    }
    MapUpdateRemove(d.vals, k, v);
  }

  /** Removing a key forgets what was just assigned to it. */
  lemma MapUpdateRemove<K, V>(m: map<K, V>, k: K, v: V)
    ensures m[k := v] - {k} == m - {k}
  {
  }

  lemma PutRemoveOther<K, V>(d: Dict<K, V>, k: K, j: K, v: V)
    requires Valid(d) && j != k
    ensures Remove(Put(d, j, v), k) == Put(Remove(d, k), j, v)
  {
    if j !in d.vals {
      assert (d.keys + [j])[..|d.keys|] == d.keys;
    }
    MapRemoveUpdate(d.vals, k, j, v);
  }

  /** Removing one key and updating another commute. */
  lemma MapRemoveUpdate<K, V>(m: map<K, V>, k: K, j: K, v: V)
    requires j != k
    ensures m[j := v] - {k} == (m - {k})[j := v]
  {
  }

  lemma FromListDropSame<K, V>(init: seq<V>, x: V, key: V -> K, k: K)
    requires key(x) == k
    requires FromList(Drop(init, key, k), key) == Remove(FromList(init, key), k)
    ensures FromList(Drop(init + [x], key, k), key) == Remove(FromList(init + [x], key), k)
  {
    var s := init + [x];
    assert s[..|s| - 1] == init;
    assert Drop(s, key, k) == Drop(init, key, k);
    FromListSnoc(init, x, key);
    PutRemoveSame(FromList(init, key), k, x);
  }

  lemma FromListDropOther<K, V>(init: seq<V>, x: V, key: V -> K, k: K)
    requires key(x) != k
    requires FromList(Drop(init, key, k), key) == Remove(FromList(init, key), k)
    ensures FromList(Drop(init + [x], key, k), key) == Remove(FromList(init + [x], key), k)
  {
    var s := init + [x];
    assert s[..|s| - 1] == init;
    assert Drop(s, key, k) == Drop(init, key, k) + [x];
    FromListSnoc(init, x, key);
    FromListSnoc(Drop(init, key, k), x, key);
    PutRemoveOther(FromList(init, key), k, key(x), x);
  }

  /** Re-reading a list from which every entry with key `k` was filtered out
      gives the dict the old list gave, with `k` deleted (and the other keys
      in the same order). */
  lemma {:induction false} FromListDrop<K, V>(s: seq<V>, key: V -> K, k: K)
    ensures FromList(Drop(s, key, k), key) == Remove(FromList(s, key), k)
    decreases |s|
  {
    if s == [] {
      assert Remove(Empty<K, V>(), k) == Empty();
    } else {
      var init := s[..|s| - 1];
      assert s == init + [s[|s| - 1]];
      FromListDrop(init, key, k);
      if key(s[|s| - 1]) == k {
        FromListDropSame(init, s[|s| - 1], key, k);
      } else {
        FromListDropOther(init, s[|s| - 1], key, k);
      }
    }
  }
}
