/**
 * Python dictionaries remember the order in which keys were first inserted,
 * and ndlab's listings iterate them in that order. A `Dict` keeps that order
 * beside the mapping itself.
 */
module Dicts {
  import opened Wrappers

  /** `s` with every occurrence of `x` taken out, order kept. */
  function Without<K(==)>(s: seq<K>, x: K): (r: seq<K>)
    ensures forall i :: 0 <= i < |r| ==> r[i] in s && r[i] != x
    ensures forall i :: 0 <= i < |s| && s[i] != x ==> s[i] in r
    ensures |r| <= |s|
  {
    if |s| == 0 then []
    else if s[|s| - 1] == x then Without(s[..|s| - 1], x)
    else Without(s[..|s| - 1], x) + [s[|s| - 1]]
  }

  lemma {:induction false} WithoutAbsent<K>(s: seq<K>, x: K)
    requires x !in s
    ensures Without(s, x) == s
  {
    if |s| > 0 {
      WithoutAbsent(s[..|s| - 1], x);
    }
  }

  /** A non-empty set has an element. */
  lemma NonEmptyHasElement<T>(s: set<T>)
    requires s != {}
    ensures exists x :: x in s
  {
    if forall x :: x !in s {
      assert false;
    }
  }

  predicate Distinct<K(==)>(s: seq<K>) {
    forall i, j :: 0 <= i < j < |s| ==> s[i] != s[j]
  }

  lemma {:induction false} WithoutDistinct<K>(s: seq<K>, x: K)
    requires Distinct(s)
    ensures Distinct(Without(s, x))
  {
    if |s| > 0 {
      var init := s[..|s| - 1];
      WithoutDistinct(init, x);
      if s[|s| - 1] != x {
        assert s[|s| - 1] !in init;
      }
    }
  }

  /** A list without repetitions holds each value at most once. */
  lemma {:induction false} DistinctCount<K>(s: seq<K>, x: K)
    requires Distinct(s)
    ensures multiset(s)[x] <= 1
  {
    if |s| > 0 {
      var init := s[..|s| - 1];
      assert s == init + [s[|s| - 1]];
      DistinctCount(init, x);
      if s[|s| - 1] == x {
        assert x !in init;
      }
    }
  }

  lemma TwoOccurrences<K>(t: seq<K>, i: nat, j: nat)
    requires i < j < |t|
    ensures t[i] == t[j] ==> multiset(t)[t[j]] >= 2
  {
    assert t == t[..j] + [t[j]] + t[j + 1..];
    assert t[..j][i] == t[i];
    assert multiset(t) == multiset(t[..j]) + multiset{t[j]} + multiset(t[j + 1..]);
  }

  /** Reordering a list without repetitions gives a list without repetitions. */
  lemma DistinctPermutation<K>(s: seq<K>, t: seq<K>)
    requires Distinct(s) && multiset(s) == multiset(t)
    ensures Distinct(t)
  {
    forall i, j | 0 <= i < j < |t|
      ensures t[i] != t[j]
    {
      TwoOccurrences(t, i, j);
      DistinctCount(s, t[j]);
    }
  }

  /** A Python dict: its keys in insertion order, and the mapping. */
  datatype Dict<K(==,!new), V> = Dict(keys: seq<K>, values: map<K, V>) {

    ghost predicate Valid() {
      && Distinct(keys)
      && (forall k :: k in keys <==> k in values)
    }

    /** `d.get(k)`. */
    function Get(k: K): (r: Option<V>)
      ensures r.Some? <==> k in values
      ensures r.Some? ==> r.value == values[k]
    {
      if k in values then Some(values[k]) else None
    }

    /** `d[k] = v`: a new key goes last, an existing key keeps its place. */
    function Put(k: K, v: V): (r: Dict<K, V>)
      requires Valid()
      ensures r.Valid()
      ensures r.values == values[k := v]
      ensures k in values ==> r.keys == keys
      ensures k !in values ==> r.keys == keys + [k]
    {
      if k in values then Dict(keys, values[k := v]) else Dict(keys + [k], values[k := v])
    }

    /** `d[k] = v` (or a change to the object `d[k]`) for a key already present. */
    function Update(k: K, v: V): (r: Dict<K, V>)
      requires k in values
      ensures r.keys == keys && r.values == values[k := v]
      ensures Valid() ==> r.Valid()
    {
      Dict(keys, values[k := v])
    }

    /** `d.pop(k, None)`: the key goes, the order of the others is kept. */
    function Remove(k: K): (r: Dict<K, V>)
      requires Valid()
      ensures r.Valid()
      ensures r.values == values - {k}
      ensures r.keys == Without(keys, k)
    {
      WithoutDistinct(keys, k);
      Dict(Without(keys, k), values - {k})
    }
  }

  /** Putting a new key and popping it again gives back the dict. */
  lemma PutThenRemove<K(!new), V>(d: Dict<K, V>, k: K, v: V)
    requires d.Valid() && k !in d.values
    ensures d.Put(k, v).Remove(k) == d
  {
    var p := d.Put(k, v);
    assert k !in d.keys;
    WithoutAbsent(d.keys, k);
    assert p.keys[..|p.keys| - 1] == d.keys;
    assert p.values - {k} == d.values;
  }

  /** `vs` with `f` applied to the values at the keys in `done` only: a loop over a dict half way. */
  function MapSome<K, V>(vs: map<K, V>, f: V -> V, done: set<K>): (r: map<K, V>)
    ensures r.Keys == vs.Keys
  {
    map k | k in vs :: if k in done then f(vs[k]) else vs[k]
  }

  lemma MapSomeNone<K, V>(vs: map<K, V>, f: V -> V)
    ensures MapSome(vs, f, {}) == vs
  {
    assert forall k | k in vs :: MapSome(vs, f, {})[k] == vs[k];
  }

  /** One more key visited. */
  lemma MapSomeStep<K, V>(vs: map<K, V>, f: V -> V, done: set<K>, k: K)
    requires k in vs && k !in done
    ensures MapSome(vs, f, done + {k}) == MapSome(vs, f, done)[k := f(vs[k])]
  {
    var a, b := MapSome(vs, f, done + {k}), MapSome(vs, f, done)[k := f(vs[k])];
    assert forall j | j in vs :: a[j] == b[j];
  }

  /** A visited key whose value `f` leaves alone needs no write. */
  lemma MapSomeFixed<K, V>(vs: map<K, V>, f: V -> V, done: set<K>, k: K)
    requires k in vs && k !in done && f(vs[k]) == vs[k]
    ensures MapSome(vs, f, done + {k}) == MapSome(vs, f, done)
  {
    var a, b := MapSome(vs, f, done + {k}), MapSome(vs, f, done);
    assert forall j | j in vs :: a[j] == b[j];
  }

  /** Every key visited. */
  lemma MapSomeAll<K, V>(vs: map<K, V>, f: V -> V)
    ensures MapSome(vs, f, vs.Keys) == map k | k in vs :: f(vs[k])
  {
  }

  /** The keys a walk has visited. */
  function KeySet<K(!new)>(s: seq<K>): (r: set<K>)
    ensures forall x :: x in r <==> x in s
  {
    set x | x in s
  }

  /** The next key of a walk over a dict in key order was not visited before. */
  lemma WalkStep<K(!new), V>(d: Dict<K, V>, k: nat, done: set<K>)
    requires d.Valid() && k < |d.keys|
    requires done == KeySet(d.keys[..k])
    ensures d.keys[k] in d.values && d.keys[k] !in done
    ensures done + {d.keys[k]} == KeySet(d.keys[..k + 1])
  {
    assert d.keys[..k + 1] == d.keys[..k] + [d.keys[k]];
  }

  /** A walk over all the keys visits every entry. */
  lemma WalkDone<K(!new), V>(d: Dict<K, V>, k: nat, done: set<K>)
    requires d.Valid() && k == |d.keys|
    requires done == KeySet(d.keys[..k])
    ensures done == d.values.Keys
  {
    assert d.keys[..k] == d.keys;
  }

  /** Popping a key makes an earlier write to it irrelevant. */
  lemma UpdateThenRemove<K(!new), V>(d: Dict<K, V>, k: K, v: V)
    requires d.Valid() && k in d.values
    ensures d.Update(k, v).Remove(k) == d.Remove(k)
  {
    assert d.values[k := v] - {k} == d.values - {k};
  }

  function Empty<K(==,!new), V>(): (r: Dict<K, V>)
    ensures r.Valid() && r.keys == [] && r.values == map[]
  {
    Dict([], map[])
  }
}
