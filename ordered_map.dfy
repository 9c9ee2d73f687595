/**
 * Insertion-ordered finite maps: the behaviour of a Python `dict` that the
 * navigation data relies on. Assigning to a present key keeps its position,
 * assigning to a new key appends it, and `del` drops the key from the order.
 */
module OrderedMap {

  /** No element occurs twice. */
  predicate Distinct<K(==, !new)>(s: seq<K>) {
    forall i, j :: 0 <= i < j < |s| ==> s[i] != s[j]
  }

  /** The elements of `ks` that are not in `d`, in their original order. */
  function Without<K(==, !new)>(ks: seq<K>, d: set<K>): (r: seq<K>)
    ensures forall x :: x in r <==> x in ks && x !in d
    ensures |r| <= |ks|
    ensures Distinct(ks) ==> Distinct(r)
  {
    if ks == [] then []
    else if ks[0] in d then Without(ks[1..], d)
    else [ks[0]] + Without(ks[1..], d)
  }

  /** Dropping `d` and then `e` is dropping both at once. */
  lemma {:induction false} WithoutTwice<K(!new)>(ks: seq<K>, d: set<K>, e: set<K>)
    ensures Without(Without(ks, d), e) == Without(ks, d + e)
  {
    if ks != [] {
      WithoutTwice(ks[1..], d, e);
      if ks[0] !in d {
        assert Without(ks, d) == [ks[0]] + Without(ks[1..], d);
        assert ([ks[0]] + Without(ks[1..], d))[1..] == Without(ks[1..], d);
      }
    }
  }

  /** Dropping nothing leaves the sequence as it is. */
  lemma {:induction false} WithoutNothing<K(!new)>(ks: seq<K>, d: set<K>)
    requires forall x :: x in ks ==> x !in d
    ensures Without(ks, d) == ks
  {
    if ks != [] {
      WithoutNothing(ks[1..], d);
    }
  }

  /** Dropping one element that occurs once shortens the sequence by one. */
  lemma {:induction false} WithoutOne<K(!new)>(ks: seq<K>, k: K)
    requires Distinct(ks)
    ensures k in ks ==> |Without(ks, {k})| == |ks| - 1
  {
    if ks == [] {
    } else if ks[0] == k {
      WithoutNothing(ks[1..], {k});
    } else {
      WithoutOne(ks[1..], k);
    }
  }

  /** A dict: its keys in insertion order and the key-to-value map. */
  datatype OMap<K(==, !new), V> = OMap(keys: seq<K>, m: map<K, V>) {

    /** The order lists every key exactly once. */
    ghost predicate Valid() {
      Distinct(keys) && (forall k :: k in m <==> k in keys)
    }

    /** `d[k] = v`. */
    function Put(k: K, v: V): (r: OMap<K, V>)
      requires Valid()
      ensures r.Valid()
      ensures r.m == m[k := v]
      ensures k in m ==> r.keys == keys
      ensures k !in m ==> r.keys == keys + [k]
    {
      if k in m then OMap(keys, m[k := v]) else OMap(keys + [k], m[k := v])
    }

    /** `del` of every key in `d`, keeping the order of the others. */
    function RemoveAll(d: set<K>): (r: OMap<K, V>)
      requires Valid()
      ensures r.Valid()
      ensures forall k :: k in r.m <==> k in m && k !in d
      ensures forall k :: k in r.m ==> r.m[k] == m[k]
      ensures r.keys == Without(keys, d)
    {
      OMap(Without(keys, d), m - d)
    }

    /** `del d[k]`. */
    function Remove(k: K): (r: OMap<K, V>)
      requires Valid()
      ensures r.Valid()
      ensures forall j :: j in r.m <==> j in m && j != k
      ensures forall j :: j in r.m ==> r.m[j] == m[j]
      ensures r.keys == Without(keys, {k})
      ensures k in m ==> |r.keys| == |keys| - 1
    {
      WithoutOne(keys, k);
      RemoveAll({k})
    }
  }

  /** `{}`. */
  function Empty<K(==, !new), V>(): (r: OMap<K, V>)
    ensures r.Valid() && r.keys == [] && r.m == map[]
  {
    OMap([], map[])
  }

  /** Deleting keys one after another, as a loop of `del` statements does, is one bulk removal. */
  lemma RemoveAllThenRemove<K(!new), V>(om: OMap<K, V>, d: set<K>, k: K)
    requires om.Valid()
    ensures om.RemoveAll(d).Remove(k) == om.RemoveAll(d + {k})
  {
    WithoutTwice(om.keys, d, {k});
    assert (om.m - d) - {k} == om.m - (d + {k});
  }

  /** Removing no key changes nothing. */
  lemma RemoveNone<K(!new), V>(om: OMap<K, V>)
    requires om.Valid()
    ensures om.RemoveAll({}) == om
  {
    WithoutNothing(om.keys, {});
    assert om.m - {} == om.m;
  }
}
