/**
 * Insertion-ordered association lists: the model of JavaScript `Map`s and plain
 * objects used as dictionaries, and of Python `dict`s. Keys keep the position of
 * their first insertion; setting an existing key replaces its value in place.
 */
module Assoc {
  import opened Base

  /** The keys, in insertion order. */
  function Keys<K, V>(m: seq<(K, V)>): (ks: seq<K>)
    ensures |ks| == |m| && forall i :: 0 <= i < |m| ==> ks[i] == m[i].0
  {
    seq(|m|, i requires 0 <= i < |m| => m[i].0)
  }

  /** The values, in insertion order (`Array.from(map.values())`, `dict.values()`). */
  function Values<K, V>(m: seq<(K, V)>): (vs: seq<V>)
    ensures |vs| == |m| && forall i :: 0 <= i < |m| ==> vs[i] == m[i].1
  {
    seq(|m|, i requires 0 <= i < |m| => m[i].1)
  }

  predicate HasKey<K(==), V>(m: seq<(K, V)>, k: K) {
    k in Keys(m)
  }

  /** No key occurs twice. */
  predicate UniqueKeys<K(==), V>(m: seq<(K, V)>) {
    forall i, j :: 0 <= i < j < |m| ==> m[i].0 != m[j].0
  }

  /** The position of `k`, if present. */
  function FindKey<K(==), V>(m: seq<(K, V)>, k: K): (r: Option<nat>)
    ensures r.Some? ==> r.value < |m| && m[r.value].0 == k
    ensures r.Some? ==> forall j :: 0 <= j < r.value ==> m[j].0 != k
    ensures r.None? <==> !HasKey(m, k)
  {
    if |m| == 0 then None
    else if m[0].0 == k then Some(0)
    else
      match FindKey(m[1..], k)
      case None => None
      case Some(i) => Some(i + 1)
  }

  /** The value stored under `k`. */
  function Get<K(==), V>(m: seq<(K, V)>, k: K): (r: Option<V>)
    ensures r.Some? <==> HasKey(m, k)
    ensures r.Some? ==> (k, r.value) in m
  {
    match FindKey(m, k)
    case Some(i) => Some(m[i].1)
    case None => None
  }

  /** With unique keys, `Get` returns the pair's own value. */
  lemma GetOfMember<K, V>(m: seq<(K, V)>, i: nat)
    requires UniqueKeys(m) && i < |m|
    ensures Get(m, m[i].0) == Some(m[i].1)
  {
  }

  /** `Get` finds the first pair with the key. */
  lemma GetFirst<K, V>(m: seq<(K, V)>, i: nat)
    requires i < |m|
    requires forall j :: 0 <= j < i ==> m[j].0 != m[i].0
    ensures Get(m, m[i].0) == Some(m[i].1)
  {
    var r := FindKey(m, m[i].0);
    assert HasKey(m, m[i].0) by {
      assert Keys(m)[i] == m[i].0;
    }
    assert r.value == i;
  }

  /** Stores `v` under `k`: in place when `k` is present, appended otherwise. */
  function Put<K(==), V>(m: seq<(K, V)>, k: K, v: V): (r: seq<(K, V)>)
    ensures HasKey(m, k) ==> Keys(r) == Keys(m)
    ensures !HasKey(m, k) ==> Keys(r) == Keys(m) + [k]
    ensures forall p :: p in r ==> p in m || p == (k, v)
  {
    match FindKey(m, k)
    case Some(i) =>
      assert Keys(m[i := (k, v)]) == Keys(m);
      m[i := (k, v)]
    case None => m + [(k, v)]
  }

  /** `Put` stores the value under its key and leaves every other key alone. */
  lemma PutGet<K, V>(m: seq<(K, V)>, k: K, v: V, k': K)
    ensures Get(Put(m, k, v), k') == if k' == k then Some(v) else Get(m, k')
  {
    var r := Put(m, k, v);
    var f, g := FindKey(r, k'), FindKey(m, k');
    assert forall j :: 0 <= j < |m| && r[j].0 == k' && k' != k ==> m[j].0 == k';
  }

  /** `Put` keeps keys unique. */
  lemma PutUnique<K, V>(m: seq<(K, V)>, k: K, v: V)
    requires UniqueKeys(m)
    ensures UniqueKeys(Put(m, k, v))
  {
    var r := Put(m, k, v);
    assert forall i :: 0 <= i < |r| ==> r[i].0 == Keys(r)[i];
    assert forall i :: 0 <= i < |m| ==> m[i].0 == Keys(m)[i];
  }
}
