/**
 * Folding a list into an insertion-ordered map by key, combining an element
 * with the one already stored under its key: the `Map`/`dict` loops that
 * collapse duplicate verse rows. The central fact is that the value stored
 * under a key is the left fold of `combine` over that key's elements, in
 * input order.
 */
module KeyedFold {
  import opened Base
  import opened Assoc

  /** `f(...f(f(s[0], s[1]), s[2])..., s[|s|-1])`. */
  function ReduceLeft<T>(combine: (T, T) -> T, s: seq<T>): T
    requires |s| > 0
  {
    if |s| == 1 then s[0] else combine(ReduceLeft(combine, s[..|s| - 1]), s[|s| - 1])
  }

  /** Stores `x` under its key, combined with whatever is already stored there. */
  function Step<T, K(==)>(m: seq<(K, T)>, x: T, key: T -> K, combine: (T, T) -> T): seq<(K, T)> {
    match Get(m, key(x))
    case None => Put(m, key(x), x)
    case Some(prev) => Put(m, key(x), combine(prev, x))
  }

  /** The map after feeding every element of `xs` through `Step`, in order. */
  function FoldByKey<T, K(==)>(xs: seq<T>, key: T -> K, combine: (T, T) -> T): seq<(K, T)> {
    if |xs| == 0 then []
    else Step(FoldByKey(xs[..|xs| - 1], key, combine), xs[|xs| - 1], key, combine)
  }

  /** The elements of `xs` whose key is `k`, in order. */
  function WithKey<T, K(==)>(xs: seq<T>, key: T -> K, k: K): (r: seq<T>)
    ensures |r| <= |xs|
  {
    if |xs| == 0 then []
    else WithKey(xs[..|xs| - 1], key, k) + (if key(xs[|xs| - 1]) == k then [xs[|xs| - 1]] else [])
  }

  /** What the fold stores under `k` is the fold of `combine` over the elements with key
      `k`; keys no element has are absent. */
  lemma {:induction false} FoldByKeyGet<T, K>(xs: seq<T>, key: T -> K, combine: (T, T) -> T, k: K)
    ensures Get(FoldByKey(xs, key, combine), k) ==
      if |WithKey(xs, key, k)| == 0 then None else Some(ReduceLeft(combine, WithKey(xs, key, k)))
  {
    if |xs| > 0 {
      var n := |xs| - 1;
      var init, x := xs[..n], xs[n];
      FoldByKeyGet(init, key, combine, k);
      var m := FoldByKey(init, key, combine);
      var v := match Get(m, key(x)) case None => x case Some(prev) => combine(prev, x);
      assert FoldByKey(xs, key, combine) == Put(m, key(x), v);
      PutGet(m, key(x), v, k);
      var f := WithKey(init, key, k);
      if key(x) == k {
        assert WithKey(xs, key, k) == f + [x];
        assert (f + [x])[..|f|] == f;
        assert |f| == 0 ==> f + [x] == [x];
      } else {
        assert WithKey(xs, key, k) == f;
      }
    }
  }

  /** The map has each key once and no more entries than there are elements. */
  lemma {:induction false} FoldByKeyUnique<T, K>(xs: seq<T>, key: T -> K, combine: (T, T) -> T)
    ensures UniqueKeys(FoldByKey(xs, key, combine))
    ensures |FoldByKey(xs, key, combine)| <= |xs|
  {
    if |xs| > 0 {
      var n := |xs| - 1;
      FoldByKeyUnique(xs[..n], key, combine);
      var m := FoldByKey(xs[..n], key, combine);
      var x := xs[n];
      var v := match Get(m, key(x)) case None => x case Some(prev) => combine(prev, x);
      assert FoldByKey(xs, key, combine) == Put(m, key(x), v);
      PutUnique(m, key(x), v);
      assert |Keys(Put(m, key(x), v))| <= |Keys(m)| + 1;
    }
  }

  /** Some element has key `k` exactly when `WithKey` finds one. */
  lemma {:induction false} WithKeyNonEmpty<T, K>(xs: seq<T>, key: T -> K, k: K)
    ensures |WithKey(xs, key, k)| > 0 <==> exists j :: 0 <= j < |xs| && key(xs[j]) == k
  {
    if |xs| > 0 {
      var n := |xs| - 1;
      WithKeyNonEmpty(xs[..n], key, k);
      assert forall j :: 0 <= j < n ==> xs[..n][j] == xs[j];
    }
  }

  /** The map's keys are exactly the keys of the elements. */
  lemma FoldByKeyHas<T, K>(xs: seq<T>, key: T -> K, combine: (T, T) -> T, k: K)
    ensures HasKey(FoldByKey(xs, key, combine), k) <==> exists j :: 0 <= j < |xs| && key(xs[j]) == k
  {
    FoldByKeyGet(xs, key, combine, k);
    WithKeyNonEmpty(xs, key, k);
  }

  /** `WithKey` picks elements of `xs` with key `k`. */
  lemma {:induction false} WithKeyMembers<T, K>(xs: seq<T>, key: T -> K, k: K)
    ensures forall x :: x in WithKey(xs, key, k) ==> x in xs && key(x) == k
  {
    if |xs| > 0 {
      var n := |xs| - 1;
      WithKeyMembers(xs[..n], key, k);
      assert forall x :: x in xs[..n] ==> x in xs;
    }
  }

  /** Two keyings that agree on which elements share a key select the same elements. */
  lemma {:induction false} WithKeyEquiv<T, K, L>(xs: seq<T>, key: T -> K, k: K, key2: T -> L, k2: L)
    requires forall i :: 0 <= i < |xs| ==> (key(xs[i]) == k <==> key2(xs[i]) == k2)
    ensures WithKey(xs, key, k) == WithKey(xs, key2, k2)
  {
    if |xs| > 0 {
      var n := |xs| - 1;
      WithKeyEquiv(xs[..n], key, k, key2, k2);
    }
  }

  /** The distinct keys of `xs`: the `Set` of keys after adding every element's key. */
  function KeysSeen<T, K>(xs: seq<T>, key: T -> K): set<K> {
    if |xs| == 0 then {} else KeysSeen(xs[..|xs| - 1], key) + {key(xs[|xs| - 1])}
  }

  /** How many elements have a key already seen earlier in `xs`. */
  function RepeatCount<T, K(==)>(xs: seq<T>, key: T -> K): nat {
    if |xs| == 0 then 0
    else RepeatCount(xs[..|xs| - 1], key) + (if key(xs[|xs| - 1]) in KeysSeen(xs[..|xs| - 1], key) then 1 else 0)
  }

  /** A key has been seen exactly when some element has it. */
  lemma {:induction false} KeysSeenMembers<T, K>(xs: seq<T>, key: T -> K, k: K)
    ensures k in KeysSeen(xs, key) <==> exists j :: 0 <= j < |xs| && key(xs[j]) == k
  {
    if |xs| > 0 {
      var n := |xs| - 1;
      KeysSeenMembers(xs[..n], key, k);
      assert forall j :: 0 <= j < n ==> xs[..n][j] == xs[j];
    }
  }

  /** Every element either adds a new key or is a repeat. */
  lemma {:induction false} RepeatCountPlusKeys<T, K>(xs: seq<T>, key: T -> K)
    ensures RepeatCount(xs, key) + |KeysSeen(xs, key)| == |xs|
  {
    if |xs| > 0 {
      var n := |xs| - 1;
      RepeatCountPlusKeys(xs[..n], key);
      var s, k := KeysSeen(xs[..n], key), key(xs[n]);
      if k in s { assert s + {k} == s; }
    }
  }

  /** The elements of a concatenation with key `k` are those of each part, in order. */
  lemma {:induction false} WithKeyAppend<T, K>(a: seq<T>, b: seq<T>, key: T -> K, k: K)
    ensures WithKey(a + b, key, k) == WithKey(a, key, k) + WithKey(b, key, k)
  {
    if |b| == 0 {
      assert a + b == a;
    } else {
      var n := |b| - 1;
      WithKeyAppend(a, b[..n], key, k);
      assert (a + b)[..|a + b| - 1] == a + b[..n];
    }
  }

  /** A combine step that, on two elements of one key, keeps that key and an invariant
      keeps both through a fold over elements sharing one key. */
  lemma {:induction false} ReduceLeftKeeps<T, K>(combine: (T, T) -> T, s: seq<T>, key: T -> K, inv: T -> bool, k: K)
    requires |s| > 0
    requires forall i :: 0 <= i < |s| ==> key(s[i]) == k && inv(s[i])
    requires forall p, t :: t in s && inv(p) && key(p) == key(t) ==> inv(combine(p, t)) && key(combine(p, t)) == key(t)
    ensures key(ReduceLeft(combine, s)) == k && inv(ReduceLeft(combine, s))
  {
    var n := |s| - 1;
    if n > 0 {
      assert forall t :: t in s[..n] ==> t in s;
      ReduceLeftKeeps(combine, s[..n], key, inv, k);
      assert s[n] in s;
    }
  }

  /** Each entry of the folded map holds the fold of `combine` over the elements with its
      key; when `combine` keeps keys and an invariant, the entry has its key and the
      invariant. */
  lemma FoldByKeyEntry<T, K>(xs: seq<T>, key: T -> K, combine: (T, T) -> T, inv: T -> bool, i: nat)
    requires i < |FoldByKey(xs, key, combine)|
    requires forall j :: 0 <= j < |xs| ==> inv(xs[j])
    requires forall p, t :: t in xs && inv(p) && key(p) == key(t) ==> inv(combine(p, t)) && key(combine(p, t)) == key(t)
    ensures var m := FoldByKey(xs, key, combine);
      var s := WithKey(xs, key, m[i].0);
      |s| > 0 && m[i].1 == ReduceLeft(combine, s) && key(m[i].1) == m[i].0 && inv(m[i].1)
  {
    var m := FoldByKey(xs, key, combine);
    var k := m[i].0;
    FoldByKeyUnique(xs, key, combine);
    GetOfMember(m, i);
    FoldByKeyGet(xs, key, combine, k);
    var s := WithKey(xs, key, k);
    WithKeyMembers(xs, key, k);
    forall j | 0 <= j < |s| ensures key(s[j]) == k && inv(s[j]) {
      assert s[j] in xs;
    }
    ReduceLeftKeeps(combine, s, key, inv, k);
  }

  /** The combine step of a plain `map[key] = x` loop: the later element replaces the
      stored one. */
  function Later<T>(prev: T, x: T): T { x }

  /** The combine step of `if (!map.has(key)) map.set(key, x)`: the stored element stays. */
  function Earlier<T>(prev: T, x: T): T { prev }

  /** When the later element always wins, a key holds its last element. */
  lemma {:induction false} FoldLaterGet<T, K>(xs: seq<T>, key: T -> K, k: K, j: nat)
    requires j < |xs| && key(xs[j]) == k
    requires forall i :: j < i < |xs| ==> key(xs[i]) != k
    ensures Get(FoldByKey(xs, key, Later), k) == Some(xs[j])
  {
    var n := |xs| - 1;
    var m := FoldByKey(xs[..n], key, Later);
    assert Step(m, xs[n], key, Later) == Put(m, key(xs[n]), xs[n]);
    PutGet(m, key(xs[n]), xs[n], k);
    if j < n {
      FoldLaterGet(xs[..n], key, k, j);
    }
  }

  /** When the stored element always stays, a key holds its first element. */
  lemma {:induction false} FoldEarlierGet<T, K>(xs: seq<T>, key: T -> K, k: K, j: nat)
    requires j < |xs| && key(xs[j]) == k
    requires forall i :: 0 <= i < j ==> key(xs[i]) != k
    ensures Get(FoldByKey(xs, key, Earlier), k) == Some(xs[j])
  {
    var n := |xs| - 1;
    var m := FoldByKey(xs[..n], key, Earlier);
    var x := xs[n];
    if j < n {
      FoldEarlierGet(xs[..n], key, k, j);
      if key(x) == k {
        assert Step(m, x, key, Earlier) == Put(m, k, xs[j]);
      }
      PutGet(m, key(x), match Get(m, key(x)) case None => x case Some(prev) => prev, k);
    } else {
      FoldByKeyHas(xs[..n], key, Earlier, k);
      assert Get(m, k) == None;
      PutGet(m, k, x, k);
    }
  }

  /** Some element with key `k` at or after `i` is the last one with that key. */
  lemma {:induction false} LastWithKey<T, K>(xs: seq<T>, key: T -> K, k: K, i: nat) returns (j: nat)
    requires i < |xs| && key(xs[i]) == k
    ensures i <= j < |xs| && key(xs[j]) == k
    ensures forall l :: j < l < |xs| ==> key(xs[l]) != k
    decreases |xs| - i
  {
    if exists l :: i < l < |xs| && key(xs[l]) == k {
      var l :| i < l < |xs| && key(xs[l]) == k;
      j := LastWithKey(xs, key, k, l);
    } else {
      j := i;
    }
  }

  /** Some element with key `k` at or before `i` is the first one with that key. */
  lemma {:induction false} FirstWithKey<T, K>(xs: seq<T>, key: T -> K, k: K, i: nat) returns (j: nat)
    requires i < |xs| && key(xs[i]) == k
    ensures j <= i && key(xs[j]) == k
    ensures forall l :: 0 <= l < j ==> key(xs[l]) != k
  {
    if exists l :: 0 <= l < i && key(xs[l]) == k {
      var l :| 0 <= l < i && key(xs[l]) == k;
      j := FirstWithKey(xs, key, k, l);
    } else {
      j := i;
    }
  }

  /** When the later element wins, the element a key holds is at or after any element
      with that key. */
  lemma FoldLaterAt<T, K>(xs: seq<T>, key: T -> K, i: nat) returns (j: nat)
    requires i < |xs|
    ensures i <= j < |xs| && key(xs[j]) == key(xs[i])
    ensures Get(FoldByKey(xs, key, Later), key(xs[i])) == Some(xs[j])
  {
    j := LastWithKey(xs, key, key(xs[i]), i);
    FoldLaterGet(xs, key, key(xs[i]), j);
  }

  /** When the later element wins, every stored element is one of the input's. */
  lemma {:induction false} FoldLaterValues<T, K>(xs: seq<T>, key: T -> K)
    ensures forall p :: p in FoldByKey(xs, key, Later) ==> p.1 in xs
  {
    if |xs| > 0 {
      var n := |xs| - 1;
      var m := FoldByKey(xs[..n], key, Later);
      FoldLaterValues(xs[..n], key);
      assert Step(m, xs[n], key, Later) == Put(m, key(xs[n]), xs[n]);
      assert forall x :: x in xs[..n] ==> x in xs;
    }
  }
}
