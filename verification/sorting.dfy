/**
 * A stable insertion sort driven by a JavaScript-style comparator (negative:
 * before, positive: after, zero: keep input order), and lexicographic
 * comparison of integer keys, which is what the comparators
 * `a.x - b.x || a.y - b.y` and Python's tuple keys compute.
 */
module Sorting {

  /** The first non-zero difference of two keys, position by position; zero when none. */
  function Lex(a: seq<int>, b: seq<int>): int {
    if |a| == 0 || |b| == 0 then 0
    else if a[0] != b[0] then a[0] - b[0]
    else Lex(a[1..], b[1..])
  }

  lemma {:induction false} LexAntisymmetric(a: seq<int>, b: seq<int>)
    requires |a| == |b|
    ensures Lex(a, b) == -Lex(b, a)
    ensures Lex(a, b) == 0 <==> a == b
  {
    if |a| > 0 && a[0] == b[0] {
      LexAntisymmetric(a[1..], b[1..]);
      assert a == [a[0]] + a[1..] && b == [b[0]] + b[1..];
    }
  }

  lemma {:induction false} LexTransitive(a: seq<int>, b: seq<int>, c: seq<int>)
    requires |a| == |b| == |c|
    requires Lex(a, b) <= 0 && Lex(b, c) <= 0
    ensures Lex(a, c) <= 0
  {
    if |a| > 0 && a[0] == b[0] && b[0] == c[0] {
      LexTransitive(a[1..], b[1..], c[1..]);
    }
  }

  /** Where `Insert` puts `x`: after the last element that does not compare greater than `x`. */
  function InsertPos<T>(s: seq<T>, x: T, cmp: (T, T) -> int): (k: nat)
    ensures k <= |s|
    ensures k > 0 ==> cmp(s[k - 1], x) <= 0
    ensures forall j :: k <= j < |s| ==> cmp(s[j], x) > 0
  {
    if |s| == 0 then 0
    else if cmp(s[|s| - 1], x) > 0 then InsertPos(s[..|s| - 1], x, cmp)
    else |s|
  }

  /** Inserts `x` after every trailing element that compares greater than it. */
  function Insert<T>(s: seq<T>, x: T, cmp: (T, T) -> int): (r: seq<T>)
    ensures |r| == |s| + 1
    ensures multiset(r) == multiset(s) + multiset{x}
  {
    var k := InsertPos(s, x, cmp);
    assert s == s[..k] + s[k..];
    s[..k] + [x] + s[k..]
  }

  /** `array.sort(cmp)` / `sorted(..., key=...)`: stable insertion sort. */
  function SortBy<T>(s: seq<T>, cmp: (T, T) -> int): (r: seq<T>)
    ensures |r| == |s|
    ensures multiset(r) == multiset(s)
  {
    if |s| == 0 then []
    else
      assert s == s[..|s| - 1] + [s[|s| - 1]];
      Insert(SortBy(s[..|s| - 1], cmp), s[|s| - 1], cmp)
  }

  /** `s` is in non-decreasing key order. */
  predicate SortedByKey<T>(s: seq<T>, key: T -> seq<int>) {
    forall i, j :: 0 <= i < j < |s| ==> Lex(key(s[i]), key(s[j])) <= 0
  }

  /** On the elements of `s`, `cmp` compares their `n`-long keys lexicographically. */
  ghost predicate ComparesKeys<T(!new)>(s: seq<T>, cmp: (T, T) -> int, key: T -> seq<int>, n: nat) {
    (forall a :: a in s ==> |key(a)| == n) &&
    (forall a, b :: a in s && b in s ==> cmp(a, b) == Lex(key(a), key(b)))
  }

  /** Placing `x` at position `k` of a sorted sequence keeps it sorted when `x` is not below
      the elements before `k` and not above those after. */
  lemma SpliceSorted<T>(s: seq<T>, x: T, k: nat, key: T -> seq<int>)
    requires k <= |s| && SortedByKey(s, key)
    requires forall i :: 0 <= i < k ==> Lex(key(s[i]), key(x)) <= 0
    requires forall j :: k <= j < |s| ==> Lex(key(x), key(s[j])) <= 0
    ensures SortedByKey(s[..k] + [x] + s[k..], key)
  {
    var r := s[..k] + [x] + s[k..];
    forall i, j | 0 <= i < j < |r| ensures Lex(key(r[i]), key(r[j])) <= 0 {
      if j < k {
        assert r[i] == s[i] && r[j] == s[j];
      } else if j == k {
        assert r[i] == s[i];
      } else if i == k {
        assert r[j] == s[j - 1];
      } else if i < k {
        assert r[i] == s[i] && r[j] == s[j - 1];
      } else {
        assert r[i] == s[i - 1] && r[j] == s[j - 1];
      }
    }
  }

  lemma InsertSorted<T(!new)>(s: seq<T>, x: T, cmp: (T, T) -> int, key: T -> seq<int>, n: nat)
    requires SortedByKey(s, key)
    requires |key(x)| == n
    requires forall i :: 0 <= i < |s| ==> |key(s[i])| == n && cmp(s[i], x) == Lex(key(s[i]), key(x))
    ensures SortedByKey(Insert(s, x, cmp), key)
  {
    var k := InsertPos(s, x, cmp);
    forall i | 0 <= i < k ensures Lex(key(s[i]), key(x)) <= 0 {
      if i < k - 1 {
        LexTransitive(key(s[i]), key(s[k - 1]), key(x));
      }
    }
    forall j | k <= j < |s| ensures Lex(key(x), key(s[j])) <= 0 {
      LexAntisymmetric(key(x), key(s[j]));
    }
    SpliceSorted(s, x, k, key);
  }

  /** With a comparator that compares keys, the sort's output is in key order. */
  lemma {:induction false} SortBySorted<T(!new)>(s: seq<T>, cmp: (T, T) -> int, key: T -> seq<int>, n: nat)
    requires ComparesKeys(s, cmp, key, n)
    ensures SortedByKey(SortBy(s, cmp), key)
  {
    if |s| > 0 {
      var init := s[..|s| - 1];
      var x := s[|s| - 1];
      assert forall a :: a in init ==> a in s;
      SortBySorted(init, cmp, key, n);
      var t := SortBy(init, cmp);
      assert x in s;
      forall i | 0 <= i < |t| ensures t[i] in s {
        assert t[i] in multiset(init);
      }
      InsertSorted(t, x, cmp, key, n);
    }
  }

  /** No two elements share a key. */
  predicate DistinctBy<T, K(==)>(s: seq<T>, key: T -> K) {
    forall i, j :: 0 <= i < j < |s| ==> key(s[i]) != key(s[j])
  }

  /** The keys stay distinct with the last element exactly when they are distinct without
      it and its key is new. */
  lemma DistinctByLast<T, K>(s: seq<T>, key: T -> K)
    requires |s| > 0
    ensures DistinctBy(s, key) <==>
      DistinctBy(s[..|s| - 1], key) && forall i :: 0 <= i < |s| - 1 ==> key(s[i]) != key(s[|s| - 1])
  {
    var init := s[..|s| - 1];
    assert forall i :: 0 <= i < |init| ==> s[i] == init[i];
  }

  lemma InsertDistinct<T, K>(t: seq<T>, x: T, cmp: (T, T) -> int, key: T -> K)
    requires DistinctBy(t, key)
    requires forall i :: 0 <= i < |t| ==> key(t[i]) != key(x)
    ensures DistinctBy(Insert(t, x, cmp), key)
  {
    var k := InsertPos(t, x, cmp);
    var r := t[..k] + [x] + t[k..];
    forall i, j | 0 <= i < j < |r| ensures key(r[i]) != key(r[j]) {
      if j < k {
        assert r[i] == t[i] && r[j] == t[j];
      } else if j == k {
        assert r[i] == t[i];
      } else if i == k {
        assert r[j] == t[j - 1];
      } else if i < k {
        assert r[i] == t[i] && r[j] == t[j - 1];
      } else {
        assert r[i] == t[i - 1] && r[j] == t[j - 1];
      }
    }
  }

  /** Sorting never makes two elements share a key. */
  lemma {:induction false} SortByDistinct<T, K>(s: seq<T>, cmp: (T, T) -> int, key: T -> K)
    requires DistinctBy(s, key)
    ensures DistinctBy(SortBy(s, cmp), key)
  {
    if |s| > 0 {
      var n := |s| - 1;
      var init, x := s[..n], s[n];
      SortByDistinct(init, cmp, key);
      var t := SortBy(init, cmp);
      forall i | 0 <= i < |t| ensures key(t[i]) != key(x) {
        assert t[i] in multiset(init);
        var j :| 0 <= j < n && init[j] == t[i];
      }
      InsertDistinct(t, x, cmp, key);
    }
  }
}
