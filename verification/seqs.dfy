/**
 * Sequence helpers: order-preserving filtering (`Array.prototype.filter`, list
 * comprehensions with a condition), counting, and the sublist relation that
 * filtering establishes.
 */
module Seqs {
  import opened Base

  /** `a` is `b` with some elements left out, order kept. */
  predicate IsSublist<T(==)>(a: seq<T>, b: seq<T>)
    decreases |b|
  {
    if |a| == 0 then true
    else if |b| == 0 then false
    else if a[0] == b[0] then IsSublist(a[1..], b[1..])
    else IsSublist(a, b[1..])
  }

  lemma {:induction false} SublistMembers<T>(a: seq<T>, b: seq<T>)
    requires IsSublist(a, b)
    ensures forall x :: x in a ==> x in b
    ensures |a| <= |b|
    decreases |b|
  {
    if |a| > 0 {
      if a[0] == b[0] {
        SublistMembers(a[1..], b[1..]);
        assert forall x :: x in a ==> x == a[0] || x in a[1..];
      } else {
        SublistMembers(a, b[1..]);
      }
    }
  }

  lemma {:induction false} SublistRefl<T>(a: seq<T>)
    ensures IsSublist(a, a)
  {
    if |a| > 0 { SublistRefl(a[1..]); }
  }

  /** The elements of `s` that satisfy `p`, in order. */
  function Filter<T(==,!new)>(s: seq<T>, p: T -> bool): (r: seq<T>)
    ensures |r| <= |s|
    ensures forall i :: 0 <= i < |r| ==> p(r[i])
    ensures forall x :: x in r <==> x in s && p(x)
    ensures IsSublist(r, s)
    ensures (forall i :: 0 <= i < |s| ==> p(s[i])) ==> r == s
  {
    if |s| == 0 then []
    else
      var rest := Filter(s[1..], p);
      assert forall x :: x in s <==> x == s[0] || x in s[1..];
      if p(s[0]) then [s[0]] + rest
      else
        assert IsSublist(rest, s) by { SublistSkip(rest, s); }
        rest
  }

  /** Filtering keeps every copy of a satisfying element and no copy of any other. */
  lemma {:induction false} FilterMultiset<T(!new)>(s: seq<T>, p: T -> bool, x: T)
    ensures multiset(Filter(s, p))[x] == if p(x) then multiset(s)[x] else 0
  {
    if |s| > 0 {
      var h: seq<T> := if p(s[0]) then [s[0]] else [];
      FilterMultiset(s[1..], p, x);
      FilterCons(s, p);
      MultisetCount(h, Filter(s[1..], p), x);
      MultisetCount([s[0]], s[1..], x);
      assert [s[0]] + s[1..] == s;
    }
  }

  /** The copies of `x` in a concatenation are those in each part. */
  lemma MultisetCount<T>(a: seq<T>, b: seq<T>, x: T)
    ensures multiset(a + b)[x] == multiset(a)[x] + multiset(b)[x]
  {
    assert multiset(a + b) == multiset(a) + multiset(b);
  }

  /** Filtering a non-empty sequence tests its head, then filters the rest. */
  lemma FilterCons<T(!new)>(s: seq<T>, p: T -> bool)
    requires |s| > 0
    ensures Filter(s, p) == (if p(s[0]) then [s[0]] else []) + Filter(s[1..], p)
  {
  }

  /** Where an element of a filtered sequence came from. */
  lemma FilterOrigin<T(!new)>(s: seq<T>, p: T -> bool, k: nat) returns (j: nat)
    requires k < |Filter(s, p)|
    ensures j < |s| && s[j] == Filter(s, p)[k] && p(s[j])
  {
    var r := Filter(s, p);
    assert r[k] in r;
    j :| j < |s| && s[j] == r[k];
  }

  /** The first element kept is the first element that satisfies the test. */
  lemma {:induction false} FilterFirst<T(!new)>(s: seq<T>, p: T -> bool, j: nat)
    requires j < |s| && p(s[j])
    requires forall i :: 0 <= i < j ==> !p(s[i])
    ensures |Filter(s, p)| > 0 && Filter(s, p)[0] == s[j]
  {
    if j > 0 {
      FilterFirst(s[1..], p, j - 1);
    }
  }

  lemma SublistSkip<T>(a: seq<T>, b: seq<T>)
    requires |b| > 0 && IsSublist(a, b[1..])
    ensures IsSublist(a, b)
    decreases |b|, 0
  {
    if |a| > 0 && a[0] == b[0] {
      SublistDropHead(a, b[1..]);
    }
  }

  lemma {:induction false} SublistDropHead<T>(a: seq<T>, b: seq<T>)
    requires |a| > 0 && IsSublist(a, b)
    ensures IsSublist(a[1..], b)
    decreases |b|, 1
  {
    if a[0] == b[0] {
      SublistSkip(a[1..], b);
    } else {
      SublistDropHead(a, b[1..]);
      SublistSkip(a[1..], b);
    }
  }

  /** Number of elements satisfying `p`. */
  function Count<T>(s: seq<T>, p: T -> bool): (n: nat)
    ensures n <= |s|
  {
    if |s| == 0 then 0 else (if p(s[0]) then 1 else 0) + Count(s[1..], p)
  }

  lemma {:induction false} CountAppend<T>(a: seq<T>, b: seq<T>, p: T -> bool)
    ensures Count(a + b, p) == Count(a, p) + Count(b, p)
  {
    if |a| == 0 {
      assert a + b == b;
    } else {
      assert (a + b)[1..] == a[1..] + b;
      CountAppend(a[1..], b, p);
    }
  }

  /** Nothing is counted exactly when no element satisfies `p`. */
  lemma {:induction false} CountZero<T>(s: seq<T>, p: T -> bool)
    ensures Count(s, p) == 0 <==> forall i :: 0 <= i < |s| ==> !p(s[i])
  {
    if |s| > 0 {
      CountZero(s[1..], p);
      assert forall i :: 1 <= i < |s| ==> s[1..][i - 1] == s[i];
    }
  }

  /** Uncounted elements in front do not change the count. */
  lemma CountDropZeros<T>(s: seq<T>, a: nat, q: T -> bool)
    requires a <= |s| && forall i :: 0 <= i < a ==> !q(s[i])
    ensures Count(s, q) == Count(s[a..], q)
  {
    var x, y := s[..a], s[a..];
    assert !exists i :: 0 <= i < |x| && q(x[i]) by {
      forall i | 0 <= i < |x| ensures !q(x[i]) { assert x[i] == s[i]; }
    }
    CountZero(x, q);
    assert s == x + y;
    CountAppend(x, y, q);
  }

  /** Uncounted elements at the end do not change the count. */
  lemma CountTakeZeros<T>(s: seq<T>, b: nat, q: T -> bool)
    requires b <= |s| && forall i :: b <= i < |s| ==> !q(s[i])
    ensures Count(s, q) == Count(s[..b], q)
  {
    var y := s[b..];
    assert forall i :: 0 <= i < |y| ==> y[i] == s[b + i];
    CountZero(y, q);
    assert s == s[..b] + y;
    CountAppend(s[..b], y, q);
  }

  /** The first `n` elements (`slice(0, n)`), or all of them when there are fewer. */
  function Take<T>(s: seq<T>, n: nat): (r: seq<T>)
    ensures |r| == if n < |s| then n else |s|
    ensures r <= s
  {
    if n < |s| then s[..n] else s
  }

  /** The largest `k` in `lo..hi` with `ok(k)`: a backward scan. */
  function RightmostWhere(ok: nat -> bool, lo: nat, hi: nat): (r: Option<nat>)
    requires lo <= hi
    ensures r.Some? ==> lo <= r.value <= hi && ok(r.value)
    ensures r.Some? ==> forall k :: r.value < k <= hi ==> !ok(k)
    ensures r.None? ==> forall k :: lo <= k <= hi ==> !ok(k)
    decreases hi - lo
  {
    if ok(hi) then Some(hi)
    else if hi == lo then None
    else RightmostWhere(ok, lo, hi - 1)
  }

  /** The smallest `k` in `lo..hi-1` with `f(k)` present, and what `f` gives there: a
      forward scan. */
  function FirstSome<T>(f: nat -> Option<T>, lo: nat, hi: nat): (r: Option<(nat, T)>)
    ensures r.Some? ==> lo <= r.value.0 < hi && f(r.value.0) == Some(r.value.1)
    ensures forall k :: lo <= k < hi && (r.None? || k < r.value.0) ==> f(k).None?
    decreases hi - lo
  {
    if lo >= hi then None
    else if f(lo).Some? then Some((lo, f(lo).value))
    else FirstSome(f, lo + 1, hi)
  }

  /** The smallest `k` in `lo..hi-1` with `ok(k)`: a forward scan. */
  function FirstWhere(ok: nat -> bool, lo: nat, hi: nat): (r: Option<nat>)
    ensures r.Some? ==> lo <= r.value < hi && ok(r.value)
    ensures forall k :: lo <= k < hi && (r.None? || k < r.value) ==> !ok(k)
    decreases hi - lo
  {
    if lo >= hi then None
    else if ok(lo) then Some(lo)
    else FirstWhere(ok, lo + 1, hi)
  }

  /** What `f` gives at `lo..hi-1`, where it gives something, in order. */
  function Collect<T>(f: nat -> Option<T>, lo: nat, hi: nat): (r: seq<T>)
    ensures |r| <= if lo <= hi then hi - lo else 0
    decreases hi - lo
  {
    if lo >= hi then []
    else (if f(lo).Some? then [f(lo).value] else []) + Collect(f, lo + 1, hi)
  }

  /** `Collect` gathers exactly the values `f` gives in the range. */
  lemma {:induction false} CollectMembers<T>(f: nat -> Option<T>, lo: nat, hi: nat, x: T)
    ensures x in Collect(f, lo, hi) <==> exists k :: lo <= k < hi && f(k) == Some(x)
    decreases hi - lo
  {
    if lo < hi {
      CollectMembers(f, lo + 1, hi, x);
      if exists k :: lo <= k < hi && f(k) == Some(x) {
        var k :| lo <= k < hi && f(k) == Some(x);
        if k > lo {
          assert x in Collect(f, lo + 1, hi);
        }
      }
    }
  }

  /** Where `f` gives nothing, nothing is collected. */
  lemma {:induction false} CollectNone<T>(f: nat -> Option<T>, lo: nat, hi: nat)
    requires forall k :: lo <= k < hi ==> f(k).None?
    ensures Collect(f, lo, hi) == []
    decreases hi - lo
  {
    if lo < hi {
      CollectNone(f, lo + 1, hi);
    }
  }

  /** The concatenation of `f(x)` for each `x` of `xs`, in order. */
  function FlatMap<A, B>(xs: seq<A>, f: A -> seq<B>): seq<B> {
    if |xs| == 0 then [] else f(xs[0]) + FlatMap(xs[1..], f)
  }

  /** Each element of the concatenation is an element of one of the pieces. */
  lemma {:induction false} FlatMapOrigin<A, B>(xs: seq<A>, f: A -> seq<B>, i: nat)
    requires i < |FlatMap(xs, f)|
    ensures exists b, k :: 0 <= b < |xs| && 0 <= k < |f(xs[b])| && FlatMap(xs, f)[i] == f(xs[b])[k]
  {
    var first := f(xs[0]);
    if i < |first| {
      assert FlatMap(xs, f)[i] == f(xs[0])[i];
    } else {
      FlatMapOrigin(xs[1..], f, i - |first|);
      var b, k :| 0 <= b < |xs[1..]| && 0 <= k < |f(xs[1..][b])| &&
        FlatMap(xs[1..], f)[i - |first|] == f(xs[1..][b])[k];
      assert xs[1..][b] == xs[b + 1];
      assert FlatMap(xs, f)[i] == f(xs[b + 1])[k];
    }
  }

  /** Each element of each piece is in the concatenation. */
  lemma {:induction false} FlatMapCover<A, B>(xs: seq<A>, f: A -> seq<B>, b: nat, k: nat)
    requires b < |xs| && k < |f(xs[b])|
    ensures exists i :: 0 <= i < |FlatMap(xs, f)| && FlatMap(xs, f)[i] == f(xs[b])[k]
  {
    var first := f(xs[0]);
    if b == 0 {
      assert FlatMap(xs, f)[k] == first[k];
    } else {
      assert xs[1..][b - 1] == xs[b];
      FlatMapCover(xs[1..], f, b - 1, k);
      var i :| 0 <= i < |FlatMap(xs[1..], f)| && FlatMap(xs[1..], f)[i] == f(xs[1..][b - 1])[k];
      assert FlatMap(xs, f)[|first| + i] == FlatMap(xs[1..], f)[i];
    }
  }
}
