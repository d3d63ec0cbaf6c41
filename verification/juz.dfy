/**
 * The juz lookup shared by the two offline normalisers: the table of the
 * thirty juz start positions and the scan that finds the juz of a verse,
 * `get_juz` in scripts/admin_sync.py and `juz_number_for` in
 * format_ayahs.py.
 */
module Juz {
  import opened Base

  /** A verse position `(surah, ayah)`. */
  type Position = (int, int)

  /** `(s, a) <= (surah, ayah)` as Python compares tuples. */
  predicate AtOrBefore(p: Position, q: Position) {
    p.0 < q.0 || (p.0 == q.0 && p.1 <= q.1)
  }

  /** `JUZ_STARTS`: the first verse of juz 1 to 30. */
  const JuzStarts: seq<Position> := [
    (1, 1), (2, 142), (2, 253), (3, 93), (4, 24), (4, 148), (5, 82), (6, 111), (7, 88), (8, 41),
    (9, 93), (11, 6), (12, 53), (15, 1), (17, 1), (18, 75), (21, 1), (23, 1), (25, 21), (27, 56),
    (29, 46), (33, 31), (36, 28), (39, 32), (41, 47), (46, 1), (51, 31), (58, 1), (67, 1), (78, 1)
  ]

  /** Each start comes strictly after the one before it. */
  predicate StrictlyAscending(starts: seq<Position>) {
    forall i :: 0 < i < |starts| ==> !AtOrBefore(starts[i], starts[i - 1])
  }

  /** How many starts, from the front, are at or before `q`: the loop runs until the first
      start after `q` and breaks there. */
  function LeadingAtOrBefore(starts: seq<Position>, q: Position): (n: nat)
    ensures n <= |starts|
    ensures forall i :: 0 <= i < n ==> AtOrBefore(starts[i], q)
    ensures n < |starts| ==> !AtOrBefore(starts[n], q)
  {
    if |starts| > 0 && AtOrBefore(starts[0], q) then 1 + LeadingAtOrBefore(starts[1..], q) else 0
  }

  /** The scan of `get_juz` over a table: the index (from 1) of the last start of the
      leading run at or before the verse, and 1 when there is none. */
  function JuzIn(starts: seq<Position>, surah: int, ayah: int): int {
    var n := LeadingAtOrBefore(starts, (surah, ayah));
    if n == 0 then 1 else n
  }

  /** `get_juz(surah, ayah)`. */
  function GetJuz(surah: int, ayah: int): (j: int)
    ensures 1 <= j <= 30
  {
    JuzIn(JuzStarts, surah, ayah)
  }

  /** `juz_number_for(surah, ayah)`: `None` unless both arguments are integers (an absent
      value stands for any non-integer), otherwise the same scan over the same table. */
  function JuzNumberFor(surah: Option<int>, ayah: Option<int>): (r: Option<int>)
    ensures r.Some? <==> surah.Some? && ayah.Some?
    ensures r.Some? ==> r.value == GetJuz(surah.value, ayah.value)
  {
    if surah.None? || ayah.None? then None else Some(JuzIn(JuzStarts, surah.value, ayah.value))
  }

  /** A later verse never has fewer leading starts before it. */
  lemma {:induction false} LeadingMonotone(starts: seq<Position>, p: Position, q: Position)
    requires AtOrBefore(p, q)
    ensures LeadingAtOrBefore(starts, p) <= LeadingAtOrBefore(starts, q)
  {
    if |starts| > 0 && AtOrBefore(starts[0], p) {
      LeadingMonotone(starts[1..], p, q);
    }
  }

  /** `get_juz` never decreases along the reading order. */
  lemma GetJuzMonotone(s1: int, a1: int, s2: int, a2: int)
    requires AtOrBefore((s1, a1), (s2, a2))
    ensures GetJuz(s1, a1) <= GetJuz(s2, a2)
  {
    LeadingMonotone(JuzStarts, (s1, a1), (s2, a2));
  }

  /** In a strictly ascending table, the verse at the `k`-th start has exactly `k`
      leading starts at or before it. */
  lemma {:induction false} LeadingAtStart(starts: seq<Position>, k: nat)
    requires StrictlyAscending(starts) && 0 < k <= |starts|
    ensures LeadingAtOrBefore(starts, starts[k - 1]) == k
  {
    var q := starts[k - 1];
    AscendingBefore(starts, k - 1);
    if k < |starts| {
      assert !AtOrBefore(starts[k], q);
    }
    LeadingExactly(starts, q, k);
  }

  /** Every start before the `k`-th is at or before it. */
  lemma {:induction false} AscendingBefore(starts: seq<Position>, k: nat)
    requires StrictlyAscending(starts) && k < |starts|
    ensures forall i :: 0 <= i <= k ==> AtOrBefore(starts[i], starts[k])
  {
    if k > 0 {
      AscendingBefore(starts, k - 1);
      assert AtOrBefore(starts[k - 1], starts[k]);
    }
  }

  /** The leading count is `k` when the first `k` starts are at or before the verse and
      the next is not. */
  lemma {:induction false} LeadingExactly(starts: seq<Position>, q: Position, k: nat)
    requires k <= |starts|
    requires forall i :: 0 <= i < k ==> AtOrBefore(starts[i], q)
    requires k < |starts| ==> !AtOrBefore(starts[k], q)
    ensures LeadingAtOrBefore(starts, q) == k
  {
    if k > 0 {
      assert AtOrBefore(starts[0], q);
      LeadingExactly(starts[1..], q, k - 1);
    }
  }

  lemma JuzStartsAscending()
    ensures StrictlyAscending(JuzStarts)
  {
    var t := JuzStarts;
    assert |t| == 30;
    forall i | 0 < i < |t| ensures t[i - 1].0 < t[i].0 || (t[i - 1].0 == t[i].0 && t[i - 1].1 < t[i].1) {
      assert t[i - 1] == JuzStarts[i - 1] && t[i] == JuzStarts[i];
    }
  }

  /** The first verse of juz `k` is in juz `k`. */
  lemma GetJuzAtStart(k: nat)
    requires 1 <= k <= 30
    ensures GetJuz(JuzStarts[k - 1].0, JuzStarts[k - 1].1) == k
  {
    JuzStartsAscending();
    LeadingAtStart(JuzStarts, k);
  }

  /** A verse is in juz `k` exactly when it lies from the `k`-th start up to, not
      including, the next one (or the end for juz 30), verses before the first start
      counting as juz 1. */
  lemma GetJuzBetween(surah: int, ayah: int, k: nat)
    requires 1 <= k <= 30
    ensures GetJuz(surah, ayah) == k <==>
      (AtOrBefore(JuzStarts[k - 1], (surah, ayah)) || k == 1) &&
      (k == 30 || !AtOrBefore(JuzStarts[k], (surah, ayah)))
  {
    var q := (surah, ayah);
    var n := LeadingAtOrBefore(JuzStarts, q);
    JuzStartsAscending();
    if AtOrBefore(JuzStarts[k - 1], q) {
      AscendingBefore(JuzStarts, k - 1);
      forall i | 0 <= i < k ensures AtOrBefore(JuzStarts[i], q) {
        assert AtOrBefore(JuzStarts[i], JuzStarts[k - 1]);
      }
      assert n >= k;
    } else {
      assert n < k;
    }
    if k < 30 && AtOrBefore(JuzStarts[k], q) {
      AscendingBefore(JuzStarts, k);
      forall i | 0 <= i <= k ensures AtOrBefore(JuzStarts[i], q) {
        assert AtOrBefore(JuzStarts[i], JuzStarts[k]);
      }
      assert n > k;
    }
  }
}
