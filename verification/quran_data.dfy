/**
 * The reader app's Quran index (src/utils/quranData.js): `buildQuranIndex`
 * turns the cached ayah rows into the surah list, the ayahs of each surah and
 * the ayah of each `surah:ayah` key; `filterSurahs` and `filterAyahs` are the
 * search boxes of the surah list and the reader.
 */
module QuranData {
  import opened Base
  import opened Strings
  import opened Seqs
  import opened Sorting
  import opened Assoc
  import opened JsValues
  import opened KeyedFold

  // ---------------------------------------------------------------------
  // Rows and their order
  // ---------------------------------------------------------------------

  /** Both verse numbers are integers: `Number.isInteger` on each. */
  predicate HasIntVerse(row: JsObject) {
    IsIntegerValue(Prop(row, "surah_number")) && IsIntegerValue(Prop(row, "ayah_number"))
  }

  /** `a - b` on two property values, or NaN. */
  function Difference(a: JsValue, b: JsValue): JsNum {
    match (ToNumber(a), ToNumber(b))
    case (Int(x), Int(y)) => Int(x - y)
    case _ => NonInt
  }

  /** `row.source_post_id || 0`. */
  function SourceOrZero(row: JsObject): JsValue {
    Or(Prop(row, "source_post_id"), Num(Int(0)))
  }

  /** The sort comparator: surah, then ayah, then source post, each difference read
      through `||` (a zero or NaN difference falls through) and a final NaN read as 0. */
  function CompareRows(a: JsObject, b: JsObject): int {
    var d := Difference(Prop(a, "surah_number"), Prop(b, "surah_number"));
    if d.Int? && d.i != 0 then d.i
    else
      var e := Difference(Prop(a, "ayah_number"), Prop(b, "ayah_number"));
      if e.Int? && e.i != 0 then e.i
      else
        var f := Difference(SourceOrZero(a), SourceOrZero(b));
        if f.Int? then f.i else 0
  }

  /** The surah number of a row, 0 when it is not an integer. */
  function SurahOf(row: JsObject): int {
    if IsIntegerValue(Prop(row, "surah_number")) then Prop(row, "surah_number").n.i else 0
  }

  /** The ayah number of a row, 0 when it is not an integer. */
  function AyahOf(row: JsObject): int {
    if IsIntegerValue(Prop(row, "ayah_number")) then Prop(row, "ayah_number").n.i else 0
  }

  /** The source post a row sorts by: its id, 0 when it has none. */
  predicate NumericSource(row: JsObject) {
    ToNumber(SourceOrZero(row)).Int?
  }

  function SourceRank(row: JsObject): int {
    match ToNumber(SourceOrZero(row))
    case Int(i) => i
    case NonInt => 0
  }

  /** The row's place in the index: (surah, ayah, source post). */
  function RowOrder(row: JsObject): (key: seq<int>)
    ensures |key| == 3
  {
    [SurahOf(row), AyahOf(row), SourceRank(row)]
  }

  /** The `${row.surah_number}:${row.ayah_number}` key. */
  function AyahKey(row: JsObject): string {
    ToStr(Prop(row, "surah_number")) + ":" + ToStr(Prop(row, "ayah_number"))
  }

  /** The rows with integer verse numbers, sorted. */
  function CleanRows(rows: seq<JsObject>): (clean: seq<JsObject>)
    ensures forall i :: 0 <= i < |clean| ==> HasIntVerse(clean[i])
    ensures multiset(clean) == multiset(Filter(rows, HasIntVerse))
  {
    var kept := Filter(rows, HasIntVerse);
    var clean := SortBy(kept, CompareRows);
    assert forall i :: 0 <= i < |clean| ==> clean[i] in multiset(kept);
    clean
  }

  /** On rows with integer verse numbers and a numeric source the comparator orders
      by (surah, ayah, source post). */
  lemma CompareRowsIsLex(a: JsObject, b: JsObject)
    requires HasIntVerse(a) && HasIntVerse(b) && NumericSource(a) && NumericSource(b)
    ensures CompareRows(a, b) == Lex(RowOrder(a), RowOrder(b))
  {
    DifferenceOfNumbers(Prop(a, "surah_number"), Prop(b, "surah_number"));
    DifferenceOfNumbers(Prop(a, "ayah_number"), Prop(b, "ayah_number"));
    DifferenceOfNumbers(SourceOrZero(a), SourceOrZero(b));
    LexOfThree(RowOrder(a), RowOrder(b));
  }

  lemma DifferenceOfNumbers(a: JsValue, b: JsValue)
    requires ToNumber(a).Int? && ToNumber(b).Int?
    ensures Difference(a, b) == Int(ToNumber(a).i - ToNumber(b).i)
  {
  }

  /** Three-place keys compare by their first differing place. */
  lemma LexOfThree(a: seq<int>, b: seq<int>)
    requires |a| == |b| == 3
    ensures Lex(a, b) ==
      if a[0] != b[0] then a[0] - b[0] else if a[1] != b[1] then a[1] - b[1] else a[2] - b[2]
  {
    var a1, b1 := a[1..], b[1..];
    var a2, b2 := a1[1..], b1[1..];
    assert a1[0] == a[1] && b1[0] == b[1] && a2 == [a[2]] && b2 == [b[2]];
    assert Lex(a2, b2) == if a[2] != b[2] then a[2] - b[2] else Lex(a2[1..], b2[1..]);
    assert a2[1..] == [] && b2[1..] == [];
  }

  lemma SortedCons<T>(x: T, rest: seq<T>, key: T -> seq<int>)
    requires SortedByKey(rest, key)
    requires forall j :: 0 <= j < |rest| ==> Lex(key(x), key(rest[j])) <= 0
    ensures SortedByKey([x] + rest, key)
  {
    var r := [x] + rest;
    forall i, j | 0 <= i < j < |r| ensures Lex(key(r[i]), key(r[j])) <= 0 {
      if i > 0 {
        assert r[i] == rest[i - 1] && r[j] == rest[j - 1];
      }
    }
  }

  /** A sublist of a sorted list is sorted. */
  lemma {:induction false} FilterSorted<T(!new)>(s: seq<T>, p: T -> bool, key: T -> seq<int>)
    requires SortedByKey(s, key)
    ensures SortedByKey(Filter(s, p), key)
  {
    if |s| > 0 {
      var rest := Filter(s[1..], p);
      assert SortedByKey(s[1..], key) by {
        forall i, j | 0 <= i < j < |s[1..]| ensures Lex(key(s[1..][i]), key(s[1..][j])) <= 0 {
          assert s[1..][i] == s[i + 1] && s[1..][j] == s[j + 1];
        }
      }
      FilterSorted(s[1..], p, key);
      if p(s[0]) {
        forall j | 0 <= j < |rest| ensures Lex(key(s[0]), key(rest[j])) <= 0 {
          assert rest[j] in s[1..];
          var k :| 0 <= k < |s[1..]| && s[1..][k] == rest[j];
          assert s[k + 1] == rest[j];
        }
        SortedCons(s[0], rest, key);
      }
    }
  }

  // ---------------------------------------------------------------------
  // buildQuranIndex
  // ---------------------------------------------------------------------

  /** One entry of the surah list. */
  datatype SurahEntry = SurahEntry(surahNumber: int, surahName: JsValue, ayahCount: nat)

  datatype QuranIndex = QuranIndex(
    surahs: seq<SurahEntry>,
    ayahsBySurah: map<int, seq<JsObject>>,
    ayahByKey: seq<(string, JsObject)>)

  /** The test "belongs to surah `s`". */
  function InSurah(s: int): JsObject -> bool {
    x => SurahOf(x) == s
  }

  /** The sorted rows of surah `s`, in order. */
  function SurahRows(clean: seq<JsObject>, s: int): (r: seq<JsObject>)
    ensures forall x :: x in r <==> x in clean && SurahOf(x) == s
  {
    Filter(clean, InSurah(s))
  }

  /** The surah numbers that occur in the rows. */
  function SurahNumbers(clean: seq<JsObject>): set<int> {
    set x | x in clean :: SurahOf(x)
  }

  /** The first row of each surah, in order of first appearance. */
  function FirstRows(clean: seq<JsObject>): seq<(int, JsObject)> {
    FoldByKey(clean, SurahOf, Earlier)
  }

  /** `row.surah_name || `Surah ${row.surah_number}``. */
  function SurahNameOf(row: JsObject): JsValue {
    Or(Prop(row, "surah_name"), Str("Surah " + ToStr(Prop(row, "surah_number"))))
  }

  /** The surah list entry made from a surah's first row. */
  function EntryOf(clean: seq<JsObject>, row: JsObject): SurahEntry {
    SurahEntry(SurahOf(row), SurahNameOf(row), |SurahRows(clean, SurahOf(row))|)
  }

  /** The placeholder shown for Surah 1 before it is imported. */
  const Fatihah := SurahEntry(1, Str("Al-Fatihah"), 0)

  function NumberOf(e: SurahEntry): int { e.surahNumber }

  function NumberKey(e: SurahEntry): (key: seq<int>)
    ensures |key| == 1
  {
    [e.surahNumber]
  }

  function CompareSurahs(a: SurahEntry, b: SurahEntry): int {
    a.surahNumber - b.surahNumber
  }

  /** The surah entries before sorting: one per surah seen, plus the placeholder. */
  function UnsortedSurahs(clean: seq<JsObject>): seq<SurahEntry> {
    var firsts := FirstRows(clean);
    var entries := seq(|firsts|, i requires 0 <= i < |firsts| => EntryOf(clean, firsts[i].1));
    if HasKey(firsts, 1) then entries else entries + [Fatihah]
  }

  function BySurah(clean: seq<JsObject>): map<int, seq<JsObject>> {
    var m := map s | s in SurahNumbers(clean) :: SurahRows(clean, s);
    if 1 in SurahNumbers(clean) then m else m[1 := []]
  }

  /** The per-surah map: the surahs of the rows, each with its rows, and Surah 1. */
  lemma BySurahGet(clean: seq<JsObject>, s: int)
    ensures s in BySurah(clean) <==> s == 1 || s in SurahNumbers(clean)
    ensures s in BySurah(clean) ==>
      BySurah(clean)[s] == if s in SurahNumbers(clean) then SurahRows(clean, s) else []
  {
  }

  /** `buildQuranIndex`. */
  function BuildQuranIndex(rows: seq<JsObject>): (index: QuranIndex)
    ensures 1 in index.ayahsBySurah
  {
    var clean := CleanRows(rows);
    BySurahGet(clean, 1);
    QuranIndex(SortBy(UnsortedSurahs(clean), CompareSurahs), BySurah(clean), FoldByKey(clean, AyahKey, Later))
  }

  /** A row is indexed exactly when it has integer verse numbers. */
  lemma CleanMembers(rows: seq<JsObject>, x: JsObject)
    ensures x in CleanRows(rows) <==> x in rows && HasIntVerse(x)
  {
    assert x in CleanRows(rows) <==> x in multiset(CleanRows(rows));
  }

  lemma CleanIndex(rows: seq<JsObject>, y: JsObject) returns (i: nat)
    requires y in rows && HasIntVerse(y)
    ensures i < |CleanRows(rows)| && CleanRows(rows)[i] == y
  {
    CleanMembers(rows, y);
    i :| 0 <= i < |CleanRows(rows)| && CleanRows(rows)[i] == y;
  }

  /** Each surah's list holds every copy of each of its rows, and nothing else; the
      surahs listed are those of the rows, and Surah 1. */
  lemma IndexSurahRows(rows: seq<JsObject>, s: int)
    ensures s in BuildQuranIndex(rows).ayahsBySurah <==>
      s == 1 || exists x :: x in rows && HasIntVerse(x) && SurahOf(x) == s
    ensures s in BuildQuranIndex(rows).ayahsBySurah ==> forall x ::
      multiset(BuildQuranIndex(rows).ayahsBySurah[s])[x] ==
        if HasIntVerse(x) && SurahOf(x) == s then multiset(rows)[x] else 0
  {
    var clean := CleanRows(rows);
    assert BuildQuranIndex(rows).ayahsBySurah == BySurah(clean);
    BySurahGet(clean, s);
    forall x ensures x in clean <==> x in rows && HasIntVerse(x) {
      CleanMembers(rows, x);
    }
    if s in BySurah(clean) {
      forall x ensures multiset(BySurah(clean)[s])[x] ==
        if HasIntVerse(x) && SurahOf(x) == s then multiset(rows)[x] else 0
      {
        if s in SurahNumbers(clean) {
          FilterMultiset(clean, InSurah(s), x);
          FilterMultiset(rows, HasIntVerse, x);
        } else {
          assert !(x in clean && SurahOf(x) == s);
          if HasIntVerse(x) && SurahOf(x) == s {
            assert x !in rows;
          }
        }
      }
    }
  }

  /** Each surah's list is in (surah, ayah, source post) order when every source id is
      a number. */
  lemma IndexSurahSorted(rows: seq<JsObject>, s: int)
    requires forall x :: x in rows && HasIntVerse(x) ==> NumericSource(x)
    requires s in BuildQuranIndex(rows).ayahsBySurah
    ensures SortedByKey(BuildQuranIndex(rows).ayahsBySurah[s], RowOrder)
  {
    var clean := CleanRows(rows);
    assert BuildQuranIndex(rows).ayahsBySurah == BySurah(clean);
    BySurahGet(clean, s);
    CleanSorted(rows);
    if s in SurahNumbers(clean) {
      FilterSorted(clean, InSurah(s), RowOrder);
    }
  }

  lemma CleanSorted(rows: seq<JsObject>)
    requires forall x :: x in rows && HasIntVerse(x) ==> NumericSource(x)
    ensures SortedByKey(CleanRows(rows), RowOrder)
  {
    var kept := Filter(rows, HasIntVerse);
    forall a, b | a in kept && b in kept ensures CompareRows(a, b) == Lex(RowOrder(a), RowOrder(b)) {
      CompareRowsIsLex(a, b);
    }
    SortBySorted(kept, CompareRows, RowOrder, 3);
  }

  /** The key of a row with integer verse numbers is the `${surah}:${ayah}` of its
      numbers, so two such rows share a key exactly when they share both numbers. */
  lemma SameKeySameVerse(a: JsObject, b: JsObject)
    requires HasIntVerse(a) && HasIntVerse(b)
    ensures AyahKey(a) == AyahKey(b) <==> SurahOf(a) == SurahOf(b) && AyahOf(a) == AyahOf(b)
  {
    AyahKeyPair(a);
    AyahKeyPair(b);
    PairKeyInjective(Prop(a, "surah_number").n, Prop(a, "ayah_number").n,
                     Prop(b, "surah_number").n, Prop(b, "ayah_number").n);
  }

  lemma AyahKeyPair(row: JsObject)
    requires HasIntVerse(row)
    ensures AyahKey(row) == PairKey(Prop(row, "surah_number").n, Prop(row, "ayah_number").n)
  {
  }

  /** A key is indexed exactly when some row with integer verse numbers has it, and it
      holds one of those rows. */
  lemma IndexAyahByKey(rows: seq<JsObject>, k: string)
    ensures HasKey(BuildQuranIndex(rows).ayahByKey, k) <==>
      exists x :: x in rows && HasIntVerse(x) && AyahKey(x) == k
    ensures HasKey(BuildQuranIndex(rows).ayahByKey, k) ==>
      var x := Get(BuildQuranIndex(rows).ayahByKey, k).value;
      x in rows && HasIntVerse(x) && AyahKey(x) == k
  {
    var clean := CleanRows(rows);
    var m := FoldByKey(clean, AyahKey, Later);
    assert BuildQuranIndex(rows).ayahByKey == m;
    FoldByKeyHas(clean, AyahKey, Later, k);
    if HasKey(m, k) {
      var i :| 0 <= i < |clean| && AyahKey(clean[i]) == k;
      var j := LastWithKey(clean, AyahKey, k, i);
      FoldLaterGet(clean, AyahKey, k, j);
      CleanMembers(rows, clean[j]);
    } else {
      forall x | x in rows && HasIntVerse(x) ensures AyahKey(x) != k {
        CleanMembers(rows, x);
      }
    }
  }

  /** When every source id is a number, the row kept for a verse is one with the
      highest source post among the rows of that verse. */
  lemma IndexAyahByKeyLatest(rows: seq<JsObject>, y: JsObject)
    requires forall x :: x in rows && HasIntVerse(x) ==> NumericSource(x)
    requires y in rows && HasIntVerse(y)
    ensures HasKey(BuildQuranIndex(rows).ayahByKey, AyahKey(y))
    ensures SourceRank(y) <= SourceRank(Get(BuildQuranIndex(rows).ayahByKey, AyahKey(y)).value)
  {
    var clean := CleanRows(rows);
    assert BuildQuranIndex(rows).ayahByKey == FoldByKey(clean, AyahKey, Later);
    var i := CleanIndex(rows, y);
    CleanSorted(rows);
    SortedLatest(clean, i);
  }

  /** In a sorted list of rows with integer verse numbers, the row the index keeps for
      the verse of row `i` has a source post at least as high. */
  lemma SortedLatest(clean: seq<JsObject>, i: nat)
    requires SortedByKey(clean, RowOrder)
    requires forall k :: 0 <= k < |clean| ==> HasIntVerse(clean[k])
    requires i < |clean|
    ensures HasKey(FoldByKey(clean, AyahKey, Later), AyahKey(clean[i]))
    ensures SourceRank(clean[i]) <= SourceRank(Get(FoldByKey(clean, AyahKey, Later), AyahKey(clean[i])).value)
  {
    var j := FoldLaterAt(clean, AyahKey, i);
    if i < j {
      SortedSameVerse(clean, i, j);
    }
  }

  /** In a sorted list, of two rows of the same verse the later one has the higher
      source post. */
  lemma SortedSameVerse(clean: seq<JsObject>, i: nat, j: nat)
    requires SortedByKey(clean, RowOrder)
    requires i < j < |clean| && HasIntVerse(clean[i]) && HasIntVerse(clean[j])
    requires AyahKey(clean[i]) == AyahKey(clean[j])
    ensures SourceRank(clean[i]) <= SourceRank(clean[j])
  {
    SameKeySameVerse(clean[i], clean[j]);
    LastOfThree(RowOrder(clean[i]), RowOrder(clean[j]));
  }

  /** Keys that agree on their first two places compare by the third. */
  lemma LastOfThree(a: seq<int>, b: seq<int>)
    requires |a| == |b| == 3 && a[0] == b[0] && a[1] == b[1] && Lex(a, b) <= 0
    ensures a[2] <= b[2]
  {
    LexOfThree(a, b);
  }

  /** The first row of each surah: `surahMap` holds the entry made from it. */
  lemma FirstRowsEntry(clean: seq<JsObject>, i: nat)
    requires i < |FirstRows(clean)|
    ensures SurahOf(FirstRows(clean)[i].1) == FirstRows(clean)[i].0
    ensures FirstRows(clean)[i].0 in SurahNumbers(clean)
    ensures |SurahRows(clean, FirstRows(clean)[i].0)| > 0
    ensures SurahRows(clean, FirstRows(clean)[i].0)[0] == FirstRows(clean)[i].1
  {
    var firsts := FirstRows(clean);
    var s := firsts[i].0;
    FoldByKeyUnique(clean, SurahOf, Earlier);
    GetOfMember(firsts, i);
    assert HasKey(firsts, s) by { assert Keys(firsts)[i] == s; }
    FoldByKeyHas(clean, SurahOf, Earlier, s);
    var l :| 0 <= l < |clean| && SurahOf(clean[l]) == s;
    var j := FirstWithKey(clean, SurahOf, s, l);
    FoldEarlierGet(clean, SurahOf, s, j);
    FilterFirst(clean, InSurah(s), j);
  }

  /** What an entry of the unsorted surah list says: its surah is in the per-surah map,
      its count is the length of that surah's list, and its name comes from the list's
      first row, or it is the Al-Fatihah placeholder of an empty list. */
  predicate EntryAgrees(clean: seq<JsObject>, e: SurahEntry) {
    var bySurah := BySurah(clean);
    e.surahNumber in bySurah &&
    e.ayahCount == |bySurah[e.surahNumber]| &&
    (|bySurah[e.surahNumber]| > 0 ==> e.surahName == SurahNameOf(bySurah[e.surahNumber][0])) &&
    (|bySurah[e.surahNumber]| == 0 ==> e == Fatihah)
  }

  /** A surah has a first row exactly when some row belongs to it. */
  lemma FirstRowsHas(clean: seq<JsObject>, s: int)
    ensures HasKey(FirstRows(clean), s) <==> s in SurahNumbers(clean)
  {
    FoldByKeyHas(clean, SurahOf, Earlier, s);
    if s in SurahNumbers(clean) {
      var x :| x in clean && SurahOf(x) == s;
      var l :| 0 <= l < |clean| && clean[l] == x;
    }
  }

  lemma UnsortedAt(clean: seq<JsObject>, i: nat)
    requires i < |FirstRows(clean)|
    ensures i < |UnsortedSurahs(clean)|
    ensures UnsortedSurahs(clean)[i].surahNumber == FirstRows(clean)[i].0
    ensures EntryAgrees(clean, UnsortedSurahs(clean)[i])
  {
    var firsts := FirstRows(clean);
    assert UnsortedSurahs(clean)[i] == EntryOf(clean, firsts[i].1);
    FirstRowsEntry(clean, i);
    BySurahGet(clean, firsts[i].0);
  }

  lemma UnsortedPlaceholder(clean: seq<JsObject>)
    requires !HasKey(FirstRows(clean), 1)
    ensures UnsortedSurahs(clean)[|FirstRows(clean)|] == Fatihah
    ensures EntryAgrees(clean, Fatihah)
  {
    FirstRowsHas(clean, 1);
    BySurahGet(clean, 1);
  }

  lemma UnsortedAgree(clean: seq<JsObject>)
    ensures forall e :: e in UnsortedSurahs(clean) ==> EntryAgrees(clean, e)
  {
    var u := UnsortedSurahs(clean);
    var n := |FirstRows(clean)|;
    forall e | e in u ensures EntryAgrees(clean, e) {
      var i :| 0 <= i < |u| && u[i] == e;
      if i < n {
        UnsortedAt(clean, i);
      } else {
        UnsortedPlaceholder(clean);
      }
    }
  }

  lemma UnsortedCover(clean: seq<JsObject>, s: int)
    requires s in BySurah(clean)
    ensures exists e :: e in UnsortedSurahs(clean) && e.surahNumber == s
  {
    var firsts := FirstRows(clean);
    var u := UnsortedSurahs(clean);
    BySurahGet(clean, s);
    FirstRowsHas(clean, s);
    if HasKey(firsts, s) {
      var i :| 0 <= i < |firsts| && Keys(firsts)[i] == s;
      UnsortedAt(clean, i);
      assert u[i] in u;
    } else {
      UnsortedPlaceholder(clean);
      assert u[|firsts|] in u;
    }
  }

  lemma UnsortedDistinct(clean: seq<JsObject>)
    ensures DistinctBy(UnsortedSurahs(clean), NumberOf)
  {
    var firsts := FirstRows(clean);
    var u := UnsortedSurahs(clean);
    var n := |firsts|;
    FoldByKeyUnique(clean, SurahOf, Earlier);
    forall i, j | 0 <= i < j < |u| ensures NumberOf(u[i]) != NumberOf(u[j]) {
      UnsortedAt(clean, i);
      if j < n {
        UnsortedAt(clean, j);
      } else {
        UnsortedPlaceholder(clean);
        assert Keys(firsts)[i] == firsts[i].0;
      }
    }
  }

  /** The surah list holds one entry per surah, in ascending order. */
  lemma IndexSurahsOrder(rows: seq<JsObject>)
    ensures DistinctBy(BuildQuranIndex(rows).surahs, NumberOf)
    ensures SortedByKey(BuildQuranIndex(rows).surahs, NumberKey)
  {
    var u := UnsortedSurahs(CleanRows(rows));
    assert BuildQuranIndex(rows).surahs == SortBy(u, CompareSurahs);
    UnsortedDistinct(CleanRows(rows));
    SortByDistinct(u, CompareSurahs, NumberOf);
    forall a, b | a in u && b in u ensures CompareSurahs(a, b) == Lex(NumberKey(a), NumberKey(b)) {
      CompareSurahsIsLex(a, b);
    }
    SortBySorted(u, CompareSurahs, NumberKey, 1);
  }

  lemma CompareSurahsIsLex(a: SurahEntry, b: SurahEntry)
    ensures CompareSurahs(a, b) == Lex(NumberKey(a), NumberKey(b))
  {
    assert NumberKey(a)[1..] == [] && NumberKey(b)[1..] == [];
  }

  /** The surahs listed are exactly the keys of the per-surah map. */
  lemma IndexSurahsCover(rows: seq<JsObject>, s: int)
    ensures s in BuildQuranIndex(rows).ayahsBySurah <==>
      exists e :: e in BuildQuranIndex(rows).surahs && e.surahNumber == s
  {
    var clean := CleanRows(rows);
    var u := UnsortedSurahs(clean);
    var index := BuildQuranIndex(rows);
    assert index.surahs == SortBy(u, CompareSurahs) && index.ayahsBySurah == BySurah(clean);
    assert forall e :: e in index.surahs <==> e in u by {
      assert forall e :: e in index.surahs <==> e in multiset(index.surahs);
    }
    if s in BySurah(clean) {
      UnsortedCover(clean, s);
    }
    UnsortedAgree(clean);
  }

  /** Each surah entry agrees with the per-surah map. */
  lemma IndexSurahEntries(rows: seq<JsObject>, e: SurahEntry)
    requires e in BuildQuranIndex(rows).surahs
    ensures var bySurah := BuildQuranIndex(rows).ayahsBySurah;
      e.surahNumber in bySurah &&
      e.ayahCount == |bySurah[e.surahNumber]| &&
      (|bySurah[e.surahNumber]| > 0 ==> e.surahName == SurahNameOf(bySurah[e.surahNumber][0])) &&
      (|bySurah[e.surahNumber]| == 0 ==> e == Fatihah)
  {
    var clean := CleanRows(rows);
    var u := UnsortedSurahs(clean);
    var index := BuildQuranIndex(rows);
    assert index.surahs == SortBy(u, CompareSurahs) && index.ayahsBySurah == BySurah(clean);
    assert e in multiset(index.surahs);
    UnsortedAgree(clean);
    assert EntryAgrees(clean, e);
  }

  // ---------------------------------------------------------------------
  // filterSurahs and filterAyahs
  // ---------------------------------------------------------------------

  /** `query.trim().toLowerCase()`. */
  function SearchTerm(query: string): string {
    LowerStr(JsTrim(query))
  }

  /** The surah's number or its lower-cased name contains the term. */
  predicate SurahMatches(q: string, e: SurahEntry) {
    Contains(IntToString(e.surahNumber), q) || Contains(LowerStr(TextOf(e.surahName)), q)
  }

  function SurahMatcher(q: string): SurahEntry -> bool {
    e => SurahMatches(q, e)
  }

  /** `filterSurahs`: a blank query lists every surah, any other the matching ones in
      their order. */
  function FilterSurahs(surahs: seq<SurahEntry>, query: string): (r: seq<SurahEntry>)
    ensures SearchTerm(query) == "" ==> r == surahs
    ensures SearchTerm(query) != "" ==>
      forall e :: e in r <==> e in surahs && SurahMatches(SearchTerm(query), e)
    ensures IsSublist(r, surahs)
  {
    var q := SearchTerm(query);
    if q == "" then
      SublistRefl(surahs);
      surahs
    else Filter(surahs, SurahMatcher(q))
  }

  /** The ayah's number or one of its lower-cased texts contains the term. */
  predicate AyahMatches(q: string, a: JsObject) {
    Contains(ToStr(Prop(a, "ayah_number")), q) ||
    Contains(LowerStr(TextOf(Prop(a, "arabic_text"))), q) ||
    Contains(LowerStr(TextOf(Prop(a, "translation"))), q) ||
    Contains(LowerStr(TextOf(Prop(a, "tafseer"))), q)
  }

  function AyahMatcher(q: string): JsObject -> bool {
    a => AyahMatches(q, a)
  }

  /** `filterAyahs`: a blank query lists every ayah, any other the matching ones in
      their order. */
  function FilterAyahs(ayahs: seq<JsObject>, query: string): (r: seq<JsObject>)
    ensures SearchTerm(query) == "" ==> r == ayahs
    ensures SearchTerm(query) != "" ==>
      forall a :: a in r <==> a in ayahs && AyahMatches(SearchTerm(query), a)
    ensures IsSublist(r, ayahs)
  {
    var q := SearchTerm(query);
    if q == "" then
      SublistRefl(ayahs);
      ayahs
    else Filter(ayahs, AyahMatcher(q))
  }

  lemma SurahMatchesNarrows(e: SurahEntry, p: string, q: string)
    requires SurahMatches(q, e) && Contains(q, p)
    ensures SurahMatches(p, e)
  {
    if Contains(IntToString(e.surahNumber), q) {
      ContainsTransitive(IntToString(e.surahNumber), q, p);
    } else {
      ContainsTransitive(LowerStr(TextOf(e.surahName)), q, p);
    }
  }

  lemma AyahMatchesNarrows(a: JsObject, p: string, q: string)
    requires AyahMatches(q, a) && Contains(q, p)
    ensures AyahMatches(p, a)
  {
    var number := ToStr(Prop(a, "ayah_number"));
    var arabic := LowerStr(TextOf(Prop(a, "arabic_text")));
    var translation := LowerStr(TextOf(Prop(a, "translation")));
    var tafseer := LowerStr(TextOf(Prop(a, "tafseer")));
    if Contains(number, q) {
      ContainsTransitive(number, q, p);
    } else if Contains(arabic, q) {
      ContainsTransitive(arabic, q, p);
    } else if Contains(translation, q) {
      ContainsTransitive(translation, q, p);
    } else {
      ContainsTransitive(tafseer, q, p);
    }
  }

  /** Typing more narrows the surah list: whatever a query that contains another
      lists, the shorter one lists too. */
  lemma FilterSurahsNarrows(surahs: seq<SurahEntry>, short: string, long: string)
    requires SearchTerm(short) != "" && Contains(SearchTerm(long), SearchTerm(short))
    ensures forall e :: e in FilterSurahs(surahs, long) ==> e in FilterSurahs(surahs, short)
  {
    var p, q := SearchTerm(short), SearchTerm(long);
    ContainsLength(q, p);
    forall e | e in FilterSurahs(surahs, long) ensures SurahMatches(p, e) {
      SurahMatchesNarrows(e, p, q);
    }
  }

  /** Typing more narrows the ayah list in the same way. */
  lemma FilterAyahsNarrows(ayahs: seq<JsObject>, short: string, long: string)
    requires SearchTerm(short) != "" && Contains(SearchTerm(long), SearchTerm(short))
    ensures forall a :: a in FilterAyahs(ayahs, long) ==> a in FilterAyahs(ayahs, short)
  {
    var p, q := SearchTerm(short), SearchTerm(long);
    ContainsLength(q, p);
    forall a | a in FilterAyahs(ayahs, long) ensures AyahMatches(p, a) {
      AyahMatchesNarrows(a, p, q);
    }
  }
}
