/**
 * The coverage report `build_records` of scripts/admin_sync.py returns with
 * its rows: the verses of every surah in row order, the verses of a surah
 * that no row covers, one summary per surah, and the report's counters.
 */
module SyncReport {
  import opened Base
  import opened Seqs
  import opened Assoc
  import opened Sorting
  import opened Telegram
  import opened SyncFlow
  import opened SyncRecords

  /** Each element is smaller than every later one. */
  predicate Increasing(s: seq<int>) {
    forall i, j :: 0 <= i < j < |s| ==> s[i] < s[j]
  }

  /** In an increasing list, order of positions and order of elements agree. */
  lemma IncreasingIndex(s: seq<int>, i: nat, j: nat)
    requires Increasing(s) && i < |s| && j < |s|
    ensures s[i] < s[j] <==> i < j
    ensures s[i] == s[j] <==> i == j
  {
    if i < j {
      assert s[i] < s[j];
    } else if j < i {
      assert s[j] < s[i];
    }
  }

  /** A list whose elements all lie in `1..top` is empty when `top` is below 1. */
  lemma InRangeNonEmpty(ayahs: seq<int>, top: int)
    requires forall i :: 0 <= i < |ayahs| ==> 1 <= ayahs[i] <= top
    ensures |ayahs| == 0 || 1 <= top
  {
    if |ayahs| > 0 {
      assert 1 <= ayahs[0] <= top;
    }
  }

  /** Rows ordered by (surah, verse) with no verse twice: what `build_records` sorts. */
  predicate InVerseOrder(rows: seq<SyncRow>) {
    forall i, j :: 0 <= i < j < |rows| ==>
      rows[i].surahNumber < rows[j].surahNumber ||
      (rows[i].surahNumber == rows[j].surahNumber && rows[i].ayahNumber < rows[j].ayahNumber)
  }

  /** Rows sorted by `SortKey` with distinct verse keys are in verse order. */
  lemma VerseOrderOfSorted(rows: seq<SyncRow>)
    requires SortedByKey(rows, SortKey) && DistinctBy(rows, RowKey)
    ensures InVerseOrder(rows)
  {
    forall i, j | 0 <= i < j < |rows|
      ensures rows[i].surahNumber < rows[j].surahNumber ||
        (rows[i].surahNumber == rows[j].surahNumber && rows[i].ayahNumber < rows[j].ayahNumber)
    {
      var a, b := SortKey(rows[i]), SortKey(rows[j]);
      assert Lex(a, b) <= 0;
      assert RowKey(rows[i]) != RowKey(rows[j]);
      if a[0] == b[0] {
        assert Lex(a, b) == Lex(a[1..], b[1..]);
        assert a[1..][0] == a[1] && b[1..][0] == b[1];
      }
    }
  }

  // ---------------------------------------------------------------------
  // by_surah
  // ---------------------------------------------------------------------

  /** The verse numbers of surah `s`, in row order. */
  function AyahsOf(rows: seq<SyncRow>, s: int): seq<int> {
    if |rows| == 0 then []
    else
      var x := rows[|rows| - 1];
      AyahsOf(rows[..|rows| - 1], s) + (if x.surahNumber == s then [x.ayahNumber] else [])
  }

  /** `by_surah`: the `setdefault(...).append(...)` loop over the rows, one entry per
      surah in order of first appearance, holding its verse numbers. */
  function Grouped(rows: seq<SyncRow>): (g: seq<(int, seq<int>)>)
    ensures UniqueKeys(g)
    ensures forall p :: p in g ==> p.1 != []
  {
    if |rows| == 0 then []
    else
      var g0 := Grouped(rows[..|rows| - 1]);
      var x := rows[|rows| - 1];
      var prior := match Get(g0, x.surahNumber) case Some(a) => a case None => [];
      PutUnique(g0, x.surahNumber, prior + [x.ayahNumber]);
      Put(g0, x.surahNumber, prior + [x.ayahNumber])
  }

  /** A verse number is listed under a surah exactly when some row has that surah and
      verse. */
  lemma {:induction false} AyahsOfMembers(rows: seq<SyncRow>, s: int, a: int)
    ensures a in AyahsOf(rows, s) <==> exists i :: 0 <= i < |rows| && RowKey(rows[i]) == (s, a)
  {
    if |rows| > 0 {
      var init := rows[..|rows| - 1];
      AyahsOfMembers(init, s, a);
      if exists i :: 0 <= i < |rows| && RowKey(rows[i]) == (s, a) {
        var i :| 0 <= i < |rows| && RowKey(rows[i]) == (s, a);
        if i < |init| {
          assert init[i] == rows[i];
        }
      }
      if exists i :: 0 <= i < |init| && RowKey(init[i]) == (s, a) {
        var i :| 0 <= i < |init| && RowKey(init[i]) == (s, a);
        assert rows[i] == init[i];
      }
    }
  }

  /** `by_surah[s]` is the list of the surah's verse numbers, and a surah is a key
      exactly when some row has it. */
  lemma {:induction false} GroupedGet(rows: seq<SyncRow>, s: int)
    ensures Get(Grouped(rows), s) == if AyahsOf(rows, s) == [] then None else Some(AyahsOf(rows, s))
  {
    if |rows| > 0 {
      var init := rows[..|rows| - 1];
      var x := rows[|rows| - 1];
      GroupedGet(init, s);
      GroupedGet(init, x.surahNumber);
      var g0 := Grouped(init);
      var prior := match Get(g0, x.surahNumber) case Some(a) => a case None => [];
      assert prior == AyahsOf(init, x.surahNumber);
      assert Grouped(rows) == Put(g0, x.surahNumber, prior + [x.ayahNumber]);
      PutGet(g0, x.surahNumber, prior + [x.ayahNumber], s);
      assert AyahsOf(rows, s) == AyahsOf(init, s) + (if x.surahNumber == s then [x.ayahNumber] else []);
      if x.surahNumber != s {
        assert AyahsOf(rows, s) == AyahsOf(init, s);
      }
    }
  }

  /** In verse-ordered rows the verses of one surah are increasing. */
  lemma {:induction false} AyahsOfIncreasing(rows: seq<SyncRow>, s: int)
    requires InVerseOrder(rows)
    ensures Increasing(AyahsOf(rows, s))
  {
    if |rows| > 0 {
      var init := rows[..|rows| - 1];
      var x := rows[|rows| - 1];
      assert InVerseOrder(init);
      AyahsOfIncreasing(init, s);
      if x.surahNumber == s {
        var a := AyahsOf(init, s);
        forall k | 0 <= k < |a|
          ensures a[k] < x.ayahNumber
        {
          AyahsOfMembers(init, s, a[k]);
          var i :| 0 <= i < |init| && RowKey(init[i]) == (s, a[k]);
          assert rows[i] == init[i];
        }
      }
    }
  }

  /** The surahs of verse-ordered rows are listed in increasing order, the last one
      being the surah of the last row. */
  lemma {:induction false} GroupedKeysIncreasing(rows: seq<SyncRow>)
    requires InVerseOrder(rows)
    ensures Increasing(Keys(Grouped(rows)))
    ensures rows != [] ==>
      (|Grouped(rows)| > 0 && Grouped(rows)[|Grouped(rows)| - 1].0 == rows[|rows| - 1].surahNumber)
  {
    if |rows| > 0 {
      var init := rows[..|rows| - 1];
      var x := rows[|rows| - 1];
      assert InVerseOrder(init);
      GroupedKeysIncreasing(init);
      var g0 := Grouped(init);
      if init != [] {
        assert init[|init| - 1] == rows[|rows| - 2];
      }
      var prior := match Get(g0, x.surahNumber) case Some(a) => a case None => [];
      PutIncreasing(g0, x.surahNumber, prior + [x.ayahNumber]);
      assert Grouped(rows) == Put(g0, x.surahNumber, prior + [x.ayahNumber]);
    }
  }

  /** Storing under a key no smaller than the last key keeps the keys increasing and
      makes it the last key. */
  lemma PutIncreasing(g0: seq<(int, seq<int>)>, k: int, v: seq<int>)
    requires Increasing(Keys(g0))
    requires g0 != [] ==> g0[|g0| - 1].0 <= k
    ensures Increasing(Keys(Put(g0, k, v)))
    ensures |Put(g0, k, v)| > 0 && Put(g0, k, v)[|Put(g0, k, v)| - 1].0 == k
  {
    var g := Put(g0, k, v);
    var ks := Keys(g0);
    if HasKey(g0, k) {
      var j :| 0 <= j < |ks| && ks[j] == k;
      IncreasingIndex(ks, j, |ks| - 1);
      assert Keys(g) == ks;
      assert Keys(g)[|g| - 1] == g[|g| - 1].0;
    } else {
      assert Keys(g) == ks + [k];
      assert Keys(g)[|g| - 1] == g[|g| - 1].0;
      if ks != [] {
        assert ks[|ks| - 1] in ks;
      }
      forall i, j | 0 <= i < j < |g|
        ensures Keys(g)[i] < Keys(g)[j]
      {
        if j == |g| - 1 && i < |ks| {
          IncreasingIndex(ks, i, |ks| - 1);
        }
      }
    }
  }

  // ---------------------------------------------------------------------
  // Missing verses
  // ---------------------------------------------------------------------

  /** `[a for a in range(1, top + 1) if a not in set(ayahs)]`. */
  function Missing(ayahs: seq<int>, top: int): (r: seq<int>)
    ensures forall i :: 0 <= i < |r| ==> 1 <= r[i] <= top && r[i] !in ayahs
    ensures Increasing(r)
    decreases top
  {
    if top <= 0 then []
    else Missing(ayahs, top - 1) + (if top in ayahs then [] else [top])
  }

  /** The missing verses are exactly the verses of `1..top` not in the list. */
  lemma MissingIn(ayahs: seq<int>, top: int)
    ensures forall x :: x in Missing(ayahs, top) <==> 1 <= x <= top && x !in ayahs
  {
    forall x
      ensures x in Missing(ayahs, top) <==> 1 <= x <= top && x !in ayahs
    {
      MissingMembers(ayahs, top, x);
    }
  }

  /** Every verse of `1..top` not in the list is among the missing ones. */
  lemma {:induction false} MissingMembers(ayahs: seq<int>, top: int, x: int)
    ensures x in Missing(ayahs, top) <==> 1 <= x <= top && x !in ayahs
    decreases top
  {
    if top > 0 {
      MissingMembers(ayahs, top - 1, x);
    }
  }

  /** Two verse lists that agree on `1..top` miss the same verses. */
  lemma {:induction false} MissingSame(a: seq<int>, b: seq<int>, top: int)
    requires forall x :: 1 <= x <= top ==> (x in a <==> x in b)
    ensures Missing(a, top) == Missing(b, top)
    decreases top
  {
    if top > 0 {
      MissingSame(a, b, top - 1);
    }
  }

  /** An increasing list of verses in `1..top` and its missing verses together number
      `top`. */
  lemma {:induction false} MissingCount(ayahs: seq<int>, top: nat)
    requires Increasing(ayahs)
    requires forall i :: 0 <= i < |ayahs| ==> 1 <= ayahs[i] <= top
    ensures |Missing(ayahs, top)| + |ayahs| == top
    decreases top
  {
    if top == 0 {
      InRangeNonEmpty(ayahs, top);
      assert Missing(ayahs, top) == [];
    } else if top in ayahs {
      var init := MissingCountPresent(ayahs, top);
      MissingCount(init, top - 1);
    } else {
      MissingCountAbsent(ayahs, top);
      MissingCount(ayahs, top - 1);
    }
  }

  /** When `top` is present it is the last verse, and the rest miss what the whole
      list misses below `top`. */
  lemma MissingCountPresent(ayahs: seq<int>, top: nat) returns (init: seq<int>)
    requires Increasing(ayahs) && top in ayahs
    requires forall i :: 0 <= i < |ayahs| ==> 1 <= ayahs[i] <= top
    ensures |init| + 1 == |ayahs| && Increasing(init)
    ensures forall i :: 0 <= i < |init| ==> 1 <= init[i] <= top - 1
    ensures Missing(ayahs, top) == Missing(init, top - 1)
  {
    var n := |ayahs|;
    var k :| 0 <= k < n && ayahs[k] == top;
    IncreasingIndex(ayahs, k, n - 1);
    init := ayahs[..n - 1];
    forall i | 0 <= i < |init|
      ensures 1 <= init[i] <= top - 1
    {
      assert init[i] == ayahs[i] < ayahs[n - 1];
    }
    forall x | 1 <= x <= top - 1
      ensures x in ayahs <==> x in init
    {
      assert ayahs == init + [top];
    }
    MissingSame(ayahs, init, top - 1);
    assert Missing(ayahs, top) == Missing(ayahs, top - 1) + [];
  }

  /** When `top` is absent every verse is below it and `top` itself is missing. */
  lemma MissingCountAbsent(ayahs: seq<int>, top: nat)
    requires top > 0 && top !in ayahs
    requires forall i :: 0 <= i < |ayahs| ==> 1 <= ayahs[i] <= top
    ensures forall i :: 0 <= i < |ayahs| ==> 1 <= ayahs[i] <= top - 1
    ensures |Missing(ayahs, top)| == |Missing(ayahs, top - 1)| + 1
  {
    forall i | 0 <= i < |ayahs|
      ensures 1 <= ayahs[i] <= top - 1
    {
      assert ayahs[i] in ayahs;
    }
    assert Missing(ayahs, top) == Missing(ayahs, top - 1) + [top];
  }

  /** The first `k` elements of an increasing list hold every element smaller than the
      `k`-th. */
  lemma PrefixHoldsSmaller(m: seq<int>, k: nat, x: int)
    requires Increasing(m) && 0 < k <= |m|
    requires x in m && x <= m[k - 1]
    ensures x in m[..k]
  {
    var j :| 0 <= j < |m| && m[j] == x;
    IncreasingIndex(m, j, k - 1);
    assert m[..k][j] == x;
  }

  // ---------------------------------------------------------------------
  // Summaries
  // ---------------------------------------------------------------------

  /** The smallest element. */
  function MinOf(s: seq<int>): (r: int)
    requires |s| > 0
    ensures r in s && forall x :: x in s ==> r <= x
  {
    if |s| == 1 then s[0]
    else
      var m := MinOf(s[1..]);
      assert forall x :: x in s ==> x == s[0] || x in s[1..];
      if s[0] <= m then s[0] else m
  }

  /** The largest element. */
  function MaxOf(s: seq<int>): (r: int)
    requires |s| > 0
    ensures r in s && forall x :: x in s ==> x <= r
  {
    if |s| == 1 then s[0]
    else
      var m := MaxOf(s[1..]);
      assert forall x :: x in s ==> x == s[0] || x in s[1..];
      if s[0] >= m then s[0] else m
  }

  /** The smallest and largest elements of an increasing list are its ends. */
  lemma IncreasingEnds(s: seq<int>)
    requires |s| > 0 && Increasing(s)
    ensures MinOf(s) == s[0] && MaxOf(s) == s[|s| - 1]
  {
    var n := |s|;
    var k :| 0 <= k < n && s[k] == MinOf(s);
    IncreasingIndex(s, 0, k);
    var k' :| 0 <= k' < n && s[k'] == MaxOf(s);
    IncreasingIndex(s, k', n - 1);
  }

  /** `missing[:20]` of an increasing list: in increasing order, every element taken
      from it, and all of it unless 20 were taken. */
  lemma PreviewSpec(m: seq<int>)
    requires Increasing(m)
    ensures var p := Take(m, 20);
      && |p| == (if |m| < 20 then |m| else 20)
      && Increasing(p)
      && (forall x :: x in p ==> x in m)
      && (forall x :: x in m ==> x in p || |p| == 20)
  {
    var p := Take(m, 20);
    assert p == m[..|p|];
    forall x | x in p
      ensures x in m
    {
      var i :| 0 <= i < |p| && p[i] == x;
      assert m[i] == x;
    }
  }

  /** One entry of `surah_summary`. */
  datatype SurahSummary = SurahSummary(
    count: nat, minAyah: int, maxAyah: int, missingCount: nat, firstMissingPreview: seq<int>)

  /** The summary of one surah: the surah's own verse count bounds the missing verses,
      or the largest verse present for a surah the table lacks; at most 20 missing
      verses are previewed. */
  function Summarize(surah: int, ayahs: seq<int>): SurahSummary
    requires |ayahs| > 0
  {
    var top := if MaxAyah(surah).Some? then MaxAyah(surah).value else MaxOf(ayahs);
    var missing := Missing(ayahs, top);
    SurahSummary(|ayahs|, MinOf(ayahs), MaxOf(ayahs), |missing|, Take(missing, 20))
  }

  /** For a known surah whose verses are increasing and in range: the count, the first
      and last verse, the missing count completing the surah's verse count, and the
      preview holding, in increasing order, the first missing verses. */
  lemma SummarizeSpec(surah: int, ayahs: seq<int>)
    requires |ayahs| > 0 && Increasing(ayahs)
    requires MaxAyah(surah).Some?
    requires forall i :: 0 <= i < |ayahs| ==> 1 <= ayahs[i] <= MaxAyah(surah).value
    ensures var sm := Summarize(surah, ayahs);
      && sm.count == |ayahs|
      && sm.minAyah == ayahs[0] && sm.maxAyah == ayahs[|ayahs| - 1]
      && sm.count + sm.missingCount == MaxAyah(surah).value
      && |sm.firstMissingPreview| == (if sm.missingCount < 20 then sm.missingCount else 20)
      && Increasing(sm.firstMissingPreview)
      && (forall x :: x in sm.firstMissingPreview ==> 1 <= x <= MaxAyah(surah).value && x !in ayahs)
      && (forall x :: 1 <= x <= MaxAyah(surah).value && x !in ayahs ==>
            x in sm.firstMissingPreview || |sm.firstMissingPreview| == 20)
  {
    var top := MaxAyah(surah).value;
    var sm := Summarize(surah, ayahs);
    var missing := Missing(ayahs, top);
    assert sm == SurahSummary(|ayahs|, MinOf(ayahs), MaxOf(ayahs), |missing|, Take(missing, 20));
    MissingCount(ayahs, top);
    IncreasingEnds(ayahs);
    PreviewSpec(missing);
    MissingIn(ayahs, top);
  }

  /** `surah_summary`: the summary of every entry of `by_surah`, in the same order. */
  function Summaries(g: seq<(int, seq<int>)>): (r: seq<(int, SurahSummary)>)
    requires forall p :: p in g ==> p.1 != []
    ensures Keys(r) == Keys(g)
  {
    seq(|g|, i requires 0 <= i < |g| => (g[i].0, Summarize(g[i].0, g[i].1)))
  }

  // ---------------------------------------------------------------------
  // Report
  // ---------------------------------------------------------------------

  /** The report `build_records` returns next to its rows. */
  datatype Report = Report(
    rowsWritten: nat, surahCount: nat, surahMin: Option<int>, surahMax: Option<int>,
    messagesScanned: nat, messagesWithAyahBlocks: nat, surahSummary: seq<(int, SurahSummary)>)

  /** The report over sorted rows and the scan's two counters. */
  function MakeReport(rows: seq<SyncRow>, scanned: nat, blocks: nat): Report {
    var summary := Summaries(Grouped(rows));
    var surahs := Keys(summary);
    Report(
      |rows|, |summary|,
      if surahs == [] then None else Some(MinOf(surahs)),
      if surahs == [] then None else Some(MaxOf(surahs)),
      scanned, blocks, summary)
  }

  /** `build_records`: the sorted records and their report. */
  function BuildRecords(rules: FlowRules, msgs: seq<Message>): (seq<SyncRow>, Report) {
    var st := Scan(rules, msgs);
    var rows := Records(rules, msgs);
    (rows, MakeReport(rows, st.scanned, st.blocks))
  }

  /** The report lists, in increasing order, exactly the surahs the rows cover, the
      first and last of them as `surah_min` and `surah_max`, and none for no rows. */
  lemma ReportSurahs(rows: seq<SyncRow>, scanned: nat, blocks: nat)
    requires InVerseOrder(rows)
    ensures var rep := MakeReport(rows, scanned, blocks);
      var surahs := Keys(rep.surahSummary);
      && rep.rowsWritten == |rows|
      && rep.surahCount == |surahs|
      && Increasing(surahs)
      && (forall s :: s in surahs <==> exists i :: 0 <= i < |rows| && rows[i].surahNumber == s)
      && (rep.surahMin.None? <==> rows == []) && (rep.surahMax.None? <==> rows == [])
      && (rows != [] ==> rep.surahMin == Some(rows[0].surahNumber) &&
                         rep.surahMax == Some(rows[|rows| - 1].surahNumber))
  {
    var g := Grouped(rows);
    var rep := MakeReport(rows, scanned, blocks);
    var surahs := Keys(rep.surahSummary);
    assert surahs == Keys(g);
    GroupedKeysIncreasing(rows);
    GroupedSurahs(rows);
    if rows != [] {
      FirstSurah(rows, surahs);
      IncreasingEnds(surahs);
    }
  }

  /** The keys of `by_surah` are exactly the surahs of the rows. */
  lemma GroupedSurahs(rows: seq<SyncRow>)
    ensures forall s :: s in Keys(Grouped(rows)) <==> exists i :: 0 <= i < |rows| && rows[i].surahNumber == s
  {
    forall s
      ensures s in Keys(Grouped(rows)) <==> exists i :: 0 <= i < |rows| && rows[i].surahNumber == s
    {
      GroupedGet(rows, s);
      if s in Keys(Grouped(rows)) {
        var a := AyahsOf(rows, s);
        assert a != [];
        AyahsOfMembers(rows, s, a[0]);
      }
      if exists i :: 0 <= i < |rows| && rows[i].surahNumber == s {
        var i :| 0 <= i < |rows| && rows[i].surahNumber == s;
        AyahsOfMembers(rows, s, rows[i].ayahNumber);
      }
    }
  }

  /** The first of an increasing list of exactly the rows' surahs is the surah of the
      first row. */
  lemma FirstSurah(rows: seq<SyncRow>, surahs: seq<int>)
    requires InVerseOrder(rows) && rows != [] && Increasing(surahs)
    requires forall s :: s in surahs <==> exists i :: 0 <= i < |rows| && rows[i].surahNumber == s
    ensures surahs != [] && surahs[0] == rows[0].surahNumber
  {
    assert rows[0].surahNumber in surahs;
    var k :| 0 <= k < |surahs| && surahs[k] == rows[0].surahNumber;
    assert surahs[0] in surahs;
    var i :| 0 <= i < |rows| && rows[i].surahNumber == surahs[0];
    assert i == 0 || rows[0].surahNumber <= rows[i].surahNumber;
    IncreasingIndex(surahs, 0, k);
  }

  /** Each `surah_summary` entry of rows in verse order, all valid: the surah's verse
      count, its first and last verse, and the missing verses that complete it. */
  lemma ReportEntry(rows: seq<SyncRow>, scanned: nat, blocks: nat, k: nat)
    requires InVerseOrder(rows) && forall x :: x in rows ==> RowOk(x)
    requires k < |MakeReport(rows, scanned, blocks).surahSummary|
    ensures var (s, sm) := MakeReport(rows, scanned, blocks).surahSummary[k];
      var ayahs := AyahsOf(rows, s);
      && ayahs != []
      && MaxAyah(s).Some?
      && sm.count == |ayahs|
      && sm.minAyah == ayahs[0] && sm.maxAyah == ayahs[|ayahs| - 1]
      && sm.count + sm.missingCount == MaxAyah(s).value
      && |sm.firstMissingPreview| == (if sm.missingCount < 20 then sm.missingCount else 20)
      && (forall x :: x in sm.firstMissingPreview ==> 1 <= x <= MaxAyah(s).value && x !in ayahs)
  {
    var g := Grouped(rows);
    var s := g[k].0;
    GroupedGet(rows, s);
    GetOfMember(g, k);
    var ayahs := AyahsOf(rows, s);
    assert g[k].1 == ayahs;
    AyahsOfIncreasing(rows, s);
    AyahsOfMembers(rows, s, ayahs[0]);
    var i :| 0 <= i < |rows| && RowKey(rows[i]) == (s, ayahs[0]);
    assert RowOk(rows[i]);
    forall j | 0 <= j < |ayahs|
      ensures 1 <= ayahs[j] <= MaxAyah(s).value
    {
      AyahsOfMembers(rows, s, ayahs[j]);
      var i' :| 0 <= i' < |rows| && RowKey(rows[i']) == (s, ayahs[j]);
      assert RowOk(rows[i']);
    }
    SummarizeSpec(s, ayahs);
  }

  /** `build_records` returns the records, and its report counts them, the chat messages
      scanned and the messages that had verse blocks, no more than were scanned. */
  lemma BuildRecordsCounts(rules: FlowRules, msgs: seq<Message>)
    ensures var (rows, rep) := BuildRecords(rules, msgs);
      && rows == Records(rules, msgs)
      && rep.rowsWritten == |rows|
      && rep.messagesScanned == Count(msgs, IsChatMessage)
      && rep.messagesWithAyahBlocks <= rep.messagesScanned
  {
    ScanCounts(rules, msgs);
  }

  /** The report of `build_records` lists exactly the surahs of its records, in
      increasing order, the first and last as `surah_min` and `surah_max`. */
  lemma BuildRecordsSurahs(rules: FlowRules, msgs: seq<Message>)
    ensures var (rows, rep) := BuildRecords(rules, msgs);
      var surahs := Keys(rep.surahSummary);
      && rep.surahCount == |surahs|
      && Increasing(surahs)
      && (forall s :: s in surahs <==> exists i :: 0 <= i < |rows| && rows[i].surahNumber == s)
      && (rows != [] ==> rep.surahMin == Some(rows[0].surahNumber) &&
                         rep.surahMax == Some(rows[|rows| - 1].surahNumber))
      && (rows == [] ==> rep.surahMin.None? && rep.surahMax.None?)
  {
    var rows := Records(rules, msgs);
    var st := Scan(rules, msgs);
    RecordsShape(rules, msgs);
    VerseOrderOfSorted(rows);
    ReportSurahs(rows, st.scanned, st.blocks);
  }
}
