/**
 * The record builder of scripts/admin_sync.py: the per-surah verse counts,
 * `merge_rows`, the per-message scan that cuts a chat message into verse
 * blocks and candidate rows, and `build_records`, which folds the candidates
 * by verse key, sorts them and summarises the coverage of every surah.
 */
module SyncRecords {
  import opened Base
  import opened Strings
  import opened Seqs
  import opened Assoc
  import opened KeyedFold
  import opened Sorting
  import opened PyText
  import opened SyncFlow
  import opened SyncScan
  import opened Telegram
  import Juz

  // ---------------------------------------------------------------------
  // Verse counts
  // ---------------------------------------------------------------------

  /** `SURAH_AYAH_MAX`, twelve surahs to a row: the number of verses of surah 1 to 114. */
  const SurahAyahMaxRows: seq<seq<nat>> := [
    [7, 286, 200, 176, 120, 165, 206, 75, 129, 109, 123, 111],
    [43, 52, 99, 128, 111, 110, 98, 135, 112, 78, 118, 64],
    [77, 227, 93, 88, 69, 60, 34, 30, 73, 54, 45, 83],
    [182, 88, 75, 85, 54, 53, 89, 59, 37, 35, 38, 29],
    [18, 45, 60, 49, 62, 55, 78, 96, 29, 22, 24, 13],
    [14, 11, 11, 18, 12, 12, 30, 52, 52, 44, 28, 28],
    [20, 56, 40, 31, 50, 40, 46, 42, 29, 19, 36, 25],
    [22, 17, 19, 26, 30, 20, 15, 21, 11, 8, 8, 19],
    [5, 8, 8, 11, 11, 8, 3, 9, 5, 4, 7, 3],
    [6, 3, 5, 4, 5, 6]
  ]

  const SurahAyahMax: seq<nat> :=
    SurahAyahMaxRows[0] + SurahAyahMaxRows[1] + SurahAyahMaxRows[2] + SurahAyahMaxRows[3] + SurahAyahMaxRows[4] +
    SurahAyahMaxRows[5] + SurahAyahMaxRows[6] + SurahAyahMaxRows[7] + SurahAyahMaxRows[8] + SurahAyahMaxRows[9]

  function Sum(s: seq<nat>): nat {
    if |s| == 0 then 0 else s[0] + Sum(s[1..])
  }

  /** Every element is at least `k`. */
  predicate AllAtLeast(s: seq<nat>, k: nat) {
    |s| == 0 || (s[0] >= k && AllAtLeast(s[1..], k))
  }

  lemma {:induction false} SumAppend(a: seq<nat>, b: seq<nat>)
    ensures Sum(a + b) == Sum(a) + Sum(b)
  {
    if |a| > 0 {
      assert (a + b)[1..] == a[1..] + b;
      SumAppend(a[1..], b);
    } else {
      assert a + b == b;
    }
  }

  lemma {:induction false} AllAtLeastAppend(a: seq<nat>, b: seq<nat>, k: nat)
    requires AllAtLeast(a, k) && AllAtLeast(b, k)
    ensures AllAtLeast(a + b, k)
  {
    if |a| > 0 {
      assert (a + b)[1..] == a[1..] + b;
      AllAtLeastAppend(a[1..], b, k);
    } else {
      assert a + b == b;
    }
  }

  lemma {:induction false} AllAtLeastIndex(s: seq<nat>, k: nat)
    requires AllAtLeast(s, k)
    ensures forall i :: 0 <= i < |s| ==> s[i] >= k
  {
    if |s| > 0 {
      AllAtLeastIndex(s[1..], k);
    }
  }

  lemma SurahAyahMaxRow0()
    ensures Sum(SurahAyahMaxRows[0]) == 1707 && AllAtLeast(SurahAyahMaxRows[0], 3)
  {
  }

  lemma SurahAyahMaxRow1()
    ensures Sum(SurahAyahMaxRows[1]) == 1148 && AllAtLeast(SurahAyahMaxRows[1], 3)
  {
  }

  lemma SurahAyahMaxRow2()
    ensures Sum(SurahAyahMaxRows[2]) == 933 && AllAtLeast(SurahAyahMaxRows[2], 3)
  {
  }

  lemma SurahAyahMaxRow3()
    ensures Sum(SurahAyahMaxRows[3]) == 824 && AllAtLeast(SurahAyahMaxRows[3], 3)
  {
  }

  lemma SurahAyahMaxRow4()
    ensures Sum(SurahAyahMaxRows[4]) == 551 && AllAtLeast(SurahAyahMaxRows[4], 3)
  {
  }

  lemma SurahAyahMaxRow5()
    ensures Sum(SurahAyahMaxRows[5]) == 312 && AllAtLeast(SurahAyahMaxRows[5], 3)
  {
  }

  lemma SurahAyahMaxRow6()
    ensures Sum(SurahAyahMaxRows[6]) == 434 && AllAtLeast(SurahAyahMaxRows[6], 3)
  {
  }

  lemma SurahAyahMaxRow7()
    ensures Sum(SurahAyahMaxRows[7]) == 216 && AllAtLeast(SurahAyahMaxRows[7], 3)
  {
  }

  lemma SurahAyahMaxRow8()
    ensures Sum(SurahAyahMaxRows[8]) == 82 && AllAtLeast(SurahAyahMaxRows[8], 3)
  {
  }

  lemma SurahAyahMaxRow9()
    ensures Sum(SurahAyahMaxRows[9]) == 29 && AllAtLeast(SurahAyahMaxRows[9], 3)
  {
  }

  /** The table counts 6236 verses, the number of verses of the Quran. */
  lemma SurahAyahMaxTotal()
    ensures Sum(SurahAyahMax) == 6236
  {
    var r := SurahAyahMaxRows;
    SurahAyahMaxRow0();
    SurahAyahMaxRow1();
    SurahAyahMaxRow2();
    SurahAyahMaxRow3();
    SurahAyahMaxRow4();
    SurahAyahMaxRow5();
    SurahAyahMaxRow6();
    SurahAyahMaxRow7();
    SurahAyahMaxRow8();
    SurahAyahMaxRow9();
    SumAppend(r[0], r[1]);
    SumAppend(r[0] + r[1], r[2]);
    SumAppend(r[0] + r[1] + r[2], r[3]);
    SumAppend(r[0] + r[1] + r[2] + r[3], r[4]);
    SumAppend(r[0] + r[1] + r[2] + r[3] + r[4], r[5]);
    SumAppend(r[0] + r[1] + r[2] + r[3] + r[4] + r[5], r[6]);
    SumAppend(r[0] + r[1] + r[2] + r[3] + r[4] + r[5] + r[6], r[7]);
    SumAppend(r[0] + r[1] + r[2] + r[3] + r[4] + r[5] + r[6] + r[7], r[8]);
    SumAppend(r[0] + r[1] + r[2] + r[3] + r[4] + r[5] + r[6] + r[7] + r[8], r[9]);
  }

  /** Every surah of the table has at least three verses. */
  lemma SurahAyahMaxAtLeast3()
    ensures AllAtLeast(SurahAyahMax, 3)
  {
    var r := SurahAyahMaxRows;
    SurahAyahMaxFirstRows();
    SurahAyahMaxRow5();
    SurahAyahMaxRow6();
    SurahAyahMaxRow7();
    SurahAyahMaxRow8();
    SurahAyahMaxRow9();
    AllAtLeastAppend(r[0] + r[1] + r[2] + r[3] + r[4], r[5], 3);
    AllAtLeastAppend(r[0] + r[1] + r[2] + r[3] + r[4] + r[5], r[6], 3);
    AllAtLeastAppend(r[0] + r[1] + r[2] + r[3] + r[4] + r[5] + r[6], r[7], 3);
    AllAtLeastAppend(r[0] + r[1] + r[2] + r[3] + r[4] + r[5] + r[6] + r[7], r[8], 3);
    AllAtLeastAppend(r[0] + r[1] + r[2] + r[3] + r[4] + r[5] + r[6] + r[7] + r[8], r[9], 3);
  }

  /** The first five rows of the table have at least three verses per surah. */
  lemma SurahAyahMaxFirstRows()
    ensures var r := SurahAyahMaxRows; AllAtLeast(r[0] + r[1] + r[2] + r[3] + r[4], 3)
  {
    var r := SurahAyahMaxRows;
    SurahAyahMaxRow0();
    SurahAyahMaxRow1();
    SurahAyahMaxRow2();
    SurahAyahMaxRow3();
    SurahAyahMaxRow4();
    AllAtLeastAppend(r[0], r[1], 3);
    AllAtLeastAppend(r[0] + r[1], r[2], 3);
    AllAtLeastAppend(r[0] + r[1] + r[2], r[3], 3);
    AllAtLeastAppend(r[0] + r[1] + r[2] + r[3], r[4], 3);
  }

  lemma SurahAyahMaxShape()
    ensures |SurahAyahMax| == 114
    ensures forall i :: 0 <= i < 114 ==> SurahAyahMax[i] >= 3
  {
    SurahAyahMaxAtLeast3();
    AllAtLeastIndex(SurahAyahMax, 3);
  }

  /** The `i`-th element, found by walking the sequence. */
  function Nth(s: seq<nat>, i: nat): nat
    requires i < |s|
  {
    if i == 0 then s[0] else Nth(s[1..], i - 1)
  }

  lemma {:induction false} NthIndex(s: seq<nat>, i: nat)
    requires i < |s|
    ensures Nth(s, i) == s[i]
  {
    if i > 0 {
      NthIndex(s[1..], i - 1);
    }
  }

  /** `SURAH_AYAH_MAX.get(surah)`: the surah's verse count, absent outside 1..114. */
  function MaxAyah(surah: int): (r: Option<nat>)
    ensures r.Some? <==> 1 <= surah <= 114
    ensures r.Some? ==> r.value >= 3
  {
    if 1 <= surah <= 114 then
      SurahAyahMaxShape();
      NthIndex(SurahAyahMax, surah - 1);
      Some(Nth(SurahAyahMax, surah - 1))
    else None
  }

  // ---------------------------------------------------------------------
  // Rows and merge_rows
  // ---------------------------------------------------------------------

  /** A record as `build_records` writes it. A post id that is not an integer cannot
      arise from an export, so an id is an integer or absent. */
  datatype SyncRow = SyncRow(
    surahNumber: int, surahName: string, juzNumber: int, ayahNumber: int,
    arabicText: string, translation: string, tafseer: string, sourcePostId: Option<int>)

  /** The key `f"{surah}|{ayah}"` of the records map, as a pair. */
  function RowKey(r: SyncRow): (int, int) { (r.surahNumber, r.ayahNumber) }

  /** A row whose verse exists, whose juz is the verse's juz and whose surah name is set. */
  predicate RowOk(r: SyncRow) {
    MaxAyah(r.surahNumber).Some? && 1 <= r.ayahNumber <= MaxAyah(r.surahNumber).value &&
    r.juzNumber == Juz.GetJuz(r.surahNumber, r.ayahNumber) && r.surahName != ""
  }

  /** Both ids are present and print alike, which for integers means they are equal. */
  predicate SameSource(a: Option<int>, b: Option<int>) {
    a.Some? && b.Some? && a.value == b.value
  }

  /** `record_quality(row)`: two points for a verse text, two for a translation and one
      for a commentary, each counted when it is not blank. `build_records` never calls it. */
  function RecordQuality(row: SyncRow): (score: nat)
    ensures score <= 5
    ensures score == 5 <==> PyStrip(row.arabicText) != "" && PyStrip(row.translation) != "" && PyStrip(row.tafseer) != ""
    ensures score == 0 <==> PyStrip(row.arabicText) == "" && PyStrip(row.translation) == "" && PyStrip(row.tafseer) == ""
    ensures score % 2 == 1 <==> PyStrip(row.tafseer) != ""
  {
    (if PyStrip(row.arabicText) != "" then 2 else 0) + (if PyStrip(row.translation) != "" then 2 else 0) +
    (if PyStrip(row.tafseer) != "" then 1 else 0)
  }

  /** A row whose texts are blank wherever the other's are never scores higher. */
  lemma RecordQualityMonotone(a: SyncRow, b: SyncRow)
    requires PyStrip(b.arabicText) != "" ==> PyStrip(a.arabicText) != ""
    requires PyStrip(b.translation) != "" ==> PyStrip(a.translation) != ""
    requires PyStrip(b.tafseer) != "" ==> PyStrip(a.tafseer) != ""
    ensures RecordQuality(b) <= RecordQuality(a)
  {
  }

  /** Python truthiness of an id: absent and `0` are false. */
  predicate TruthyId(a: Option<int>) { a.Some? && a.value != 0 }

  /** `merge_rows(existing, candidate)`. The existing row's key, surah name and juz win
      (when set); the verse text and the translation are the richer of the two; a
      re-parse of the same post keeps one commentary, while commentaries of two posts
      are joined, the earlier post first; the id is the smaller of two ids and otherwise
      the first truthy one. */
  function MergeRows(rules: FlowRules, existing: SyncRow, candidate: SyncRow): (r: SyncRow)
    ensures RowKey(r) == RowKey(existing)
    ensures existing.surahName != "" ==> r.surahName == existing.surahName
    ensures existing.juzNumber != 0 ==> r.juzNumber == existing.juzNumber
    ensures RowOk(existing) ==> RowOk(r)
    ensures r.arabicText == CleanText(existing.arabicText) || r.arabicText == CleanText(candidate.arabicText)
    ensures r.translation == CleanText(existing.translation) || r.translation == CleanText(candidate.translation)
    ensures SameSource(existing.sourcePostId, candidate.sourcePostId) ==>
      r.tafseer == NormalizeTafseerFlow(rules, existing.tafseer) ||
      r.tafseer == NormalizeTafseerFlow(rules, candidate.tafseer)
    ensures existing.sourcePostId.Some? && candidate.sourcePostId.Some? ==>
      (r.sourcePostId == existing.sourcePostId || r.sourcePostId == candidate.sourcePostId) &&
      r.sourcePostId.value <= existing.sourcePostId.value &&
      r.sourcePostId.value <= candidate.sourcePostId.value
    ensures existing.sourcePostId.None? ==> r.sourcePostId == candidate.sourcePostId
    ensures candidate.sourcePostId.None? ==> r.sourcePostId == (if TruthyId(existing.sourcePostId) then existing.sourcePostId else None)
  {
    var e, c := existing.sourcePostId, candidate.sourcePostId;
    var tafseer :=
      if SameSource(e, c) then AppendUniqueTafseer(rules, existing.tafseer, candidate.tafseer, true)
      else if e.Some? && c.Some? && c.value < e.value then AppendUniqueTafseer(rules, candidate.tafseer, existing.tafseer, false)
      else AppendUniqueTafseer(rules, existing.tafseer, candidate.tafseer, false);
    var id :=
      if e.Some? && c.Some? then Some(if c.value < e.value then c.value else e.value)
      else if TruthyId(e) then e else c;
    existing.(
      surahName := if existing.surahName != "" then existing.surahName else candidate.surahName,
      juzNumber := if existing.juzNumber != 0 then existing.juzNumber else candidate.juzNumber,
      arabicText := PickRicherText(existing.arabicText, candidate.arabicText),
      translation := PickRicherText(existing.translation, candidate.translation),
      tafseer := tafseer,
      sourcePostId := id)
  }

  /** The row of two with the earlier (smaller) post id. */
  function Earliest(a: SyncRow, b: SyncRow): SyncRow
    requires a.sourcePostId.Some? && b.sourcePostId.Some?
  {
    if b.sourcePostId.value < a.sourcePostId.value then b else a
  }

  /** Commentaries of two different posts are appended in post order, whichever row was
      stored first. */
  lemma MergeRowsChronological(rules: FlowRules, existing: SyncRow, candidate: SyncRow)
    requires existing.sourcePostId.Some? && candidate.sourcePostId.Some?
    requires existing.sourcePostId != candidate.sourcePostId
    ensures var first := Earliest(existing, candidate);
      var second := if first == existing then candidate else existing;
      MergeRows(rules, existing, candidate).tafseer ==
        AppendUniqueTafseer(rules, first.tafseer, second.tafseer, false)
  {
  }

  /** For rows of two different posts the merged commentary and id do not depend on
      which row was stored first. */
  lemma MergeRowsOrderFree(rules: FlowRules, a: SyncRow, b: SyncRow)
    requires a.sourcePostId.Some? && b.sourcePostId.Some? && a.sourcePostId != b.sourcePostId
    ensures MergeRows(rules, a, b).tafseer == MergeRows(rules, b, a).tafseer
    ensures MergeRows(rules, a, b).sourcePostId == MergeRows(rules, b, a).sourcePostId
  {
  }

  /** Merging rows of two different posts whose commentaries neither contains the other
      keeps every kept line of both commentaries, the earlier post's first. */
  lemma MergeRowsKeepsBoth(rules: FlowRules, existing: SyncRow, candidate: SyncRow)
    requires existing.sourcePostId.Some? && candidate.sourcePostId.Some?
    requires existing.sourcePostId != candidate.sourcePostId
    requires var first := Earliest(existing, candidate);
      var second := if first == existing then candidate else existing;
      var a, b := NormalizeTafseerFlow(rules, first.tafseer), NormalizeTafseerFlow(rules, second.tafseer);
      a != "" && b != "" && !Nested(a, b)
    ensures var first := Earliest(existing, candidate);
      var second := if first == existing then candidate else existing;
      var a, b := NormalizeTafseerFlow(rules, first.tafseer), NormalizeTafseerFlow(rules, second.tafseer);
      var r := MergeRows(rules, existing, candidate).tafseer;
      r == Join(Paragraphs(rules, a + "\n\n" + b), "\n\n") &&
      Join(Paragraphs(rules, a + "\n\n" + b), " ") ==
        Join(KeptLines(rules, Split(a, '\n')) + KeptLines(rules, Split(b, '\n')), " ")
  {
    var first := Earliest(existing, candidate);
    var second := if first == existing then candidate else existing;
    MergeRowsChronological(rules, existing, candidate);
    AppendUniqueKeepsBoth(rules, first.tafseer, second.tafseer);
  }

  // ---------------------------------------------------------------------
  // Verse numbers of a header
  // ---------------------------------------------------------------------

  /** `s.isdigit()` on the digit strings the headers capture. */
  predicate IsDigitText(s: string) { |s| > 0 && AllDigits(s) }

  /** The end of the range `N-M` that `build_records` accepts: `M` when it reads as a
      number with `N <= M <= max` and `M - N <= 10`. */
  function RangeEnd(last: Option<string>, start: nat, max: nat): (e: Option<nat>)
    ensures e.Some? ==> start <= e.value <= max && e.value - start <= 10
  {
    var t := NormalizeDigits(last);
    if IsDigitText(t) then
      var v := DigitsValue(t);
      if start <= v <= max && v - start <= 10 then Some(v) else None
    else None
  }

  /** The verses a header covers: the start, followed by the rest of an accepted range. */
  function AyahNumbers(start: nat, last: Option<string>, max: nat): (r: seq<nat>)
    ensures 1 <= |r| <= 11 && r[0] == start
    ensures forall i :: 0 <= i < |r| ==> r[i] == start + i
    ensures start <= max ==> forall i :: 0 <= i < |r| ==> r[i] <= max
  {
    match RangeEnd(last, start, max)
    case None => [start]
    case Some(e) => [start] + seq(e - start, (i: nat) => start + 1 + i)
  }

  /** A header `N-M` with `N <= M <= max` and `M - N <= 10` covers `N..M`; any other
      second number leaves the header at `N` alone. */
  lemma AyahNumbersRange(start: nat, d: string, max: nat)
    requires AllDigits(d) && |d| > 0
    ensures var m := DigitsValue(d);
      |AyahNumbers(start, Some(d), max)| ==
        if start <= m <= max && m - start <= 10 then m - start + 1 else 1
  {
    NormalizeDigitsValue(d);
  }

  /** A header without a second number covers one verse. */
  lemma AyahNumbersSingle(start: nat, max: nat)
    ensures AyahNumbers(start, None, max) == [start]
  {
  }

  // ---------------------------------------------------------------------
  // One verse block
  // ---------------------------------------------------------------------

  /** Where the section of header `idx` ends: at the next header's start, or at the end
      of the text. */
  function SectionEnd(text: string, hs: seq<Found<AyahGroups>>, idx: nat): nat {
    if idx + 1 < |hs| then hs[idx + 1].start else |text|
  }

  /** Every header of `hs` is a non-empty span of `text`. */
  predicate InText(text: string, hs: seq<Found<AyahGroups>>) {
    forall k :: 0 <= k < |hs| ==> hs[k].start < hs[k].end <= |text|
  }

  /** The verse headers of a text lie inside it. */
  lemma HeadersInText(text: string)
    ensures InText(text, HeaderMatches(text))
  {
    var hs := HeaderMatches(text);
    forall k | 0 <= k < |hs| ensures hs[k].start < hs[k].end <= |text| {
      assert hs[k] in hs;
      assert AyahAt(text, hs[k].start) == Some(hs[k]);
    }
  }

  /** The text between header `idx` of `hs` and the next header (or the end), cleaned;
      absent when that span is empty or cleans to nothing. */
  function Section(text: string, hs: seq<Found<AyahGroups>>, idx: nat): (r: Option<string>)
    requires idx < |hs| && InText(text, hs)
    ensures r.Some? ==> r.value != "" && IsCleanText(r.value)
  {
    var a, b := hs[idx].end, SectionEnd(text, hs, idx);
    if b <= a then None
    else
      var s := CleanText(text[a..b]);
      if s == "" then None else Some(s)
  }

  /** `re.sub(re.escape(x), "", t, count=1)` for each `x` in turn. */
  function RemoveEach(t: string, xs: seq<string>): string
    decreases |xs|
  {
    if |xs| == 0 then t else RemoveEach(ReplaceFirst(t, xs[0], ""), xs[1..])
  }

  /** The block's commentary: the section without the first Arabic lines and the first
      translation spans, one of each per verse at most, re-flowed. */
  function BlockTafseer(rules: FlowRules, section: string, arabic: seq<string>, spans: seq<string>, verses: nat): (r: string)
    ensures IsCleanText(r)
  {
    NormalizeTafseerFlow(rules, RemoveEach(RemoveEach(section, Take(arabic, verses)), Take(spans, verses)))
  }

  /** The surah name a row carries: `current_name or f"Surah {current_surah}"`. */
  function RowName(surah: int, name: string): (r: string)
    ensures r != ""
    ensures name != "" ==> r == name
  {
    if name != "" then name else "Surah " + IntToString(surah)
  }

  /** A candidate row of a verse block: valid, of the given surah, name and post, with
      the block's commentary, an Arabic verse line or none, and a clean translation or
      none. */
  predicate BlockRow(x: SyncRow, surah: int, name: string, id: Option<int>, tafseer: string) {
    RowOk(x) && x.surahNumber == surah && x.sourcePostId == id && x.tafseer == tafseer &&
    (x.arabicText == "" || IsArabicVerseLine(x.arabicText)) &&
    (x.translation == "" || IsCleanText(x.translation)) &&
    (name != "" ==> x.surahName == name)
  }

  /** Rows of one header block: valid rows of the surah and post sharing one clean
      commentary. */
  predicate BlockOfRows(r: seq<SyncRow>, surah: int, name: string, id: Option<int>) {
    r != [] ==> IsCleanText(r[0].tafseer) && forall x :: x in r ==> BlockRow(x, surah, name, id, r[0].tafseer)
  }

  /** Rows of consecutive verses. */
  predicate Consecutive(r: seq<SyncRow>) {
    forall i :: 0 <= i < |r| ==> r[i].ayahNumber == r[0].ayahNumber + i
  }

  /** The rows are for verses `numbers`, in order. */
  predicate Numbered(r: seq<SyncRow>, numbers: seq<nat>) {
    |r| == |numbers| && forall i :: 0 <= i < |r| ==> r[i].ayahNumber == numbers[i]
  }

  /** Rows for consecutive verse numbers are rows of consecutive verses. */
  lemma NumberedConsecutive(r: seq<SyncRow>, numbers: seq<nat>)
    requires Numbered(r, numbers)
    requires forall i :: 0 <= i < |numbers| ==> numbers[i] == numbers[0] + i
    ensures Consecutive(r)
  {
  }

  /** The `i`-th of `xs`, or the empty string past its end. */
  function LineAt(xs: seq<string>, i: nat): (r: string)
    ensures r == "" || r in xs
  {
    if i < |xs| then xs[i] else ""
  }

  /** The candidate row of one verse of a block. */
  function VerseRow(surah: int, name: string, number: nat, arabic: string, translation: string,
                    tafseer: string, id: Option<int>): (x: SyncRow)
    ensures x.ayahNumber == number
    ensures MaxAyah(surah).Some? && 1 <= number <= MaxAyah(surah).value &&
            (arabic == "" || IsArabicVerseLine(arabic)) && (translation == "" || IsCleanText(translation)) ==>
            BlockRow(x, surah, name, id, tafseer)
  {
    SyncRow(surah, RowName(surah, name), Juz.GetJuz(surah, number), number, arabic, translation, tafseer, id)
  }

  /** One row per verse number; the `i`-th takes the `i`-th Arabic line and translation
      when there are that many. */
  function RowsFor(surah: int, name: string, numbers: seq<nat>, arabic: seq<string>, translations: seq<string>,
                   tafseer: string, id: Option<int>): (r: seq<SyncRow>)
    requires MaxAyah(surah).Some?
    requires forall i :: 0 <= i < |numbers| ==> 1 <= numbers[i] <= MaxAyah(surah).value
    requires forall x :: x in arabic ==> IsArabicVerseLine(x)
    requires forall x :: x in translations ==> IsCleanText(x)
    ensures Numbered(r, numbers)
    ensures forall i :: 0 <= i < |r| ==> BlockRow(r[i], surah, name, id, tafseer)
  {
    var r := seq(|numbers|, (i: nat) requires i < |numbers| =>
      VerseRow(surah, name, numbers[i], LineAt(arabic, i), LineAt(translations, i), tafseer, id));
    RowsForRows(surah, name, numbers, arabic, translations, tafseer, id, r);
    r
  }

  lemma RowsForRows(surah: int, name: string, numbers: seq<nat>, arabic: seq<string>, translations: seq<string>,
                    tafseer: string, id: Option<int>, r: seq<SyncRow>)
    requires MaxAyah(surah).Some?
    requires forall i :: 0 <= i < |numbers| ==> 1 <= numbers[i] <= MaxAyah(surah).value
    requires forall x :: x in arabic ==> IsArabicVerseLine(x)
    requires forall x :: x in translations ==> IsCleanText(x)
    requires |r| == |numbers|
    requires forall i :: 0 <= i < |r| ==>
      r[i] == VerseRow(surah, name, numbers[i], LineAt(arabic, i), LineAt(translations, i), tafseer, id)
    ensures Numbered(r, numbers)
    ensures forall i :: 0 <= i < |r| ==> BlockRow(r[i], surah, name, id, tafseer)
  {
  }

  /** The rows of a non-empty section for the given verses: the section's Arabic verse
      lines, its translations when it has Arabic lines, and what remains of it as the
      shared commentary. */
  function SectionRows(rules: FlowRules, section: string, surah: int, name: string, id: Option<int>, numbers: seq<nat>): (r: seq<SyncRow>)
    requires MaxAyah(surah).Some?
    requires forall i :: 0 <= i < |numbers| ==> 1 <= numbers[i] <= MaxAyah(surah).value
    ensures Numbered(r, numbers)
    ensures BlockOfRows(r, surah, name, id)
  {
    var arabic := ExtractArabicLines(section);
    var tr := if |arabic| > 0 then ExtractTranslations(section) else ([], []);
    TranslationsClean(section);
    var tafseer := BlockTafseer(rules, section, arabic, tr.1, |numbers|);
    RowsFor(surah, name, numbers, arabic, tr.0, tafseer, id)
  }

  /** Every translation found in a section is clean text. */
  lemma TranslationsClean(section: string)
    ensures forall x :: x in ExtractTranslations(section).0 ==> IsCleanText(x)
  {
    var tr := ExtractTranslations(section);
    forall x | x in tr.0 ensures IsCleanText(x) {
      var i :| 0 <= i < |tr.0| && tr.0[i] == x;
    }
  }

  /** `int(normalize_digits(match.group(1)))` when the folded digits pass `isdigit()`. */
  function HeaderStart(h: Found<AyahGroups>): Option<nat> {
    var st := NormalizeDigits(Some(h.groups.first));
    if IsDigitText(st) then Some(DigitsValue(st)) else None
  }

  /** The verses header `h` covers in the surah: none when the surah has no verse count
      or the start is not one of its verses; otherwise the start and the rest of an
      accepted range. */
  function BlockVerses(h: Found<AyahGroups>, surah: int): (v: Option<seq<nat>>)
    ensures v.Some? ==> MaxAyah(surah).Some? && 1 <= |v.value| <= 11
    ensures v.Some? ==> forall i :: 0 <= i < |v.value| ==> v.value[i] == v.value[0] + i && v.value[i] <= MaxAyah(surah).value
  {
    match MaxAyah(surah)
    case None => None
    case Some(max) =>
      match HeaderStart(h)
      case None => None
      case Some(start) =>
        if 1 <= start <= max then Some(AyahNumbers(start, h.groups.last, max)) else None
  }

  /** A header covers verses exactly when its start is a verse of the surah, and they
      begin at that start. */
  lemma BlockVersesStart(h: Found<AyahGroups>, surah: int)
    ensures var v := BlockVerses(h, surah);
      && (v.Some? <==> (MaxAyah(surah).Some? && HeaderStart(h).Some? &&
                        1 <= HeaderStart(h).value <= MaxAyah(surah).value))
      && (v.Some? ==> v.value[0] == HeaderStart(h).value)
  {
  }

  /** The candidate rows of header `idx` of a message's headers `hs`: none when its start is not a verse
      of the surah or its section is empty. */
  function BlockRows(rules: FlowRules, text: string, hs: seq<Found<AyahGroups>>, idx: nat,
                     surah: int, name: string, id: Option<int>): seq<SyncRow>
    requires idx < |hs| && InText(text, hs)
  {
    match BlockVerses(hs[idx], surah)
    case None => []
    case Some(numbers) => NumberedRows(rules, text, hs, idx, surah, name, id, numbers)
  }

  /** The rows of a header are consecutive verses, at most eleven, each valid, of the
      current surah and post, all sharing one clean commentary, each with an Arabic verse
      line (or none) and a clean translation (or none). */
  lemma BlockRowsShape(rules: FlowRules, text: string, hs: seq<Found<AyahGroups>>, idx: nat,
                     surah: int, name: string, id: Option<int>)
    requires idx < |hs| && InText(text, hs)
    ensures var r := BlockRows(rules, text, hs, idx, surah, name, id);
      |r| <= 11 && Consecutive(r) && BlockOfRows(r, surah, name, id)
  {
    match BlockVerses(hs[idx], surah)
    case None =>
    case Some(numbers) =>
      var r := NumberedRows(rules, text, hs, idx, surah, name, id, numbers);
      assert BlockRows(rules, text, hs, idx, surah, name, id) == r;
      NumberedShape(r, numbers);
  }

  /** Rows that are none, or one for each of at most eleven consecutive verses, are at
      most eleven consecutive rows. */
  lemma NumberedShape(r: seq<SyncRow>, numbers: seq<nat>)
    requires r == [] || Numbered(r, numbers)
    requires |numbers| <= 11 && forall i :: 0 <= i < |numbers| ==> numbers[i] == numbers[0] + i
    ensures |r| <= 11 && Consecutive(r)
  {
    if r != [] {
      NumberedConsecutive(r, numbers);
    }
  }

  /** The rows of header `idx` for verses `numbers`: none when its section is empty. */
  function NumberedRows(rules: FlowRules, text: string, hs: seq<Found<AyahGroups>>, idx: nat,
                        surah: int, name: string, id: Option<int>, numbers: seq<nat>): (r: seq<SyncRow>)
    requires idx < |hs| && InText(text, hs)
    requires MaxAyah(surah).Some?
    requires forall i :: 0 <= i < |numbers| ==> 1 <= numbers[i] <= MaxAyah(surah).value
    ensures r == [] || Numbered(r, numbers)
    ensures BlockOfRows(r, surah, name, id)
  {
    match Section(text, hs, idx)
    case None => []
    case Some(section) => SectionRows(rules, section, surah, name, id, numbers)
  }

  /** A header yields rows exactly when its start verse is a verse of the surah and its
      section is not empty, and then the rows begin at that verse. */
  lemma BlockRowsStart(rules: FlowRules, text: string, hs: seq<Found<AyahGroups>>, idx: nat,
                     surah: int, name: string, id: Option<int>)
    requires idx < |hs| && InText(text, hs)
    ensures var r := BlockRows(rules, text, hs, idx, surah, name, id);
      (r != [] <==> (MaxAyah(surah).Some? && HeaderStart(hs[idx]).Some? &&
        1 <= HeaderStart(hs[idx]).value <= MaxAyah(surah).value && Section(text, hs, idx).Some?)) &&
      (r != [] ==> r[0].ayahNumber == HeaderStart(hs[idx]).value)
  {
    BlockVersesStart(hs[idx], surah);
  }

  /** The rows of the headers of a message from header `from` on, block after block. */
  function MessageRows(rules: FlowRules, text: string, hs: seq<Found<AyahGroups>>,
                       surah: int, name: string, id: Option<int>, from: nat): (r: seq<SyncRow>)
    requires from <= |hs| && InText(text, hs)
    ensures forall x :: x in r ==> RowOk(x) && x.surahNumber == surah && x.sourcePostId == id
    decreases |hs| - from
  {
    if from == |hs| then []
    else
      var b := BlockRows(rules, text, hs, from, surah, name, id);
      BlockRowsShape(rules, text, hs, from, surah, name, id);
      assert forall x :: x in b ==> RowOk(x) && x.surahNumber == surah && x.sourcePostId == id;
      b + MessageRows(rules, text, hs, surah, name, id, from + 1)
  }

  // ---------------------------------------------------------------------
  // The message scan
  // ---------------------------------------------------------------------

  /** The surah number of an `RX_SURAH` match: its digits, folded, when they pass
      `isdigit()` and name a surah 1..114. */
  function HeaderSurah(g: SurahGroups): (n: Option<nat>)
    ensures n.Some? ==> 1 <= n.value <= 114
  {
    var t := NormalizeDigits(Some(g.number));
    if IsDigitText(t) && 1 <= DigitsValue(t) <= 114 then Some(DigitsValue(t)) else None
  }

  /** What a message does to the current surah and name. A surah header with a number in
      1..114 sets both, the name canonicalised; a surah header with any other number
      changes nothing; a message with no surah header that mentions al-Baqarah sets
      surah 2 when no surah is current yet. */
  function SurahUpdate(text: string, surah: Option<int>, name: string): (r: (Option<int>, string))
    ensures r == (surah, name) || (r.0.Some? && 1 <= r.0.value <= 114 && r.1 != "")
    ensures SurahSearch(text).Some? && HeaderSurah(SurahSearch(text).value).Some? ==>
      var n := HeaderSurah(SurahSearch(text).value).value;
      r == (Some(n as int), CanonicalSurahName(SurahSearch(text).value.name, n))
    ensures SurahSearch(text).Some? && HeaderSurah(SurahSearch(text).value).None? ==> r == (surah, name)
    ensures SurahSearch(text).None? && surah.Some? ==> r == (surah, name)
    ensures SurahSearch(text).None? && surah.None? ==>
      r == if MentionsBaqarah(text) then (Some(2), "Al-Baqarah") else (surah, name)
  {
    match SurahSearch(text)
    case Some(g) =>
      (match HeaderSurah(g)
       case Some(n) => (Some(n as int), CanonicalSurahName(g.name, n))
       case None => (surah, name))
    case None =>
      if surah.None? && MentionsBaqarah(text) then (Some(2), "Al-Baqarah") else (surah, name)
  }

  /** The loop state of `build_records`: the current surah and name, the two counters and
      the candidate rows so far, in the order they reach the records map. */
  datatype ScanState = ScanState(surah: Option<int>, name: string, scanned: nat, blocks: nat, candidates: seq<SyncRow>)

  const Initial := ScanState(None, "", 0, 0, [])

  /** A current surah is one of 1..114 and has a name; every candidate is valid; no more
      messages had verse blocks than were scanned. */
  predicate ScanOk(st: ScanState) {
    (st.surah.Some? ==> 1 <= st.surah.value <= 114 && st.name != "") &&
    (forall x :: x in st.candidates ==> RowOk(x)) &&
    st.blocks <= st.scanned
  }

  predicate IsChatMessage(m: Message) { m.isMessage }

  /** The loop body for a counted message with non-empty text. */
  function ScanText(rules: FlowRules, st: ScanState, text: string, id: Option<int>): (r: ScanState)
    ensures r.scanned == st.scanned + 1
    ensures r.blocks == st.blocks || r.blocks == st.blocks + 1
    ensures |st.candidates| <= |r.candidates| && r.candidates[..|st.candidates|] == st.candidates
    ensures forall i :: |st.candidates| <= i < |r.candidates| ==> r.candidates[i].sourcePostId == id
    ensures ScanOk(st) ==> ScanOk(r)
  {
    var (surah, name) := SurahUpdate(text, st.surah, st.name);
    HeadersInText(text);
    ScanHeaders(rules, st.(scanned := st.scanned + 1, surah := surah, name := name), text, HeaderMatches(text), id)
  }

  /** The rest of the loop body once the current surah is settled: a message with a
      current surah and at least one verse header among `hs` counts as a message with
      blocks and adds the rows of its headers. */
  function ScanHeaders(rules: FlowRules, st: ScanState, text: string, hs: seq<Found<AyahGroups>>, id: Option<int>): (r: ScanState)
    requires InText(text, hs)
    ensures r.scanned == st.scanned && r.surah == st.surah && r.name == st.name
    ensures r.blocks == st.blocks || r.blocks == st.blocks + 1
    ensures |st.candidates| <= |r.candidates| && r.candidates[..|st.candidates|] == st.candidates
    ensures forall i :: |st.candidates| <= i < |r.candidates| ==> r.candidates[i].sourcePostId == id
    ensures ScanOk(st) && st.blocks < st.scanned ==> ScanOk(r)
  {
    if st.surah.None? || st.surah.value == 0 || |hs| == 0 then st
    else
      var rows := MessageRows(rules, text, hs, st.surah.value, st.name, id, 0);
      assert (st.candidates + rows)[..|st.candidates|] == st.candidates;
      assert forall i :: |st.candidates| <= i < |st.candidates + rows| ==> (st.candidates + rows)[i] in rows;
      st.(blocks := st.blocks + 1, candidates := st.candidates + rows)
  }

  /** One pass of the message loop. Entries that are not messages are skipped; a message
      is counted, and when its text is not empty it may change the current surah; with a
      current surah and at least one valid verse header it counts as a message with
      blocks and adds the rows of its headers, with the message id. */
  function ScanMessage(rules: FlowRules, st: ScanState, msg: Message): (r: ScanState)
    ensures r.scanned == st.scanned + (if msg.isMessage then 1 else 0)
    ensures r.blocks == st.blocks || (msg.isMessage && r.blocks == st.blocks + 1)
    ensures |st.candidates| <= |r.candidates| && r.candidates[..|st.candidates|] == st.candidates
    ensures forall i :: |st.candidates| <= i < |r.candidates| ==> r.candidates[i].sourcePostId == msg.id
    ensures ScanOk(st) ==> ScanOk(r)
  {
    if !msg.isMessage then st
    else
      var raw := FlattenText(msg.text);
      if raw == "" then st.(scanned := st.scanned + 1)
      else ScanText(rules, st, UnifyLineEnds(raw), msg.id)
  }

  /** The message loop over the export, in order. */
  function Scan(rules: FlowRules, msgs: seq<Message>): (st: ScanState)
    ensures ScanOk(st)
  {
    if |msgs| == 0 then Initial
    else ScanMessage(rules, Scan(rules, msgs[..|msgs| - 1]), msgs[|msgs| - 1])
  }

  /** `messages_scanned` counts the entries of type `message`, and no more messages had
      verse blocks than that. */
  lemma {:induction false} ScanCounts(rules: FlowRules, msgs: seq<Message>)
    ensures Scan(rules, msgs).scanned == Count(msgs, IsChatMessage)
    ensures Scan(rules, msgs).blocks <= Scan(rules, msgs).scanned
  {
    if |msgs| > 0 {
      var n := |msgs| - 1;
      ScanCounts(rules, msgs[..n]);
      CountAppend(msgs[..n], [msgs[n]], IsChatMessage);
      assert msgs == msgs[..n] + [msgs[n]];
    }
  }

  // ---------------------------------------------------------------------
  // The records
  // ---------------------------------------------------------------------

  /** `merge_rows` as the combine step of the records map. */
  function Merger(rules: FlowRules): (SyncRow, SyncRow) -> SyncRow {
    (e: SyncRow, c: SyncRow) => MergeRows(rules, e, c)
  }

  /** The candidates of the whole export, in the order they reach the records map. */
  function Candidates(rules: FlowRules, msgs: seq<Message>): seq<SyncRow> {
    Scan(rules, msgs).candidates
  }

  /** The sort key `(surah, ayah, source_post_id or 0)`. */
  function SortKey(r: SyncRow): (k: seq<int>)
    ensures |k| == 3 && k[0] == r.surahNumber && k[1] == r.ayahNumber
  {
    [r.surahNumber, r.ayahNumber, if r.sourcePostId.Some? then r.sourcePostId.value else 0]
  }

  function CompareRows(a: SyncRow, b: SyncRow): int {
    Lex(SortKey(a), SortKey(b))
  }

  /** The records map over candidates `cs`: every verse key with the merge of its
      candidates, keys in order of first appearance. */
  function MergeByVerse(rules: FlowRules, cs: seq<SyncRow>): seq<((int, int), SyncRow)> {
    FoldByKey(cs, RowKey, Merger(rules))
  }

  /** The records map's rows sorted by `(surah, ayah, source_post_id or 0)`. */
  function SortedRecords(rules: FlowRules, cs: seq<SyncRow>): seq<SyncRow> {
    SortBy(Values(MergeByVerse(rules, cs)), CompareRows)
  }

  /** Merging a valid row with a candidate of its key gives a valid row of that key. */
  lemma MergerKeeps(rules: FlowRules, cs: seq<SyncRow>)
    ensures forall p, t :: t in cs && RowOk(p) && RowKey(p) == RowKey(t) ==>
      RowOk(Merger(rules)(p, t)) && RowKey(Merger(rules)(p, t)) == RowKey(t)
  {
    forall p, t | t in cs && RowOk(p) && RowKey(p) == RowKey(t)
      ensures RowOk(Merger(rules)(p, t)) && RowKey(Merger(rules)(p, t)) == RowKey(t)
    {
      assert Merger(rules)(p, t) == MergeRows(rules, p, t);
    }
  }

  /** Each entry of the records map of valid candidates is valid, carries its key, and is
      the merge, in candidate order, of the candidates of its key. */
  lemma MergeByVerseEntry(rules: FlowRules, cs: seq<SyncRow>, i: nat)
    requires forall x :: x in cs ==> RowOk(x)
    requires i < |MergeByVerse(rules, cs)|
    ensures var m := MergeByVerse(rules, cs);
      var s := WithKey(cs, RowKey, m[i].0);
      |s| > 0 && m[i].1 == ReduceLeft(Merger(rules), s) && RowKey(m[i].1) == m[i].0 && RowOk(m[i].1)
  {
    MergerKeeps(rules, cs);
    assert forall j :: 0 <= j < |cs| ==> RowOk(cs[j]) by {
      assert forall j :: 0 <= j < |cs| ==> cs[j] in cs;
    }
    FoldByKeyEntry(cs, RowKey, Merger(rules), RowOk, i);
  }

  /** The records map of valid candidates holds at most one entry per candidate, each
      valid, one per verse. */
  lemma MergeByVerseValues(rules: FlowRules, cs: seq<SyncRow>)
    requires forall x :: x in cs ==> RowOk(x)
    ensures var vs := Values(MergeByVerse(rules, cs));
      && |vs| <= |cs|
      && (forall i :: 0 <= i < |vs| ==> RowOk(vs[i]))
      && DistinctBy(vs, RowKey)
  {
    var m := MergeByVerse(rules, cs);
    var vs := Values(m);
    FoldByKeyUnique(cs, RowKey, Merger(rules));
    assert forall i :: 0 <= i < |vs| ==> RowOk(vs[i]) && RowKey(vs[i]) == m[i].0 by {
      forall i | 0 <= i < |vs| ensures RowOk(vs[i]) && RowKey(vs[i]) == m[i].0 {
        MergeByVerseEntry(rules, cs, i);
      }
    }
  }

  /** `CompareRows` compares rows by their sort keys. */
  lemma CompareRowsByKey(s: seq<SyncRow>)
    ensures ComparesKeys(s, CompareRows, SortKey, 3)
  {
  }

  /** The sorted records of valid candidates: at most one per candidate, each valid, one
      per (surah, verse), in (surah, verse, post id) order. */
  lemma SortedRecordsShape(rules: FlowRules, cs: seq<SyncRow>)
    requires forall x :: x in cs ==> RowOk(x)
    ensures var rows := SortedRecords(rules, cs);
      && |rows| <= |cs|
      && (forall x :: x in rows ==> RowOk(x))
      && DistinctBy(rows, RowKey)
      && SortedByKey(rows, SortKey)
  {
    var vs := Values(MergeByVerse(rules, cs));
    MergeByVerseValues(rules, cs);
    CompareRowsByKey(vs);
    SortByDistinct(vs, CompareRows, RowKey);
    SortBySorted(vs, CompareRows, SortKey, 3);
    var rows := SortBy(vs, CompareRows);
    forall x | x in rows ensures RowOk(x) {
      assert x in multiset(vs);
    }
  }

  /** Every sorted record is the merge, in candidate order, of the candidates of its
      verse. */
  lemma SortedRecordsMerged(rules: FlowRules, cs: seq<SyncRow>, x: SyncRow)
    requires forall y :: y in cs ==> RowOk(y)
    requires x in SortedRecords(rules, cs)
    ensures var s := WithKey(cs, RowKey, RowKey(x));
      |s| > 0 && x == ReduceLeft(Merger(rules), s)
  {
    var m := MergeByVerse(rules, cs);
    assert x in multiset(Values(m));
    var i :| 0 <= i < |m| && m[i].1 == x;
    MergeByVerseEntry(rules, cs, i);
  }

  /** No candidate is lost: every candidate's verse has a sorted record. */
  lemma SortedRecordsCover(rules: FlowRules, cs: seq<SyncRow>, c: SyncRow)
    requires forall y :: y in cs ==> RowOk(y)
    requires c in cs
    ensures exists x :: x in SortedRecords(rules, cs) && RowKey(x) == RowKey(c)
  {
    var m := MergeByVerse(rules, cs);
    FoldByKeyHas(cs, RowKey, Merger(rules), RowKey(c));
    var i :| 0 <= i < |m| && m[i].0 == RowKey(c);
    MergeByVerseEntry(rules, cs, i);
    var x := m[i].1;
    assert x == Values(m)[i];
    assert x in multiset(SortedRecords(rules, cs));
  }

  /** The rows `build_records` returns: the sorted records of the export's candidates. */
  function Records(rules: FlowRules, msgs: seq<Message>): seq<SyncRow> {
    SortedRecords(rules, Candidates(rules, msgs))
  }

  /** At most one record per candidate, each valid, one per (surah, verse), in
      (surah, verse, post id) order. */
  lemma RecordsShape(rules: FlowRules, msgs: seq<Message>)
    ensures var rows := Records(rules, msgs);
      && |rows| <= |Candidates(rules, msgs)|
      && (forall x :: x in rows ==> RowOk(x))
      && DistinctBy(rows, RowKey)
      && SortedByKey(rows, SortKey)
  {
    SortedRecordsShape(rules, Candidates(rules, msgs));
  }

  /** Every record is the merge, in message order, of the candidates of its verse. */
  lemma RecordsMerged(rules: FlowRules, msgs: seq<Message>, x: SyncRow)
    requires x in Records(rules, msgs)
    ensures var s := WithKey(Candidates(rules, msgs), RowKey, RowKey(x));
      |s| > 0 && x == ReduceLeft(Merger(rules), s)
  {
    SortedRecordsMerged(rules, Candidates(rules, msgs), x);
  }

  /** No candidate is lost: every candidate's verse has a record. */
  lemma RecordsCover(rules: FlowRules, msgs: seq<Message>, c: SyncRow)
    requires c in Candidates(rules, msgs)
    ensures exists x :: x in Records(rules, msgs) && RowKey(x) == RowKey(c)
  {
    SortedRecordsCover(rules, Candidates(rules, msgs), c);
  }
}
