/**
 * Verse rows as the admin panel handles them: normalising a loosely-typed
 * incoming record, scoring how complete a row is, collapsing rows that share
 * a `(surah, ayah)` key, and the validation report shown before an upload.
 */
module ParserRows {
  import opened Base
  import opened Chars
  import opened Strings
  import opened Assoc
  import opened Seqs
  import opened Sorting
  import opened JsValues
  import opened ParserText
  import opened KeyedFold

  /** A normalised verse row. `juzNumber` is present only when it is an integer;
      `sourcePostId` is absent when the incoming value was blank. */
  datatype Row = Row(
    surahNumber: JsNum,
    surahName: string,
    juzNumber: Option<int>,
    ayahNumber: JsNum,
    arabicText: string,
    translation: string,
    tafseer: string,
    sourcePostId: Option<JsNum>)

  // ---------------------------------------------------------------------
  // normalizeIncomingRow
  // ---------------------------------------------------------------------

  /** `Number(v)` when `v` is an integer after conversion, nothing when it is blank or not whole. */
  function OptionalInt(v: JsValue): (r: Option<int>)
    ensures r.Some? <==> !IsBlank(v) && ToNumber(v).Int?
    ensures r.Some? ==> ToNumber(v) == Int(r.value)
  {
    if IsBlank(v) then None
    else match ToNumber(v)
      case Int(i) => Some(i)
      case NonInt => None
  }

  /** A juz given as text with a point and zeros (`"3.0"`, `"3."`) is the integer `Number`
      makes of it, and is kept. */
  lemma OptionalIntOfZeroFraction(d: string, z: string)
    requires AllAsciiDigits(d) && All(z, IsZeroDigit) && |d| + |z| > 0
    ensures OptionalInt(Str(d + "." + z)) == Some(DigitsValue(d))
  {
    StringToNumberZeroFraction(d, z);
    OptionalIntOfText(d + "." + z, DigitsValue(d));
  }

  /** Non-empty text that `Number` reads as an integer is kept as that integer. */
  lemma OptionalIntOfText(u: string, k: int)
    requires u != "" && StringToNumber(u) == Int(k)
    ensures OptionalInt(Str(u)) == Some(k)
  {
  }

  /** A juz given as a fraction (`"3.5"`) is not an integer and is dropped. */
  lemma OptionalIntOfFraction(d: string, f: string, k: nat)
    requires AllAsciiDigits(d) && AllAsciiDigits(f) && k < |f| && f[k] != '0'
    ensures OptionalInt(Str(d + "." + f)) == None
  {
    var u := d + "." + f;
    UnsignedFraction(d, f, k);
    assert u[0] == '.' || IsAsciiDigit(u[0]);
    assert IsAsciiDigit(u[|u| - 1]);
    SignedText(u);
  }

  /** `Number(v)` unless `v` is blank. */
  function OptionalNumber(v: JsValue): (r: Option<JsNum>)
    ensures r.None? <==> IsBlank(v)
    ensures r.Some? ==> r.value == ToNumber(v)
  {
    if IsBlank(v) then None else Some(ToNumber(v))
  }

  /** `normalizeIncomingRow` on a record given field by field. */
  function NormalizeFields(surah: JsValue, name: JsValue, juz: JsValue, ayah: JsValue, arabic: JsValue,
                           translation: JsValue, tafseer: JsValue, source: JsValue): (r: Row)
    ensures r.surahNumber == ToNumber(surah) && r.ayahNumber == ToNumber(ayah)
    ensures IsCleanContent(r.surahName) && IsCleanContent(r.translation) && IsCleanContent(r.tafseer)
    ensures IsNormalArabic(r.arabicText)
    ensures r.juzNumber.Some? <==> !IsBlank(juz) && ToNumber(juz).Int?
    ensures r.sourcePostId.None? <==> IsBlank(source)
    ensures !Truthy(translation) ==> r.translation == ""
    ensures !Truthy(tafseer) ==> r.tafseer == ""
  {
    Row(
      ToNumber(surah),
      CleanContent(TextOf(name)),
      OptionalInt(juz),
      ToNumber(ayah),
      NormalizeArabicText(TextOf(arabic)),
      CleanContent(TextOf(translation)),
      CleanContent(TextOf(tafseer)),
      OptionalNumber(source))
  }

  /** Shapes an incoming record (an imported JSON object or a parsed post) into a row. */
  function NormalizeIncomingRow(raw: JsObject): (r: Row)
    ensures r.surahNumber == ToNumber(Prop(raw, "surah_number"))
    ensures r.ayahNumber == ToNumber(Prop(raw, "ayah_number"))
    ensures IsCleanContent(r.surahName) && IsCleanContent(r.translation) && IsCleanContent(r.tafseer)
    ensures IsNormalArabic(r.arabicText)
    ensures r.juzNumber.Some? <==> !IsBlank(Prop(raw, "juz_number")) && ToNumber(Prop(raw, "juz_number")).Int?
    ensures r.sourcePostId.None? <==> IsBlank(Prop(raw, "source_post_id"))
    ensures !Truthy(Prop(raw, "translation")) ==> r.translation == ""
    ensures !Truthy(Prop(raw, "tafseer")) ==> r.tafseer == ""
  {
    NormalizeFields(Prop(raw, "surah_number"), Prop(raw, "surah_name"), Prop(raw, "juz_number"),
      Prop(raw, "ayah_number"), Prop(raw, "arabic_text"), Prop(raw, "translation"), Prop(raw, "tafseer"),
      Prop(raw, "source_post_id"))
  }

  /** The object form of a row, with the database's column names. */
  function RowObject(r: Row): (o: JsObject)
    ensures UniqueKeys(o)
  {
    [("surah_number", Num(r.surahNumber)),
     ("surah_name", Str(r.surahName)),
     ("juz_number", match r.juzNumber case Some(j) => Num(Int(j)) case None => Null),
     ("ayah_number", Num(r.ayahNumber)),
     ("arabic_text", Str(r.arabicText)),
     ("translation", Str(r.translation)),
     ("tafseer", Str(r.tafseer)),
     ("source_post_id", match r.sourcePostId case Some(n) => Num(n) case None => Null)]
  }

  lemma RowObjectProps(r: Row)
    ensures Prop(RowObject(r), "surah_number") == Num(r.surahNumber)
    ensures Prop(RowObject(r), "surah_name") == Str(r.surahName)
    ensures Prop(RowObject(r), "juz_number") == match r.juzNumber case Some(j) => Num(Int(j)) case None => Null
    ensures Prop(RowObject(r), "ayah_number") == Num(r.ayahNumber)
    ensures Prop(RowObject(r), "arabic_text") == Str(r.arabicText)
    ensures Prop(RowObject(r), "translation") == Str(r.translation)
    ensures Prop(RowObject(r), "tafseer") == Str(r.tafseer)
    ensures Prop(RowObject(r), "source_post_id") == match r.sourcePostId case Some(n) => Num(n) case None => Null
  {
    var o := RowObject(r);
    forall i | 0 <= i < |o| ensures Get(o, o[i].0) == Some(o[i].1) {
      GetOfMember(o, i);
    }
    assert o[0].0 == "surah_number" && o[1].0 == "surah_name" && o[2].0 == "juz_number";
    assert o[3].0 == "ayah_number" && o[4].0 == "arabic_text" && o[5].0 == "translation";
    assert o[6].0 == "tafseer" && o[7].0 == "source_post_id";
  }

  lemma OptionalIntOfJuz(x: Option<int>)
    ensures OptionalInt(match x case Some(j) => Num(Int(j)) case None => Null) == x
  {
  }

  lemma OptionalNumberOfSource(x: Option<JsNum>)
    ensures OptionalNumber(match x case Some(n) => Num(n) case None => Null) == x
  {
  }

  /** The object form of a row goes back through the normaliser field by field. */
  lemma NormalizeRowObjectFields(r: Row)
    ensures NormalizeIncomingRow(RowObject(r)) ==
      NormalizeFields(Num(r.surahNumber), Str(r.surahName),
        match r.juzNumber case Some(j) => Num(Int(j)) case None => Null,
        Num(r.ayahNumber), Str(r.arabicText), Str(r.translation), Str(r.tafseer),
        match r.sourcePostId case Some(n) => Num(n) case None => Null)
  {
    RowObjectProps(r);
  }

  /** Back through the normaliser, the numbers of a row come out as they went in. */
  lemma NormalizeRowObjectNumbers(r: Row)
    ensures var q := NormalizeIncomingRow(RowObject(r));
      q.surahNumber == r.surahNumber && q.ayahNumber == r.ayahNumber &&
      q.juzNumber == r.juzNumber && q.sourcePostId == r.sourcePostId
  {
    NormalizeRowObjectFields(r);
    OptionalIntOfJuz(r.juzNumber);
    OptionalNumberOfSource(r.sourcePostId);
  }

  /** Back through the normaliser, clean texts come out as they went in and the Arabic
      text is normalised once more. */
  lemma NormalizeRowObjectTexts(r: Row)
    requires IsCleanContent(r.surahName) && IsCleanContent(r.translation) && IsCleanContent(r.tafseer)
    ensures var q := NormalizeIncomingRow(RowObject(r));
      q.surahName == r.surahName && q.translation == r.translation && q.tafseer == r.tafseer &&
      q.arabicText == NormalizeArabicText(r.arabicText)
  {
    NormalizeRowObjectFields(r);
    assert TextOf(Str(r.surahName)) == r.surahName;
    assert TextOf(Str(r.translation)) == r.translation;
    assert TextOf(Str(r.tafseer)) == r.tafseer;
    assert TextOf(Str(r.arabicText)) == r.arabicText;
    CleanContentFixesClean(r.surahName);
    CleanContentFixesClean(r.translation);
    CleanContentFixesClean(r.tafseer);
  }

  /** Normalising the object form of a row whose texts are clean changes nothing but the
      Arabic text, which goes through the Arabic normaliser once more. */
  lemma NormalizeRowObject(r: Row)
    requires IsCleanContent(r.surahName) && IsCleanContent(r.translation) && IsCleanContent(r.tafseer)
    ensures NormalizeIncomingRow(RowObject(r)) == r.(arabicText := NormalizeArabicText(r.arabicText))
  {
    NormalizeRowObjectNumbers(r);
    NormalizeRowObjectTexts(r);
  }

  /** Normalising a row that is already normal changes nothing but the Arabic text, which
      goes through the Arabic normaliser once more; when that text does not start with a
      bullet glyph, nothing changes at all. */
  lemma NormalizeIncomingRowStable(raw: JsObject)
    ensures var r := NormalizeIncomingRow(raw);
      NormalizeIncomingRow(RowObject(r)) == r.(arabicText := NormalizeArabicText(r.arabicText))
    ensures var r := NormalizeIncomingRow(raw);
      (|r.arabicText| == 0 || !IsLeadGlyph(r.arabicText[0])) ==> NormalizeIncomingRow(RowObject(r)) == r
  {
    var r := NormalizeIncomingRow(raw);
    NormalizeRowObject(r);
    if |r.arabicText| == 0 || !IsLeadGlyph(r.arabicText[0]) {
      NormalizeArabicTextStable(r.arabicText);
    }
  }

  // ---------------------------------------------------------------------
  // rowQualityScore
  // ---------------------------------------------------------------------

  /** Completeness of a row: Arabic text weighs 3, a translation 2, a commentary 1. */
  function RowQualityScore(r: Row): (score: nat)
    ensures score <= 6
    ensures score == 6 <==> r.arabicText != "" && r.translation != "" && r.tafseer != ""
    ensures score == 0 <==> r.arabicText == "" && r.translation == "" && r.tafseer == ""
    ensures score >= 4 <==> r.arabicText != "" && (r.translation != "" || r.tafseer != "")
  {
    (if r.arabicText != "" then 3 else 0)
    + (if r.translation != "" then 2 else 0)
    + (if r.tafseer != "" then 1 else 0)
  }

  /** A row with every part another row has scores at least as high, and strictly higher
      when it has a part the other lacks. */
  lemma RowQualityScoreMonotone(a: Row, b: Row)
    requires b.arabicText != "" ==> a.arabicText != ""
    requires b.translation != "" ==> a.translation != ""
    requires b.tafseer != "" ==> a.tafseer != ""
    ensures RowQualityScore(b) <= RowQualityScore(a)
    ensures ((a.arabicText != "" && b.arabicText == "") || (a.translation != "" && b.translation == "")
      || (a.tafseer != "" && b.tafseer == "")) ==> RowQualityScore(b) < RowQualityScore(a)
  {
  }

  // ---------------------------------------------------------------------
  // dedupeRows
  // ---------------------------------------------------------------------

  /** The verse a row is for. */
  function Pos(r: Row): (JsNum, JsNum) { (r.surahNumber, r.ayahNumber) }

  /** The row's map key `${surah_number}:${ayah_number}`. */
  function RowKey(r: Row): string {
    PairKey(r.surahNumber, r.ayahNumber)
  }

  /** Two rows share a key exactly when they are for the same verse. */
  lemma RowKeySame(a: Row, b: Row)
    ensures RowKey(a) == RowKey(b) <==> Pos(a) == Pos(b)
  {
    PairKeyInjective(a.surahNumber, a.ayahNumber, b.surahNumber, b.ayahNumber);
  }

  /** On a key collision the incoming row replaces the kept one unless it scores lower. */
  function Keep(prev: Row, row: Row): (w: Row)
    ensures w == row || w == prev
    ensures RowQualityScore(w) >= RowQualityScore(prev) && RowQualityScore(w) >= RowQualityScore(row)
    ensures RowQualityScore(row) >= RowQualityScore(prev) ==> w == row
  {
    if RowQualityScore(row) >= RowQualityScore(prev) then row else prev
  }

  /** `w` is the last of the elements of `s` with the highest score. */
  ghost predicate IsLastMax<T>(s: seq<T>, w: T, score: T -> nat) {
    exists j :: 0 <= j < |s| && s[j] == w &&
      (forall i :: 0 <= i < |s| ==> score(s[i]) <= score(w)) &&
      (forall i :: j < i < |s| ==> score(s[i]) < score(w))
  }

  /** `w` is the last of the highest-scoring rows of `s`. */
  ghost predicate IsLastBest(s: seq<Row>, w: Row) {
    IsLastMax(s, w, RowQualityScore)
  }

  /** Taking the next element when it scores at least as high as the last best of the
      earlier ones gives the last best of them all. */
  lemma LastMaxStep<T>(s: seq<T>, p: T, score: T -> nat)
    requires |s| > 1 && IsLastMax(s[..|s| - 1], p, score)
    ensures IsLastMax(s, if score(s[|s| - 1]) >= score(p) then s[|s| - 1] else p, score)
  {
    var n := |s| - 1;
    var init, x := s[..n], s[n];
    var j :| 0 <= j < n && init[j] == p &&
      (forall i :: 0 <= i < n ==> score(init[i]) <= score(p)) &&
      (forall i :: j < i < n ==> score(init[i]) < score(p));
    assert forall i :: 0 <= i < n ==> s[i] == init[i];
    if score(x) >= score(p) {
      assert s[n] == x;
    } else {
      assert s[j] == p;
    }
  }

  /** A list has one last best element. */
  lemma LastMaxUnique<T>(s: seq<T>, a: T, b: T, score: T -> nat)
    requires IsLastMax(s, a, score) && IsLastMax(s, b, score)
    ensures a == b
  {
    var ja :| 0 <= ja < |s| && s[ja] == a &&
      (forall i :: 0 <= i < |s| ==> score(s[i]) <= score(a)) &&
      (forall i :: ja < i < |s| ==> score(s[i]) < score(a));
    var jb :| 0 <= jb < |s| && s[jb] == b &&
      (forall i :: 0 <= i < |s| ==> score(s[i]) <= score(b)) &&
      (forall i :: jb < i < |s| ==> score(s[i]) < score(b));
    assert score(a) == score(b);
    assert ja == jb;
  }

  /** Folding rows with `Keep` ends on the last of the highest-scoring ones. */
  lemma {:induction false} ReduceKeepLastBest(s: seq<Row>)
    requires |s| > 0
    ensures IsLastBest(s, ReduceLeft(Keep, s))
  {
    var n := |s| - 1;
    if n == 0 {
      assert s[0] == ReduceLeft(Keep, s);
    } else {
      ReduceKeepLastBest(s[..n]);
      var p := ReduceLeft(Keep, s[..n]);
      assert Keep(p, s[n]) == ReduceLeft(Keep, s);
      LastBestStep(s, p);
    }
  }

  /** Keeping the next row over the last best of the earlier ones gives the last best of
      them all. */
  lemma LastBestStep(s: seq<Row>, p: Row)
    requires |s| > 1 && IsLastBest(s[..|s| - 1], p)
    ensures IsLastBest(s, Keep(p, s[|s| - 1]))
  {
    LastMaxStep(s, p, RowQualityScore);
  }

  /** The rows for verse `p`, in input order. */
  function RowsFor(rows: seq<Row>, p: (JsNum, JsNum)): seq<Row> {
    WithKey(rows, Pos, p)
  }

  /** The fold behind `dedupeRows`: a `Map` from row key to the row kept so far. */
  function DedupeMap(rows: seq<Row>): seq<(string, Row)> {
    FoldByKey(rows, RowKey, Keep)
  }

  /** Entry `i` of the map holds the last best row among those for its verse. */
  lemma DedupeMapEntry(rows: seq<Row>, i: nat)
    requires i < |DedupeMap(rows)|
    ensures RowKey(DedupeMap(rows)[i].1) == DedupeMap(rows)[i].0
    ensures DedupeMap(rows)[i].1 in rows
    ensures IsLastBest(RowsFor(rows, Pos(DedupeMap(rows)[i].1)), DedupeMap(rows)[i].1)
  {
    var m := DedupeMap(rows);
    var k := m[i].0;
    FoldByKeyUnique(rows, RowKey, Keep);
    GetOfMember(m, i);
    FoldByKeyGet(rows, RowKey, Keep, k);
    var s := WithKey(rows, RowKey, k);
    ReduceKeepLastBest(s);
    WithKeyMembers(rows, RowKey, k);
    var w := m[i].1;
    assert w == ReduceLeft(Keep, s);
    assert w in s;
    forall j | 0 <= j < |rows| ensures (RowKey(rows[j]) == k <==> Pos(rows[j]) == Pos(w)) {
      RowKeySame(rows[j], w);
    }
    WithKeyEquiv(rows, RowKey, k, Pos, Pos(w));
  }

  /** The sort comparator `a.surah_number - b.surah_number || a.ayah_number - b.ayah_number`;
      a NaN difference counts as zero. */
  function CompareRows(a: Row, b: Row): int {
    var ds := if a.surahNumber.Int? && b.surahNumber.Int? then a.surahNumber.i - b.surahNumber.i else 0;
    if ds != 0 then ds
    else if a.ayahNumber.Int? && b.ayahNumber.Int? then a.ayahNumber.i - b.ayahNumber.i
    else 0
  }

  /** A row's verse as a sort key; non-integer numbers stand in as 0. */
  function SortKey(r: Row): (key: seq<int>)
    ensures |key| == 2
  {
    [if r.surahNumber.Int? then r.surahNumber.i else 0,
     if r.ayahNumber.Int? then r.ayahNumber.i else 0]
  }

  /** Both verse numbers of the row are integers. */
  predicate HasIntKey(r: Row) { r.surahNumber.Int? && r.ayahNumber.Int? }

  /** On rows with integer verse numbers the comparator orders by surah, then ayah. */
  lemma CompareRowsIsLex(a: Row, b: Row)
    requires HasIntKey(a) && HasIntKey(b)
    ensures CompareRows(a, b) == Lex(SortKey(a), SortKey(b))
  {
    var ka, kb := SortKey(a), SortKey(b);
    assert ka[1..][1..] == [] && kb[1..][1..] == [];
    assert Lex(ka[1..], kb[1..]) == if ka[1] != kb[1] then ka[1] - kb[1] else 0;
  }

  /** `dedupeRows`: one row per verse, ordered by surah then ayah. */
  function DedupeRows(rows: seq<Row>): (out: seq<Row>)
    ensures |out| <= |rows|
  {
    FoldByKeyUnique(rows, RowKey, Keep);
    SortBy(Values(DedupeMap(rows)), CompareRows)
  }

  /** `dedupeRows` keeps exactly one row per verse: no two output rows share a verse,
      every output row is an input row and the last of the highest-scoring rows for its
      verse, and every input verse has an output row. */
  lemma DedupeRowsCorrect(rows: seq<Row>)
    ensures DistinctBy(DedupeRows(rows), Pos)
    ensures forall x :: x in DedupeRows(rows) ==> x in rows && IsLastBest(RowsFor(rows, Pos(x)), x)
    ensures forall i :: 0 <= i < |rows| ==> exists x :: x in DedupeRows(rows) && Pos(x) == Pos(rows[i])
  {
    DedupeRowsDistinct(rows);
    DedupeRowsKept(rows);
    DedupeRowsCover(rows);
  }

  /** No two rows of the output share a verse. */
  lemma DedupeRowsDistinct(rows: seq<Row>)
    ensures DistinctBy(DedupeRows(rows), Pos)
  {
    var vs := Values(DedupeMap(rows));
    FoldByKeyUnique(rows, RowKey, Keep);
    forall i, j | 0 <= i < j < |vs| ensures Pos(vs[i]) != Pos(vs[j]) {
      DedupeMapEntry(rows, i);
      DedupeMapEntry(rows, j);
      RowKeySame(vs[i], vs[j]);
    }
    SortByDistinct(vs, CompareRows, Pos);
  }

  /** Every output row is an input row, the last best one for its verse. */
  lemma DedupeRowsKept(rows: seq<Row>)
    ensures forall x :: x in DedupeRows(rows) ==> x in rows && IsLastBest(RowsFor(rows, Pos(x)), x)
  {
    var vs := Values(DedupeMap(rows));
    var out := DedupeRows(rows);
    forall x | x in out ensures x in rows && IsLastBest(RowsFor(rows, Pos(x)), x) {
      assert x in multiset(out);
      var i :| 0 <= i < |vs| && vs[i] == x;
      DedupeMapEntry(rows, i);
    }
  }

  /** Every input verse has an output row. */
  lemma DedupeRowsCover(rows: seq<Row>)
    ensures forall i :: 0 <= i < |rows| ==> exists x :: x in DedupeRows(rows) && Pos(x) == Pos(rows[i])
  {
    var vs := Values(DedupeMap(rows));
    var out := DedupeRows(rows);
    forall i | 0 <= i < |rows| ensures exists x :: x in out && Pos(x) == Pos(rows[i]) {
      var j := DedupeMapIndexOf(rows, i);
      assert vs[j] in multiset(out);
    }
  }

  /** The map entry that holds row `i`'s verse. */
  lemma DedupeMapIndexOf(rows: seq<Row>, i: nat) returns (j: nat)
    requires i < |rows|
    ensures j < |DedupeMap(rows)| && Pos(DedupeMap(rows)[j].1) == Pos(rows[i])
  {
    var m := DedupeMap(rows);
    FoldByKeyHas(rows, RowKey, Keep, RowKey(rows[i]));
    j :| 0 <= j < |m| && m[j].0 == RowKey(rows[i]);
    DedupeMapEntry(rows, j);
    RowKeySame(m[j].1, rows[i]);
  }

  /** When every verse number is an integer, the output is in (surah, ayah) order. */
  lemma DedupeRowsSorted(rows: seq<Row>)
    requires forall i :: 0 <= i < |rows| ==> HasIntKey(rows[i])
    ensures SortedByKey(DedupeRows(rows), SortKey)
  {
    var vs := Values(DedupeMap(rows));
    forall x | x in vs ensures x in rows {
      var i :| 0 <= i < |vs| && vs[i] == x;
      DedupeMapEntry(rows, i);
    }
    forall a, b | a in vs && b in vs ensures CompareRows(a, b) == Lex(SortKey(a), SortKey(b)) {
      CompareRowsIsLex(a, b);
    }
    SortBySorted(vs, CompareRows, SortKey, 2);
  }

  /** A row list has one last best row, so the characterisation pins the kept row down. */
  lemma LastBestUnique(s: seq<Row>, a: Row, b: Row)
    requires IsLastBest(s, a) && IsLastBest(s, b)
    ensures a == b
  {
    LastMaxUnique(s, a, b, RowQualityScore);
  }

  // ---------------------------------------------------------------------
  // validateRows and summarizeReport
  // ---------------------------------------------------------------------

  /** The counters and warnings shown before an upload. */
  datatype Report = Report(
    total: nat,
    invalidRequired: nat,
    missingArabic: nat,
    missingTranslation: nat,
    missingTafseer: nat,
    duplicateKeys: nat,
    uniqueKeys: nat,
    warnings: seq<string>)

  /** Positive integer surah and ayah numbers and a non-empty surah name. */
  predicate HasRequired(r: Row) {
    r.surahNumber.Int? && r.surahNumber.i > 0 && r.ayahNumber.Int? && r.ayahNumber.i > 0 && r.surahName != ""
  }

  predicate LacksRequired(r: Row) { !HasRequired(r) }
  predicate LacksArabic(r: Row) { r.arabicText == "" }
  predicate LacksTranslation(r: Row) { r.translation == "" }
  predicate LacksTafseer(r: Row) { r.tafseer == "" }

  /** The distinct row keys. */
  function RowKeys(rows: seq<Row>): set<string> {
    KeysSeen(rows, RowKey)
  }

  /** The text of one warning, `${name}: ${count}`. */
  function Warning(name: string, n: nat): string {
    name + ": " + NatToString(n)
  }

  /** Warnings whose labels differ before either ends are different. */
  lemma WarningsDiffer(l1: string, l2: string, n1: nat, n2: nat, i: nat)
    requires i < |l1| && i < |l2| && l1[i] != l2[i]
    ensures Warning(l1, n1) != Warning(l2, n2)
  {
    assert Warning(l1, n1)[i] == l1[i];
    assert Warning(l2, n2)[i] == l2[i];
  }

  /** The warnings of a report: one per non-zero counter among missing Arabic, missing
      translation, missing commentary and duplicate keys, in that order. Invalid rows
      are counted but never warned about. */
  function Warnings(missingArabic: nat, missingTranslation: nat, missingTafseer: nat, duplicateKeys: nat): (ws: seq<string>)
    ensures IsSublist(ws, [Warning("Missing Arabic", missingArabic), Warning("Missing Translation", missingTranslation),
                           Warning("Missing Tafseer", missingTafseer), Warning("Duplicate Keys", duplicateKeys)])
    ensures Warning("Missing Arabic", missingArabic) in ws <==> missingArabic > 0
    ensures Warning("Missing Translation", missingTranslation) in ws <==> missingTranslation > 0
    ensures Warning("Missing Tafseer", missingTafseer) in ws <==> missingTafseer > 0
    ensures Warning("Duplicate Keys", duplicateKeys) in ws <==> duplicateKeys > 0
  {
    var a, t, f, d := Warning("Missing Arabic", missingArabic), Warning("Missing Translation", missingTranslation),
                      Warning("Missing Tafseer", missingTafseer), Warning("Duplicate Keys", duplicateKeys);
    WarningsDiffer("Missing Arabic", "Missing Translation", missingArabic, missingTranslation, 8);
    WarningsDiffer("Missing Arabic", "Missing Tafseer", missingArabic, missingTafseer, 8);
    WarningsDiffer("Missing Arabic", "Duplicate Keys", missingArabic, duplicateKeys, 0);
    WarningsDiffer("Missing Translation", "Missing Tafseer", missingTranslation, missingTafseer, 10);
    WarningsDiffer("Missing Translation", "Duplicate Keys", missingTranslation, duplicateKeys, 0);
    WarningsDiffer("Missing Tafseer", "Duplicate Keys", missingTafseer, duplicateKeys, 0);
    var ws := (if missingArabic > 0 then [a] else []) + (if missingTranslation > 0 then [t] else [])
      + (if missingTafseer > 0 then [f] else []) + (if duplicateKeys > 0 then [d] else []);
    assert IsSublist(ws, [a, t, f, d]) by { WarningsSublist(a, t, f, d, missingArabic > 0, missingTranslation > 0, missingTafseer > 0, duplicateKeys > 0); }
    ws
  }

  lemma WarningsSublist(a: string, t: string, f: string, d: string, ka: bool, kt: bool, kf: bool, kd: bool)
    ensures IsSublist((if ka then [a] else []) + (if kt then [t] else []) + (if kf then [f] else []) + (if kd then [d] else []), [a, t, f, d])
  {
    var tail3 := (if kt then [t] else []) + (if kf then [f] else []) + (if kd then [d] else []);
    var tail2 := (if kf then [f] else []) + (if kd then [d] else []);
    var tail1 := if kd then [d] else [];
    assert IsSublist(tail1, [d]) by { SublistRefl([d]); }
    assert IsSublist(tail2, [f, d]) by {
      if !kf { SublistSkip(tail2, [f, d]); assert [f, d][1..] == [d]; } else { assert tail2[1..] == tail1; }
    }
    assert IsSublist(tail3, [t, f, d]) by {
      if !kt { SublistSkip(tail3, [t, f, d]); assert [t, f, d][1..] == [f, d]; assert tail3 == tail2; } else { assert tail3[1..] == tail2; }
    }
    var all := (if ka then [a] else []) + tail3;
    assert (if ka then [a] else []) + (if kt then [t] else []) + (if kf then [f] else []) + (if kd then [d] else []) == all;
    if !ka {
      SublistSkip(all, [a, t, f, d]);
      assert [a, t, f, d][1..] == [t, f, d];
      assert all == tail3;
    } else {
      assert all[1..] == tail3;
    }
  }

  /** One more row adds its own counts. */
  lemma TallyStep(rows: seq<Row>, i: nat)
    requires i < |rows|
    ensures Count(rows[..i + 1], LacksRequired) == Count(rows[..i], LacksRequired) + if LacksRequired(rows[i]) then 1 else 0
    ensures Count(rows[..i + 1], LacksArabic) == Count(rows[..i], LacksArabic) + if LacksArabic(rows[i]) then 1 else 0
    ensures Count(rows[..i + 1], LacksTranslation) == Count(rows[..i], LacksTranslation) + if LacksTranslation(rows[i]) then 1 else 0
    ensures Count(rows[..i + 1], LacksTafseer) == Count(rows[..i], LacksTafseer) + if LacksTafseer(rows[i]) then 1 else 0
  {
    var row := rows[i];
    assert rows[..i + 1] == rows[..i] + [row];
    CountAppend(rows[..i], [row], LacksRequired);
    CountAppend(rows[..i], [row], LacksArabic);
    CountAppend(rows[..i], [row], LacksTranslation);
    CountAppend(rows[..i], [row], LacksTafseer);
  }

  /** The four completeness counters of `validateRows`. */
  datatype Tally = Tally(invalid: nat, arabic: nat, translation: nat, tafseer: nat)

  /** Counts one more row. */
  function AddRow(t: Tally, row: Row): Tally {
    Tally(t.invalid + (if HasRequired(row) then 0 else 1),
          t.arabic + (if row.arabicText == "" then 1 else 0),
          t.translation + (if row.translation == "" then 1 else 0),
          t.tafseer + (if row.tafseer == "" then 1 else 0))
  }

  /** The counters after the given rows. */
  function TallyOf(rows: seq<Row>): Tally {
    if |rows| == 0 then Tally(0, 0, 0, 0)
    else AddRow(TallyOf(rows[..|rows| - 1]), rows[|rows| - 1])
  }

  /** The counters count the incomplete rows. */
  lemma {:induction false} TallyOfCounts(rows: seq<Row>)
    ensures TallyOf(rows).invalid == Count(rows, LacksRequired)
    ensures TallyOf(rows).arabic == Count(rows, LacksArabic)
    ensures TallyOf(rows).translation == Count(rows, LacksTranslation)
    ensures TallyOf(rows).tafseer == Count(rows, LacksTafseer)
  {
    if |rows| > 0 {
      var n := |rows| - 1;
      TallyOfCounts(rows[..n]);
      TallyStep(rows, n);
      assert rows[..n + 1] == rows;
      assert TallyOf(rows) == AddRow(TallyOf(rows[..n]), rows[n]);
    }
  }

  /** `validateRows`: counts incomplete rows, key collisions and distinct keys. */
  method ValidateRows(rows: seq<Row>) returns (report: Report)
    ensures report.total == |rows|
    ensures report.invalidRequired == Count(rows, LacksRequired)
    ensures report.missingArabic == Count(rows, LacksArabic)
    ensures report.missingTranslation == Count(rows, LacksTranslation)
    ensures report.missingTafseer == Count(rows, LacksTafseer)
    ensures report.uniqueKeys == |RowKeys(rows)|
    ensures report.uniqueKeys + report.duplicateKeys == report.total
    ensures report.warnings == Warnings(report.missingArabic, report.missingTranslation, report.missingTafseer, report.duplicateKeys)
  {
    var t := Tally(0, 0, 0, 0);
    var duplicates := 0;
    var seen: set<string> := {};
    for i := 0 to |rows|
      invariant t == TallyOf(rows[..i])
      invariant seen == KeysSeen(rows[..i], RowKey)
      invariant duplicates == RepeatCount(rows[..i], RowKey)
    {
      assert rows[..i + 1][..i] == rows[..i];
      var key := RowKey(rows[i]);
      t := AddRow(t, rows[i]);
      duplicates := duplicates + (if key in seen then 1 else 0);
      seen := seen + {key};
    }
    assert rows[..|rows|] == rows;
    TallyOfCounts(rows);
    RepeatCountPlusKeys(rows, RowKey);
    report := Report(|rows|, t.invalid, t.arabic, t.translation, t.tafseer, duplicates, |seen|,
                     Warnings(t.arabic, t.translation, t.tafseer, duplicates));
  }

  /** There are as many distinct keys as rows exactly when no two rows share a verse. */
  lemma {:induction false} RowKeysCount(rows: seq<Row>)
    ensures |RowKeys(rows)| <= |rows|
    ensures |RowKeys(rows)| == |rows| <==> DistinctBy(rows, Pos)
  {
    if |rows| > 0 {
      var n := |rows| - 1;
      var init, x := rows[..n], rows[n];
      RowKeysCount(init);
      assert rows == init + [x];
      assert RowKeys(rows) == RowKeys(init) + {RowKey(x)};
      if RowKey(x) in RowKeys(init) {
        RepeatedKeyNotDistinct(rows);
      } else {
        FreshKeyDistinct(rows);
      }
    }
  }

  lemma RepeatedKeyNotDistinct(rows: seq<Row>)
    requires |rows| > 0 && RowKey(rows[|rows| - 1]) in RowKeys(rows[..|rows| - 1])
    ensures !DistinctBy(rows, Pos)
  {
    var n := |rows| - 1;
    var init, x := rows[..n], rows[n];
    KeysSeenMembers(init, RowKey, RowKey(x));
    var j :| 0 <= j < n && RowKey(init[j]) == RowKey(x);
    RowKeySame(init[j], x);
    assert rows[j] == init[j] && rows[n] == x;
  }

  lemma FreshKeyDistinct(rows: seq<Row>)
    requires |rows| > 0 && RowKey(rows[|rows| - 1]) !in RowKeys(rows[..|rows| - 1])
    ensures DistinctBy(rows, Pos) <==> DistinctBy(rows[..|rows| - 1], Pos)
  {
    FreshKeyApart(rows);
    DistinctByLast(rows, Pos);
  }

  /** A last row whose key no earlier row has is for a verse no earlier row is for. */
  lemma FreshKeyApart(rows: seq<Row>)
    requires |rows| > 0 && RowKey(rows[|rows| - 1]) !in RowKeys(rows[..|rows| - 1])
    ensures forall i :: 0 <= i < |rows| - 1 ==> Pos(rows[i]) != Pos(rows[|rows| - 1])
  {
    var n := |rows| - 1;
    var init, x := rows[..n], rows[n];
    KeysSeenMembers(init, RowKey, RowKey(x));
    forall i | 0 <= i < n ensures Pos(rows[i]) != Pos(x) {
      assert rows[i] == init[i];
      assert RowKey(init[i]) != RowKey(x);
      RowKeySame(init[i], x);
    }
  }

  /** Deduplicated rows have as many distinct keys as rows, so validating them reports
      no duplicate keys. */
  lemma DedupeRowsHaveNoDuplicates(rows: seq<Row>)
    ensures |RowKeys(DedupeRows(rows))| == |DedupeRows(rows)|
  {
    DedupeRowsDistinct(rows);
    RowKeysCount(DedupeRows(rows));
  }

  /** `summarizeReport`: the seven counters as `name=value`, comma separated. */
  function SummarizeReport(report: Report): (s: string)
    ensures '_' !in s
    ensures "total=" + NatToString(report.total) <= s
  {
    var s := "total=" + NatToString(report.total)
      + ", unique=" + NatToString(report.uniqueKeys)
      + ", invalid=" + NatToString(report.invalidRequired)
      + ", missingArabic=" + NatToString(report.missingArabic)
      + ", missingTranslation=" + NatToString(report.missingTranslation)
      + ", missingTafseer=" + NatToString(report.missingTafseer)
      + ", duplicates=" + NatToString(report.duplicateKeys);
    assert forall n: nat :: '_' !in NatToString(n);
    s
  }
}
