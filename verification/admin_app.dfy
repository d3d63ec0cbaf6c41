/**
 * The admin panel's own rules around an upload (`ruju-admin-panel/src/App.jsx`):
 * the status colour of a validation report, the merge of an incoming row into
 * the stored one (`pickRicherText`, `appendUniqueTafseer`, `mergeAyahRow`),
 * reading the post id back out of an upload summary, and the checks `upsertRows`
 * makes before anything is sent. The database calls themselves are not modelled:
 * the stored rows an upload would fetch are a parameter.
 */
module AdminApp {
  import opened Base
  import opened Chars
  import opened Strings
  import opened Seqs
  import opened Sorting
  import opened Assoc
  import opened JsValues
  import opened ParserRows

  // ---------------------------------------------------------------------
  // kindFromReport
  // ---------------------------------------------------------------------

  /** The colour of a status line. */
  datatype Kind = KindOk | KindWarn | KindErr

  /** Red when some row lacks a required field, amber when there are warnings,
      green otherwise. */
  function KindFromReport(report: Report): (k: Kind)
    ensures k == KindErr <==> report.invalidRequired > 0
    ensures k == KindOk <==> report.invalidRequired == 0 && |report.warnings| == 0
  {
    if report.invalidRequired > 0 then KindErr
    else if |report.warnings| > 0 then KindWarn
    else KindOk
  }

  /** A row with every field `validateRows` looks at filled in. */
  predicate Complete(r: Row) {
    HasRequired(r) && r.arabicText != "" && r.translation != "" && r.tafseer != ""
  }

  /** For a report of `validateRows`, green means every row is complete and no two rows
      share a verse; red means some row lacks a required field. */
  lemma KindOfValidation(rows: seq<Row>, report: Report)
    requires report.total == |rows|
    requires report.invalidRequired == Count(rows, LacksRequired)
    requires report.missingArabic == Count(rows, LacksArabic)
    requires report.missingTranslation == Count(rows, LacksTranslation)
    requires report.missingTafseer == Count(rows, LacksTafseer)
    requires report.uniqueKeys == |RowKeys(rows)|
    requires report.uniqueKeys + report.duplicateKeys == report.total
    requires report.warnings == Warnings(report.missingArabic, report.missingTranslation, report.missingTafseer, report.duplicateKeys)
    ensures KindFromReport(report) == KindErr <==> exists i :: 0 <= i < |rows| && !HasRequired(rows[i])
    ensures KindFromReport(report) == KindOk <==>
      (forall i :: 0 <= i < |rows| ==> Complete(rows[i])) && DistinctBy(rows, Pos)
  {
    CountZero(rows, LacksRequired);
    CountZero(rows, LacksArabic);
    CountZero(rows, LacksTranslation);
    CountZero(rows, LacksTafseer);
    RowKeysCount(rows);
    var ws := report.warnings;
    assert |ws| == 0 <==> (report.missingArabic == 0 && report.missingTranslation == 0 &&
      report.missingTafseer == 0 && report.duplicateKeys == 0) by {
      if report.missingArabic > 0 { assert Warning("Missing Arabic", report.missingArabic) in ws; }
      if report.missingTranslation > 0 { assert Warning("Missing Translation", report.missingTranslation) in ws; }
      if report.missingTafseer > 0 { assert Warning("Missing Tafseer", report.missingTafseer) in ws; }
      if report.duplicateKeys > 0 { assert Warning("Duplicate Keys", report.duplicateKeys) in ws; }
    }
  }

  // ---------------------------------------------------------------------
  // normText, pickRicherText, appendUniqueTafseer
  // ---------------------------------------------------------------------

  /** Every whitespace character is a plain space. */
  predicate BlankSpacesOnly(s: string) {
    forall i :: 0 <= i < |s| && IsJsSpace(s[i]) ==> s[i] == ' '
  }

  /** The shape `normText` gives: trimmed, single plain spaces, no capitals. */
  predicate IsNormShape(s: string) {
    IsTrimmed(s, IsJsSpace) && NoAdjacent(s, IsJsSpace) && BlankSpacesOnly(s) &&
    forall i :: 0 <= i < |s| ==> !IsAsciiUpper(s[i])
  }

  /** A slice of a string with single plain spaces has single plain spaces. */
  lemma SliceKeepsSpaces(s: string, a: nat, b: nat)
    requires a <= b <= |s| && NoAdjacent(s, IsJsSpace) && BlankSpacesOnly(s)
    ensures NoAdjacent(s[a..b], IsJsSpace) && BlankSpacesOnly(s[a..b])
  {
    NoAdjacentSlice(s, IsJsSpace, a, b);
    assert forall i :: 0 <= i < b - a ==> s[a..b][i] == s[a + i];
  }

  /** Lower-casing touches no whitespace. */
  lemma LowerKeepsShape(t: string)
    requires IsTrimmed(t, IsJsSpace) && NoAdjacent(t, IsJsSpace) && BlankSpacesOnly(t)
    ensures IsNormShape(LowerStr(t))
  {
    var r := LowerStr(t);
    assert forall i :: 0 <= i < |r| ==> (IsJsSpace(r[i]) <==> IsJsSpace(t[i])) && (IsJsSpace(t[i]) ==> r[i] == t[i]);
  }

  /** `normText`: whitespace runs become one space, the ends are trimmed, letters are
      lower-cased. */
  function NormText(s: string): (r: string)
    ensures IsNormShape(r)
  {
    var squashed := SquashRuns(s, IsJsSpace, ' ');
    SquashRunsOnlyRep(s, IsJsSpace, ' ');
    var trimmed := JsTrim(squashed);
    var a := RunLength(squashed, IsJsSpace);
    SliceKeepsSpaces(squashed, a, a + |trimmed|);
    LowerKeepsShape(trimmed);
    LowerStr(trimmed)
  }

  /** Normalising twice is normalising once. */
  lemma NormTextIdempotent(s: string)
    ensures NormText(NormText(s)) == NormText(s)
  {
    var n := NormText(s);
    SquashRunsFixed(n, IsJsSpace, ' ');
    LowerStrIdempotent(n);
    assert LowerStr(n) == n;
  }

  /** One normalised text contains the other. */
  predicate Nested(x: string, y: string) {
    Contains(NormText(x), NormText(y)) || Contains(NormText(y), NormText(x))
  }

  /** `z`'s normalised text appears in `r`'s. */
  predicate Covers(r: string, z: string) {
    Contains(NormText(r), NormText(z))
  }

  /** The longer of two texts by JavaScript length, the first on ties. */
  function Longer(x: string, y: string): (r: string)
    ensures r == x || r == y
    ensures Utf16Length(r) >= Utf16Length(x) && Utf16Length(r) >= Utf16Length(y)
    ensures Utf16Length(x) == Utf16Length(y) ==> r == x
  {
    if Utf16Length(x) >= Utf16Length(y) then x else y
  }

  /** The choice `pickRicherText` makes between two trimmed texts. */
  function PickRicher(x: string, y: string): (r: string)
    ensures r == x || r == y
    ensures x == "" ==> r == y
    ensures x != "" && y == "" ==> r == x
    ensures x != "" && y != "" && NormText(x) == NormText(y) ==> r == Longer(x, y)
    ensures x != "" && y != "" && Nested(x, y) ==> Covers(r, x) && Covers(r, y)
    ensures x != "" && y != "" && !Nested(x, y) ==> r == Longer(x, y)
  {
    ContainsSelf(NormText(x));
    ContainsSelf(NormText(y));
    if x == "" then y
    else if y == "" then x
    else
      var xn, yn := NormText(x), NormText(y);
      if xn == yn then Longer(x, y)
      else if Contains(xn, yn) then x
      else if Contains(yn, xn) then y
      else Longer(x, y)
  }

  /** `String(v || '').trim()`. */
  function TrimmedText(v: JsValue): (s: string)
    ensures IsTrimmed(s, IsJsSpace)
  {
    JsTrim(TextOf(v))
  }

  /** `pickRicherText`: of the two trimmed texts, the one that says more. */
  function PickRicherText(a: JsValue, b: JsValue): (r: string)
    ensures r == TrimmedText(a) || r == TrimmedText(b)
    ensures r == "" <==> TrimmedText(a) == "" && TrimmedText(b) == ""
    ensures IsTrimmed(r, IsJsSpace)
  {
    PickRicher(TrimmedText(a), TrimmedText(b))
  }

  /** The choice `appendUniqueTafseer` makes between two trimmed commentaries: the one
      `pickRicherText` would make, unless both are non-empty and neither normalised text
      contains the other; then both are kept, joined by a blank line. */
  function AppendUnique(x: string, y: string): (r: string)
    requires IsTrimmed(x, IsJsSpace) && IsTrimmed(y, IsJsSpace)
    ensures x == "" || y == "" || Nested(x, y) ==> r == PickRicher(x, y)
    ensures x != "" && y != "" && !Nested(x, y) ==> r == x + "\n\n" + y && Contains(r, x) && Contains(r, y)
  {
    if x == "" then y
    else if y == "" then x
    else
      var xn, yn := NormText(x), NormText(y);
      if xn == yn then Longer(x, y)
      else if Contains(xn, yn) then x
      else if Contains(yn, xn) then y
      else
        var joined := x + "\n\n" + y;
        JoinedKeepsBoth(x, y);
        JsTrim(joined)
  }

  /** Two trimmed, non-empty texts joined by a blank line: trimming changes nothing and
      both are still there. */
  lemma JoinedKeepsBoth(x: string, y: string)
    requires x != "" && y != "" && IsTrimmed(x, IsJsSpace) && IsTrimmed(y, IsJsSpace)
    ensures JsTrim(x + "\n\n" + y) == x + "\n\n" + y
    ensures Contains(x + "\n\n" + y, x) && Contains(x + "\n\n" + y, y)
  {
    var joined := x + "\n\n" + y;
    assert joined[0] == x[0] && joined[|joined| - 1] == y[|y| - 1];
    assert IsTrimmed(joined, IsJsSpace);
    assert joined[0..|x|] == x;
    assert joined[|x| + 2..|x| + 2 + |y|] == y;
    assert OccursAt(joined, x, 0) && OccursAt(joined, y, |x| + 2);
  }

  /** `appendUniqueTafseer`: like `pickRicherText`, except that two commentaries neither
      of which contains the other are both kept, joined by a blank line. */
  function AppendUniqueTafseer(a: JsValue, b: JsValue): (r: string)
    ensures IsTrimmed(r, IsJsSpace)
    ensures r == PickRicherText(a, b) || (Contains(r, TrimmedText(a)) && Contains(r, TrimmedText(b)))
  {
    var x, y := TrimmedText(a), TrimmedText(b);
    if x != "" && y != "" && !Nested(x, y) then
      JoinedKeepsBoth(x, y);
      AppendUnique(x, y)
    else
      AppendUnique(x, y)
  }

  // ---------------------------------------------------------------------
  // mergeAyahRow
  // ---------------------------------------------------------------------

  /** The six properties `mergeAyahRow` computes itself. */
  predicate IsMergedKey(k: string) {
    k == "surah_name" || k == "juz_number" || k == "arabic_text" || k == "translation" ||
    k == "tafseer" || k == "source_post_id"
  }

  /** `mergeAyahRow`: with no stored row the incoming one is taken as it is; otherwise the
      stored row's properties, overwritten by the incoming row's, and then the name, juz,
      texts and post id merged field by field. The object literal's explicit properties
      are stored one after the other, in place when the key is already there. */
  function MergeAyahRow(existing: Option<JsObject>, incoming: JsObject): (r: JsObject)
    ensures existing.None? ==> r == incoming
  {
    match existing
    case None => incoming
    case Some(e) =>
      var base := Spread(e, incoming);
      var r1 := Put(base, "surah_name", Or(Or(Prop(incoming, "surah_name"), Prop(e, "surah_name")), Str("")));
      var r2 := Put(r1, "juz_number", Coalesce(Coalesce(Prop(incoming, "juz_number"), Prop(e, "juz_number")), Null));
      var r3 := Put(r2, "arabic_text", Str(PickRicherText(Prop(e, "arabic_text"), Prop(incoming, "arabic_text"))));
      var r4 := Put(r3, "translation", Str(PickRicherText(Prop(e, "translation"), Prop(incoming, "translation"))));
      var r5 := Put(r4, "tafseer", Str(AppendUniqueTafseer(Prop(e, "tafseer"), Prop(incoming, "tafseer"))));
      Put(r5, "source_post_id", Coalesce(Coalesce(Prop(incoming, "source_post_id"), Prop(e, "source_post_id")), Null))
  }

  /** Reading a property through six stores. */
  lemma PutSix(m: JsObject, k: string,
               k1: string, v1: JsValue, k2: string, v2: JsValue, k3: string, v3: JsValue,
               k4: string, v4: JsValue, k5: string, v5: JsValue, k6: string, v6: JsValue)
    ensures Prop(Put(Put(Put(Put(Put(Put(m, k1, v1), k2, v2), k3, v3), k4, v4), k5, v5), k6, v6), k) ==
      if k == k6 then v6 else if k == k5 then v5 else if k == k4 then v4
      else if k == k3 then v3 else if k == k2 then v2 else if k == k1 then v1 else Prop(m, k)
  {
    var m1 := Put(m, k1, v1);
    var m2 := Put(m1, k2, v2);
    var m3 := Put(m2, k3, v3);
    var m4 := Put(m3, k4, v4);
    var m5 := Put(m4, k5, v5);
    PutGet(m, k1, v1, k);
    PutGet(m1, k2, v2, k);
    PutGet(m2, k3, v3, k);
    PutGet(m3, k4, v4, k);
    PutGet(m4, k5, v5, k);
    PutGet(m5, k6, v6, k);
  }

  /** Against a stored row, the merged name is the incoming one, else the stored one, else
      empty; juz and post id are the incoming ones unless missing, then the stored ones,
      then null; the Arabic text and translation are the richer of the two and the
      commentary is merged by `appendUniqueTafseer`. */
  lemma MergeAyahRowFields(e: JsObject, incoming: JsObject)
    ensures var r := MergeAyahRow(Some(e), incoming);
      Prop(r, "surah_name") == Or(Or(Prop(incoming, "surah_name"), Prop(e, "surah_name")), Str("")) &&
      Prop(r, "juz_number") == Coalesce(Coalesce(Prop(incoming, "juz_number"), Prop(e, "juz_number")), Null) &&
      Prop(r, "source_post_id") == Coalesce(Coalesce(Prop(incoming, "source_post_id"), Prop(e, "source_post_id")), Null)
    ensures var r := MergeAyahRow(Some(e), incoming);
      Prop(r, "arabic_text") == Str(PickRicherText(Prop(e, "arabic_text"), Prop(incoming, "arabic_text"))) &&
      Prop(r, "translation") == Str(PickRicherText(Prop(e, "translation"), Prop(incoming, "translation"))) &&
      Prop(r, "tafseer") == Str(AppendUniqueTafseer(Prop(e, "tafseer"), Prop(incoming, "tafseer")))
  {
    var base := Spread(e, incoming);
    var v1 := Or(Or(Prop(incoming, "surah_name"), Prop(e, "surah_name")), Str(""));
    var v2 := Coalesce(Coalesce(Prop(incoming, "juz_number"), Prop(e, "juz_number")), Null);
    var v3 := Str(PickRicherText(Prop(e, "arabic_text"), Prop(incoming, "arabic_text")));
    var v4 := Str(PickRicherText(Prop(e, "translation"), Prop(incoming, "translation")));
    var v5 := Str(AppendUniqueTafseer(Prop(e, "tafseer"), Prop(incoming, "tafseer")));
    var v6 := Coalesce(Coalesce(Prop(incoming, "source_post_id"), Prop(e, "source_post_id")), Null);
    PutSix(base, "surah_name", "surah_name", v1, "juz_number", v2, "arabic_text", v3, "translation", v4, "tafseer", v5, "source_post_id", v6);
    PutSix(base, "juz_number", "surah_name", v1, "juz_number", v2, "arabic_text", v3, "translation", v4, "tafseer", v5, "source_post_id", v6);
    PutSix(base, "arabic_text", "surah_name", v1, "juz_number", v2, "arabic_text", v3, "translation", v4, "tafseer", v5, "source_post_id", v6);
    PutSix(base, "translation", "surah_name", v1, "juz_number", v2, "arabic_text", v3, "translation", v4, "tafseer", v5, "source_post_id", v6);
    PutSix(base, "tafseer", "surah_name", v1, "juz_number", v2, "arabic_text", v3, "translation", v4, "tafseer", v5, "source_post_id", v6);
    PutSix(base, "source_post_id", "surah_name", v1, "juz_number", v2, "arabic_text", v3, "translation", v4, "tafseer", v5, "source_post_id", v6);
  }

  /** Every other property comes from the incoming row when it has it, and from the stored
      row otherwise. */
  lemma MergeAyahRowOthers(e: JsObject, incoming: JsObject, k: string)
    requires UniqueKeys(incoming) && !IsMergedKey(k)
    ensures Prop(MergeAyahRow(Some(e), incoming), k) == if HasKey(incoming, k) then Prop(incoming, k) else Prop(e, k)
  {
    var base := Spread(e, incoming);
    var v1 := Or(Or(Prop(incoming, "surah_name"), Prop(e, "surah_name")), Str(""));
    var v2 := Coalesce(Coalesce(Prop(incoming, "juz_number"), Prop(e, "juz_number")), Null);
    var v3 := Str(PickRicherText(Prop(e, "arabic_text"), Prop(incoming, "arabic_text")));
    var v4 := Str(PickRicherText(Prop(e, "translation"), Prop(incoming, "translation")));
    var v5 := Str(AppendUniqueTafseer(Prop(e, "tafseer"), Prop(incoming, "tafseer")));
    var v6 := Coalesce(Coalesce(Prop(incoming, "source_post_id"), Prop(e, "source_post_id")), Null);
    PutSix(base, k, "surah_name", v1, "juz_number", v2, "arabic_text", v3, "translation", v4, "tafseer", v5, "source_post_id", v6);
    SpreadGet(e, incoming, k);
  }

  // ---------------------------------------------------------------------
  // extractSourcePostIdFromSummary
  // ---------------------------------------------------------------------

  /** The pattern's literal part, matched without regard to case. */
  const SourceIdLabel: string := "source_post_id"

  /** `/source_post_id\s*=\s*(\d+)/i` tried at index `i`: the captured number, if the
      pattern matches there. Each `\s*` is followed by a character it cannot take, so
      the greedy scans never need to give characters back. */
  function SourceIdAt(s: string, i: nat): (r: Option<nat>)
    ensures r.Some? ==> OccursAtIgnoreCase(s, SourceIdLabel, i)
  {
    if !OccursAtIgnoreCase(s, SourceIdLabel, i) then None
    else
      var j := SkipWhile(s, i + |SourceIdLabel|, IsJsSpace);
      if j == |s| || s[j] != '=' then None
      else
        var k := SkipWhile(s, j + 1, IsJsSpace);
        var e := SkipWhile(s, k, IsAsciiDigit);
        if e == k then None
        else
          assert AllDigits(s[k..e]) by {
            assert forall t :: 0 <= t < e - k ==> s[k..e][t] == s[k + t];
          }
          Some(DigitsValue(s[k..e]))
  }

  function SourceIdTest(s: string): nat -> Option<nat> {
    (i: nat) => SourceIdAt(s, i)
  }

  /** `extractSourcePostIdFromSummary`: the number after the first `source_post_id =`
      of the summary, if there is one. */
  function ExtractSourcePostIdFromSummary(summary: JsValue): (r: Option<nat>)
    ensures r.None? ==> forall i :: 0 <= i <= |TextOf(summary)| ==> SourceIdAt(TextOf(summary), i).None?
    ensures r.Some? ==> exists i :: (0 <= i <= |TextOf(summary)| && SourceIdAt(TextOf(summary), i) == r &&
      forall j :: 0 <= j < i ==> SourceIdAt(TextOf(summary), j).None?)
  {
    var s := TextOf(summary);
    var f := SourceIdTest(s);
    assert forall k :: f(k) == SourceIdAt(s, k);
    match FirstSome(f, 0, |s| + 1)
    case Some(hit) => Some(hit.1)
    case None => None
  }

  /** A case-insensitive match of the label has its two underscores in place. */
  lemma LabelUnderscores(s: string, i: nat)
    requires OccursAtIgnoreCase(s, SourceIdLabel, i)
    ensures s[i + 6] == '_' && s[i + 11] == '_'
  {
    var w := s[i..i + 14];
    assert LowerStr(SourceIdLabel) == SourceIdLabel;
    assert LowerStr(w)[6] == '_' && LowerStr(w)[11] == '_';
    assert Lower(w[6]) == '_' && Lower(w[11]) == '_';
  }

  /** The text appended to a summary when the upload names its post. */
  function IdSuffix(p: int): string {
    " | source_post_id=" + IntToString(p)
  }

  /** In a summary without underscores followed by the id suffix, the only place the
      label can match is right after the suffix's `" | "`. */
  lemma OnlyMatchInSuffix(summary: string, p: int, i: nat)
    requires '_' !in summary
    requires OccursAtIgnoreCase(summary + IdSuffix(p), SourceIdLabel, i)
    ensures i == |summary| + 3
  {
    var s := summary + IdSuffix(p);
    var t := IntToString(p);
    LabelUnderscores(s, i);
    assert '_' !in t by {
      if p < 0 { assert t == "-" + NatToString(-p); }
    }
    var n := |summary|;
    assert forall q :: 0 <= q < n ==> s[q] == summary[q];
    assert forall q :: n + 18 <= q < |s| ==> s[q] == t[q - n - 18];
    assert forall q :: n <= q < n + 18 ==> s[q] == IdSuffix(p)[q - n];
    assert i + 6 == n + 9 || i + 6 == n + 14;
    assert i + 11 == n + 9 || i + 11 == n + 14;
  }

  /** The suffix's label matches right after its `" | "`, and the `=` follows at once. */
  lemma SuffixLabel(summary: string, p: int)
    ensures var s := summary + IdSuffix(p); var n := |summary|;
      OccursAtIgnoreCase(s, SourceIdLabel, n + 3) && SkipWhile(s, n + 17, IsJsSpace) == n + 17 &&
      s[n + 17] == '=' && s[n + 18..] == IntToString(p)
  {
    var t := IdSuffix(p);
    var s := summary + t;
    var n := |summary|;
    SuffixParts(p);
    AppendSlice(summary, t, 3, 17);
    AppendSlice(summary, t, 18, |t|);
    assert s[n + 17] == t[17];
    SkipWhileEnds(s, n + 17, n + 17, IsJsSpace);
  }

  /** The pieces of the id suffix: the label at 3, the `=` at 17, the number after it. */
  lemma SuffixParts(p: int)
    ensures var t := IdSuffix(p);
      18 <= |t| && t[3..17] == SourceIdLabel && t[17] == '=' && t[18..] == IntToString(p)
  {
  }

  /** After the `=`, the captured digits are those of `t` when `t` is a non-empty digit
      string; the capture is empty when `t` starts with a minus sign. */
  lemma CaptureDigits(s: string, k: nat, t: string)
    requires k <= |s| && s[k..] == t
    ensures |t| > 0 && AllAsciiDigits(t) ==> SkipWhile(s, k, IsJsSpace) == k && SkipWhile(s, k, IsAsciiDigit) == |s|
    ensures |t| > 0 && t[0] == '-' ==> SkipWhile(s, k, IsJsSpace) == k && SkipWhile(s, k, IsAsciiDigit) == k
  {
    if |t| > 0 && AllAsciiDigits(t) {
      assert s[k] == t[0];
      SkipWhileEnds(s, k, k, IsJsSpace);
      assert forall q :: k <= q < |s| ==> s[q] == t[q - k];
      SkipWhileEnds(s, k, |s|, IsAsciiDigit);
    }
    if |t| > 0 && t[0] == '-' {
      assert s[k] == '-';
      SkipWhileEnds(s, k, k, IsJsSpace);
      SkipWhileEnds(s, k, k, IsAsciiDigit);
    }
  }

  /** What the pattern captures right after the suffix's `" | "`: the number itself
      unless it is negative. */
  lemma SuffixCapture(summary: string, p: int)
    ensures SourceIdAt(summary + IdSuffix(p), |summary| + 3) == if p >= 0 then Some(p as nat) else None
  {
    var s := summary + IdSuffix(p);
    var n := |summary|;
    var t := IntToString(p);
    SuffixLabel(summary, p);
    CaptureDigits(s, n + 18, t);
    if p >= 0 {
      NatToStringValue(p);
      var j := SkipWhile(s, n + 17, IsJsSpace);
      var k := SkipWhile(s, j + 1, IsJsSpace);
      var e := SkipWhile(s, k, IsAsciiDigit);
      assert j == n + 17 && k == n + 18 && e == |s|;
      assert s[k..e] == t;
    } else {
      assert t == "-" + NatToString(-p);
    }
  }

  /** A report summary names no post. */
  lemma SummaryHasNoId(report: Report)
    ensures ExtractSourcePostIdFromSummary(Str(SummarizeReport(report))) == None
  {
    var summary := SummarizeReport(report);
    assert TextOf(Str(summary)) == summary;
    forall i: nat | SourceIdAt(summary, i).Some? ensures false {
      LabelUnderscores(summary, i);
    }
  }

  /** With the suffix `upsertRows` appends for a post number `p`, the post is read back
      unless `p` is negative, whose minus sign stops the digits. */
  lemma SummaryRoundTrip(report: Report, p: int)
    ensures ExtractSourcePostIdFromSummary(Str(SummarizeReport(report) + IdSuffix(p))) ==
      if p >= 0 then Some(p as nat) else None
  {
    SuffixRoundTrip(SummarizeReport(report), p);
  }

  /** The same for any summary without an underscore. */
  lemma SuffixRoundTrip(summary: string, p: int)
    requires '_' !in summary
    ensures ExtractSourcePostIdFromSummary(Str(summary + IdSuffix(p))) ==
      if p >= 0 then Some(p as nat) else None
  {
    var s := summary + IdSuffix(p);
    assert TextOf(Str(s)) == s;
    SuffixCapture(summary, p);
    forall i: nat | i != |summary| + 3 ensures SourceIdAt(s, i).None? {
      if SourceIdAt(s, i).Some? {
        OnlyMatchInSuffix(summary, p, i);
      }
    }
  }
  // ---------------------------------------------------------------------
  // upsertRows: what is checked before the upload
  // ---------------------------------------------------------------------

  /** `rows.map(normalizeIncomingRow)`. */
  function NormalizeAll(rows: seq<JsObject>): (out: seq<Row>)
    ensures |out| == |rows| && forall i :: 0 <= i < |rows| ==> out[i] == NormalizeIncomingRow(rows[i])
  {
    seq(|rows|, i requires 0 <= i < |rows| => NormalizeIncomingRow(rows[i]))
  }

  /** `existingMap.get(key)`. */
  function Lookup(stored: map<string, JsObject>, key: string): (r: Option<JsObject>)
    ensures r.Some? <==> key in stored
  {
    if key in stored then Some(stored[key]) else None
  }

  /** The object form of a row has its verse numbers. */
  lemma RowObjectVerse(r: Row)
    ensures UniqueKeys(RowObject(r))
    ensures HasKey(RowObject(r), "surah_number") && Prop(RowObject(r), "surah_number") == Num(r.surahNumber)
    ensures HasKey(RowObject(r), "ayah_number") && Prop(RowObject(r), "ayah_number") == Num(r.ayahNumber)
  {
    RowObjectProps(r);
  }

  /** A merged row keeps the verse of the incoming row. */
  lemma MergedRowKeepsVerse(existing: Option<JsObject>, r: Row)
    ensures Prop(MergeAyahRow(existing, RowObject(r)), "surah_number") == Num(r.surahNumber)
    ensures Prop(MergeAyahRow(existing, RowObject(r)), "ayah_number") == Num(r.ayahNumber)
  {
    RowObjectVerse(r);
    MergeKeepsVerse(existing, RowObject(r));
  }

  lemma MergeKeepsVerse(existing: Option<JsObject>, incoming: JsObject)
    requires UniqueKeys(incoming) && HasKey(incoming, "surah_number") && HasKey(incoming, "ayah_number")
    ensures Prop(MergeAyahRow(existing, incoming), "surah_number") == Prop(incoming, "surah_number")
    ensures Prop(MergeAyahRow(existing, incoming), "ayah_number") == Prop(incoming, "ayah_number")
  {
    VerseKeysNotMerged();
    MergeKeepsOwn(existing, incoming, "surah_number");
    MergeKeepsOwn(existing, incoming, "ayah_number");
  }

  /** The verse keys are not among those the merge computes. */
  lemma VerseKeysNotMerged()
    ensures !IsMergedKey("surah_number") && !IsMergedKey("ayah_number")
  {
    assert |"surah_number"| == 12 && |"ayah_number"| == 11;
    assert "ayah_number"[0] == 'a' && "ayah_number"[1] == 'y';
  }

  /** A property the incoming row has and the merge does not compute is the incoming
      row's. */
  lemma MergeKeepsOwn(existing: Option<JsObject>, incoming: JsObject, k: string)
    requires UniqueKeys(incoming) && HasKey(incoming, k) && !IsMergedKey(k)
    ensures Prop(MergeAyahRow(existing, incoming), k) == Prop(incoming, k)
  {
    if existing.Some? {
      MergeAyahRowOthers(existing.value, incoming, k);
    }
  }

  /** The outcome of an upload attempt. */
  datatype Upsert =
    | NothingToUpload
    | Blocked(invalid: nat)
    | Upload(rows: seq<JsObject>, summary: string)

  /** The summary logged for an upload: the report's, with the post number appended when
      `Number(options.sourcePostId)` is truthy. */
  function UploadSummary(report: Report, postNumber: JsNum): (r: string)
    ensures SummarizeReport(report) <= r
    ensures r == SummarizeReport(report) <==> !(postNumber.Int? && postNumber.i != 0)
  {
    if postNumber.Int? && postNumber.i != 0 then SummarizeReport(report) + IdSuffix(postNumber.i)
    else SummarizeReport(report)
  }

  /** The summary of an upload gives back its post number when that is positive. */
  lemma UploadSummaryId(report: Report, postNumber: JsNum)
    ensures ExtractSourcePostIdFromSummary(Str(UploadSummary(report, postNumber))) ==
      if postNumber.Int? && postNumber.i > 0 then Some(postNumber.i as nat) else None
  {
    if postNumber.Int? && postNumber.i != 0 {
      SummaryRoundTrip(report, postNumber.i);
    } else {
      SummaryHasNoId(report);
    }
  }

  /** The validation report counts an invalid row exactly when one row lacks a required field. */
  lemma SomeLacksRequired(rows: seq<Row>)
    ensures Count(rows, LacksRequired) > 0 <==> exists i :: 0 <= i < |rows| && !HasRequired(rows[i])
  {
    CountZero(rows, LacksRequired);
    if Count(rows, LacksRequired) > 0 {
      var i :| 0 <= i < |rows| && LacksRequired(rows[i]);
      assert !HasRequired(rows[i]);
    }
  }

  /** Each deduplicated row merged with the stored row of the same verse, in order. */
  function MergeAll(normalized: seq<Row>, stored: map<string, JsObject>): (m: seq<JsObject>)
    ensures |m| == |normalized|
    ensures forall i :: 0 <= i < |m| ==>
      m[i] == MergeAyahRow(Lookup(stored, RowKey(normalized[i])), RowObject(normalized[i]))
  {
    seq(|normalized|, i requires 0 <= i < |normalized| =>
      MergeAyahRow(Lookup(stored, RowKey(normalized[i])), RowObject(normalized[i])))
  }

  /** Every uploaded row names the verse of the parsed row it came from. */
  lemma MergeAllKeepsVerse(normalized: seq<Row>, stored: map<string, JsObject>)
    ensures forall i :: 0 <= i < |normalized| ==>
      Prop(MergeAll(normalized, stored)[i], "surah_number") == Num(normalized[i].surahNumber) &&
      Prop(MergeAll(normalized, stored)[i], "ayah_number") == Num(normalized[i].ayahNumber)
  {
    var m := MergeAll(normalized, stored);
    forall i | 0 <= i < |normalized|
      ensures Prop(m[i], "surah_number") == Num(normalized[i].surahNumber)
      ensures Prop(m[i], "ayah_number") == Num(normalized[i].ayahNumber)
    {
      MergedRowKeepsVerse(Lookup(stored, RowKey(normalized[i])), normalized[i]);
    }
  }

  /** When every row has its required fields, each merged row carries its parsed row's
      verse. */
  lemma MergedUpload(normalized: seq<Row>, stored: map<string, JsObject>)
    requires forall i :: 0 <= i < |normalized| ==> HasRequired(normalized[i])
    ensures forall i :: 0 <= i < |MergeAll(normalized, stored)| ==>
      var r := normalized[i];
      HasRequired(r) && Prop(MergeAll(normalized, stored)[i], "surah_number") == Num(r.surahNumber) &&
      Prop(MergeAll(normalized, stored)[i], "ayah_number") == Num(r.ayahNumber) &&
      MergeAll(normalized, stored)[i] == MergeAyahRow(Lookup(stored, RowKey(r)), RowObject(r))
  {
    MergeAllKeepsVerse(normalized, stored);
  }

  /** `upsertRows` up to the upload itself: the rows are normalised and deduplicated; an
      empty batch or one with a row lacking a required field is never sent; otherwise each
      row is merged into the stored row of its verse, and the summary carries the post. */
  method UpsertRows(rows: seq<JsObject>, stored: map<string, JsObject>, postNumber: JsNum) returns (out: Upsert)
    ensures out.NothingToUpload? <==> DedupeRows(NormalizeAll(rows)) == []
    ensures out.Blocked? <==> (DedupeRows(NormalizeAll(rows)) != [] &&
      exists i :: 0 <= i < |DedupeRows(NormalizeAll(rows))| && !HasRequired(DedupeRows(NormalizeAll(rows))[i]))
    ensures out.Blocked? ==> out.invalid == Count(DedupeRows(NormalizeAll(rows)), LacksRequired)
    ensures out.Upload? ==> |out.rows| == |DedupeRows(NormalizeAll(rows))|
    ensures out.Upload? ==> forall i :: 0 <= i < |out.rows| ==>
      var r := DedupeRows(NormalizeAll(rows))[i];
      HasRequired(r) && Prop(out.rows[i], "surah_number") == Num(r.surahNumber) &&
      Prop(out.rows[i], "ayah_number") == Num(r.ayahNumber) &&
      out.rows[i] == MergeAyahRow(Lookup(stored, RowKey(r)), RowObject(r))
    ensures out.Upload? ==> (ExtractSourcePostIdFromSummary(Str(out.summary)) ==
      if postNumber.Int? && postNumber.i > 0 then Some(postNumber.i as nat) else None)
  {
    var normalized := DedupeRows(NormalizeAll(rows));
    if |normalized| == 0 {
      return NothingToUpload;
    }
    var report := ValidateRows(normalized);
    SomeLacksRequired(normalized);
    if report.invalidRequired > 0 {
      return Blocked(report.invalidRequired);
    }
    var merged := MergeAll(normalized, stored);
    MergedUpload(normalized, stored);
    UploadSummaryId(report, postNumber);
    out := Upload(merged, UploadSummary(report, postNumber));
  }
}
