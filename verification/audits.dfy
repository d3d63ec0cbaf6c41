/**
 * The two audit scripts over `ayahs_formatted.json`:
 * scripts/_check_visible_translation.js (`clean`, `derive` and the count of rows
 * with a visible translation) and scripts/_audit_translations.js (rows without a
 * translation, and those among them whose tafseer still holds a quoted or
 * underlined span). Reading the file and `JSON.parse` are not modelled; rows
 * are given as values.
 */
module Audits {
  import opened Base
  import opened Chars
  import opened Strings
  import opened Seqs
  import opened JsValues
  import opened SyncScan
  import TextCleaner

  /** The fields of an exported row the scripts read. */
  datatype AuditRow = AuditRow(
    surahNumber: JsValue, ayahNumber: JsValue, translation: JsValue, tafseer: JsValue, sourcePostId: JsValue)

  /** `if (text.charCodeAt(0) === 0xFEFF) text = text.slice(1)`: one leading byte order
      mark is dropped, and nothing else changes. */
  function StripBom(text: string): (r: string)
    ensures |text| > 0 && text[0] == '\U{FEFF}' ==> text == ['\U{FEFF}'] + r
    ensures !(|text| > 0 && text[0] == '\U{FEFF}') ==> r == text
  {
    if |text| > 0 && text[0] == '\U{FEFF}' then text[1..] else text
  }

  // ---------------------------------------------------------------------
  // _check_visible_translation.js
  // ---------------------------------------------------------------------

  /** ``[*_`~]``. */
  predicate IsMarkdownMark(c: char) { c == '*' || c == '_' || c == '`' || c == '~' }

  /** A character `clean` never leaves. */
  predicate IsHiddenChar(c: char) { c == '\r' || IsZeroWidth(c) || IsMarkdownMark(c) }

  /** What `clean` produces: no carriage return, zero-width character or markdown mark,
      no two blanks in a row, no surrounding whitespace. */
  predicate IsVisibleText(s: string) {
    (forall i :: 0 <= i < |s| ==> !IsHiddenChar(s[i])) && NoAdjacent(s, IsSpaceOrTab) && IsTrimmed(s, IsJsSpace)
  }

  /** The character steps of `clean`: line ends unified, zero-width characters and
      markdown marks removed. */
  function Unmarked(t: string): (r: string)
    ensures forall c :: c in r ==> c in t || c == '\n'
    ensures forall i :: 0 <= i < |r| ==> !IsHiddenChar(r[i])
    ensures (forall i :: 0 <= i < |t| ==> !IsHiddenChar(t[i])) ==> r == t
  {
    var a := UnifyLineEnds(t);
    var b := RemoveWhere(a, IsZeroWidth);
    var r := RemoveWhere(b, IsMarkdownMark);
    assert forall i :: 0 <= i < |r| ==> r[i] in b && r[i] in a;
    r
  }

  /** `clean(v)`: `String(v || '')` with line ends unified, zero-width characters and
      markdown marks removed, runs of two or more blanks made one space, and trimmed. */
  function Clean(v: JsValue): (r: string)
    ensures IsVisibleText(r)
    ensures !Truthy(v) ==> r == ""
  {
    var t := Unmarked(TextOf(v));
    CollapsedVisible(t);
    TextCleaner.CollapseSpaces(t)
  }

  /** Collapsing the blanks of text with no hidden character gives visible text. */
  lemma CollapsedVisible(t: string)
    requires forall i :: 0 <= i < |t| ==> !IsHiddenChar(t[i])
    ensures IsVisibleText(TextCleaner.CollapseSpaces(t))
  {
    var r := TextCleaner.CollapseSpaces(t);
    forall i | 0 <= i < |r|
      ensures !IsHiddenChar(r[i])
    {
      assert r[i] in r;
      if r[i] != ' ' {
        var j :| 0 <= j < |t| && t[j] == r[i];
      }
    }
  }

  /** Visible text is left as it is. */
  lemma CleanFixes(s: string)
    requires IsVisibleText(s)
    ensures Clean(Str(s)) == s
  {
    assert Unmarked(s) == s;
    TextCleaner.CollapseSpacesFixes(s);
  }

  /** A second `clean` changes nothing. */
  lemma CleanIdempotent(v: JsValue)
    ensures Clean(Str(Clean(v))) == Clean(v)
  {
    CleanFixes(Clean(v));
  }

  /** A JavaScript match of a delimited pattern (`/["\u201c]([^"\n\u201d]{15,})["\u201d]/`,
      `/_([^_\n]{15,})_/`) tried at `i`. The expressions carry no `u` flag, so `{15,}`
      counts UTF-16 code units: a character above U+FFFF is two units, and both of its
      halves are body characters, since the classes exclude only characters below U+FFFF.
      As in `SyncScan.DelimitedAt` the body run is greedy, and the closing characters are
      not body characters, so no shorter run can close. */
  function JsDelimitedAt(s: string, i: nat, open: char -> bool, body: char -> bool, close: char -> bool): (r: Option<Found<QuoteGroups>>)
    requires forall c :: close(c) ==> !body(c)
    ensures r.Some? ==> r.value.start == i && i + 2 <= r.value.end <= |s|
    ensures r.Some? ==> r.value.groups.inner == s[i + 1..r.value.end - 1] && Utf16Length(r.value.groups.inner) >= 15
    ensures r.Some? ==> open(s[i]) && close(s[r.value.end - 1])
    ensures r.Some? ==> forall t :: i < t < r.value.end - 1 ==> body(s[t])
  {
    if i < |s| && open(s[i]) then
      var k := SkipWhile(s, i + 1, body);
      if k < |s| && close(s[k]) && Utf16Length(s[i + 1..k]) >= 15 then Some(Found(i, k + 1, QuoteGroups(s[i + 1..k])))
      else None
    else None
  }

  /** The first match of a delimited pattern in `t`. */
  function FirstSpan(t: string, open: char -> bool, body: char -> bool, close: char -> bool): (r: Option<Found<QuoteGroups>>)
    requires forall c :: close(c) ==> !body(c)
    ensures r.Some? ==> JsDelimitedAt(t, r.value.start, open, body, close) == r
    ensures forall k :: 0 <= k < (if r.Some? then r.value.start else |t|) ==> JsDelimitedAt(t, k, open, body, close).None?
  {
    var f := (k: nat) => JsDelimitedAt(t, k, open, body, close);
    var m := FirstSome(f, 0, |t|);
    assert forall k :: 0 <= k < |t| ==> f(k) == JsDelimitedAt(t, k, open, body, close);
    if m.Some? then Some(m.value.1) else None
  }

  /** `derive(r)`: the cleaned translation when it is not empty, otherwise the cleaned
      inside of the first quoted span of at least 15 characters, otherwise that of the
      first underlined span, each only when it cleans to something, otherwise ''. */
  function Derive(row: AuditRow): (r: string)
    ensures IsVisibleText(r)
    ensures Clean(row.translation) != "" ==> r == Clean(row.translation)
  {
    var direct := Clean(row.translation);
    if direct != "" then direct
    else
      var t := TextOf(row.tafseer);
      var q := FirstSpan(t, IsQuoteOpen, IsQuoteBody, IsQuoteClose);
      if q.Some? && Clean(Str(q.value.groups.inner)) != "" then Clean(Str(q.value.groups.inner))
      else
        var u := FirstSpan(t, IsUnderscore, IsUnderscoreBody, IsUnderscore);
        if u.Some? && Clean(Str(u.value.groups.inner)) != "" then Clean(Str(u.value.groups.inner))
        else ""
  }

  predicate HasVisibleTranslation(row: AuditRow) { Derive(row) != "" }

  /** `rows.filter(r => derive(r)).length` and the count printed as missing. */
  function VisibleCounts(rows: seq<AuditRow>): (r: (nat, int))
    ensures r.0 == Count(rows, HasVisibleTranslation)
    ensures 0 <= r.0 <= |rows| && r.1 == |rows| - r.0 && r.1 >= 0
  {
    FilterCount(rows, HasVisibleTranslation);
    var withTrans := |Filter(rows, HasVisibleTranslation)|;
    (withTrans, |rows| - withTrans)
  }

  /** Filtering keeps as many elements as satisfy the test. */
  lemma {:induction false} FilterCount<T(!new)>(s: seq<T>, p: T -> bool)
    ensures |Filter(s, p)| == Count(s, p)
  {
    if |s| > 0 {
      FilterCount(s[1..], p);
    }
  }

  /** Nothing is missing exactly when every row has a visible translation. */
  lemma VisibleCountsAll(rows: seq<AuditRow>)
    ensures VisibleCounts(rows).1 == 0 <==> forall i :: 0 <= i < |rows| ==> Derive(rows[i]) != ""
  {
    CountAll(rows, HasVisibleTranslation);
  }

  /** Every element is counted exactly when every element satisfies the test. */
  lemma {:induction false} CountAll<T>(s: seq<T>, p: T -> bool)
    ensures Count(s, p) == |s| <==> forall i :: 0 <= i < |s| ==> p(s[i])
  {
    if |s| > 0 {
      CountAll(s[1..], p);
      assert forall i :: 1 <= i < |s| ==> s[1..][i - 1] == s[i];
    }
  }

  // ---------------------------------------------------------------------
  // _audit_translations.js
  // ---------------------------------------------------------------------

  /** `!String(r.translation || '').trim()`. */
  predicate HasEmptyTranslation(row: AuditRow) { JsTrim(TextOf(row.translation)) == "" }

  /** `pat.test(t)` for a delimited pattern: a match starts somewhere. */
  predicate MatchesSomewhere(t: string, open: char -> bool, body: char -> bool, close: char -> bool)
    requires forall c :: close(c) ==> !body(c)
  {
    exists i :: 0 <= i < |t| && JsDelimitedAt(t, i, open, body, close).Some?
  }

  /** The tafseer of a row still holds an underlined or quoted span of 15 or more
      characters (`pat1` or `pat2`). */
  predicate IsRecoverable(row: AuditRow) {
    var t := TextOf(row.tafseer);
    MatchesSomewhere(t, IsUnderscore, IsUnderscoreBody, IsUnderscore) ||
    MatchesSomewhere(t, IsQuoteOpen, IsQuoteBody, IsQuoteClose)
  }

  /** `rows.filter(r => !String(r.translation || '').trim())`. */
  function EmptyRows(rows: seq<AuditRow>): (r: seq<AuditRow>)
    ensures IsSublist(r, rows)
    ensures forall x :: x in r <==> x in rows && HasEmptyTranslation(x)
  {
    Filter(rows, HasEmptyTranslation)
  }

  /** `empty.filter(r => pat1.test(...) || pat2.test(...))`: the rows without a
      translation whose tafseer holds a span, in input order. */
  function Hits(rows: seq<AuditRow>): (r: seq<AuditRow>)
    ensures IsSublist(r, EmptyRows(rows))
    ensures forall x :: x in r <==> x in rows && HasEmptyTranslation(x) && IsRecoverable(x)
  {
    Filter(EmptyRows(rows), IsRecoverable)
  }

  /** The line printed for a hit: `${surah_number}:${ayah_number} pid:${source_post_id}`. */
  function HitLine(row: AuditRow): string {
    ToStr(row.surahNumber) + ":" + ToStr(row.ayahNumber) + " pid:" + ToStr(row.sourcePostId)
  }

  /** The lines printed for `hits.slice(0, 80)`: at most 80, those of the first hits in
      order. */
  function HitLines(rows: seq<AuditRow>): (r: seq<string>)
    ensures |r| == if |Hits(rows)| < 80 then |Hits(rows)| else 80
    ensures forall i :: 0 <= i < |r| ==> r[i] == HitLine(Hits(rows)[i])
  {
    var listed := Take(Hits(rows), 80);
    seq(|listed|, i requires 0 <= i < |listed| => HitLine(listed[i]))
  }

  /** A delimited span written out: an opening character at `i`, a closing one at `k`,
      and body characters between them that take at least 15 UTF-16 code units. */
  predicate SpanAt(t: string, i: nat, k: nat, open: char -> bool, body: char -> bool, close: char -> bool) {
    i < k < |t| && open(t[i]) && close(t[k]) && (forall j :: i < j < k ==> body(t[j]))
    && Utf16Length(t[i + 1..k]) >= 15
  }

  /** The scanner finds a match exactly where a span starts. */
  lemma DelimitedAtSpan(t: string, i: nat, open: char -> bool, body: char -> bool, close: char -> bool)
    requires forall c :: close(c) ==> !body(c)
    ensures JsDelimitedAt(t, i, open, body, close).Some? <==> exists k :: SpanAt(t, i, k, open, body, close)
  {
    if JsDelimitedAt(t, i, open, body, close).Some? {
      var k := JsDelimitedAt(t, i, open, body, close).value.end - 1;
      assert SpanAt(t, i, k, open, body, close);
    }
    if exists k :: SpanAt(t, i, k, open, body, close) {
      var k :| SpanAt(t, i, k, open, body, close);
      SkipWhileEnds(t, i + 1, k, body);
    }
  }

  /** `pat.test(t)` holds exactly when a span is written out somewhere in `t`. */
  lemma MatchesSomewhereSpan(t: string, open: char -> bool, body: char -> bool, close: char -> bool)
    requires forall c :: close(c) ==> !body(c)
    ensures MatchesSomewhere(t, open, body, close) <==> exists i, k :: SpanAt(t, i, k, open, body, close)
  {
    if MatchesSomewhere(t, open, body, close) {
      var i :| 0 <= i < |t| && JsDelimitedAt(t, i, open, body, close).Some?;
      DelimitedAtSpan(t, i, open, body, close);
    }
    if exists i, k :: SpanAt(t, i, k, open, body, close) {
      var i, k :| SpanAt(t, i, k, open, body, close);
      DelimitedAtSpan(t, i, open, body, close);
    }
  }

  /** A row is a hit exactly when its tafseer holds, somewhere, an underscore, 15 or
      more characters other than `_` and line feed, and an underscore; or a straight or
      opening curly quote, 15 or more characters other than quotes and line feed, and a
      straight or closing curly quote. */
  lemma RecoverableSpans(row: AuditRow)
    ensures var t := TextOf(row.tafseer);
      IsRecoverable(row) <==>
        (exists i, k :: SpanAt(t, i, k, IsUnderscore, IsUnderscoreBody, IsUnderscore)) ||
        (exists i, k :: SpanAt(t, i, k, IsQuoteOpen, IsQuoteBody, IsQuoteClose))
  {
    var t := TextOf(row.tafseer);
    MatchesSomewhereSpan(t, IsUnderscore, IsUnderscoreBody, IsUnderscore);
    MatchesSomewhereSpan(t, IsQuoteOpen, IsQuoteBody, IsQuoteClose);
  }

  /** What `derive` recovers from a tafseer when the translation cleans to nothing, the
      audit counts as recoverable: the two scripts agree in that direction. */
  lemma DeriveFromTafseerIsRecoverable(row: AuditRow)
    requires Clean(row.translation) == "" && Derive(row) != ""
    ensures IsRecoverable(row)
  {
    var t := TextOf(row.tafseer);
    var q := FirstSpan(t, IsQuoteOpen, IsQuoteBody, IsQuoteClose);
    if q.Some? && Clean(Str(q.value.groups.inner)) != "" {
      assert JsDelimitedAt(t, q.value.start, IsQuoteOpen, IsQuoteBody, IsQuoteClose).Some?;
    } else {
      var u := FirstSpan(t, IsUnderscore, IsUnderscoreBody, IsUnderscore);
      assert JsDelimitedAt(t, u.value.start, IsUnderscore, IsUnderscoreBody, IsUnderscore).Some?;
    }
  }

  /** Eight U+1F31F stars: 16 UTF-16 code units, but only 8 characters. */
  function Stars(): (s: string)
    ensures |s| == 8 && forall k :: 0 <= k < 8 ==> s[k] == '\U{1F31F}'
  {
    seq(8, k => '\U{1F31F}')
  }

  /** Eight characters above U+FFFF take 16 code units. */
  lemma StarsUnits()
    ensures Utf16Length(Stars()) == 16
  {
    var s := Stars();
    assert s[1..][1..][1..][1..][1..][1..][1..][1..] == [];
  }

  /** `_🌟🌟🌟🌟🌟🌟🌟🌟_` as a tafseer with no translation: the script's `{15,}` counts
      16 code units in the body, so `derive` recovers the stars and the audit counts the
      row; Python's code-point count in `SyncScan.DelimitedAt` finds only 8. */
  lemma AstralSpanRecovered(row: AuditRow)
    requires row.translation == Str("") && row.tafseer == Str("_" + Stars() + "_")
    ensures Derive(row) == Stars() && IsRecoverable(row)
    ensures DelimitedAt("_" + Stars() + "_", 0, IsUnderscore, IsUnderscoreBody, IsUnderscore).None?
  {
    var t := "_" + Stars() + "_";
    StarsSpan();
    StarsNoQuote();
    var u := FirstSpan(t, IsUnderscore, IsUnderscoreBody, IsUnderscore);
    assert u == Some(Found(0, 10, QuoteGroups(Stars())));
    assert Clean(Str("")) == "";
    StarsVisible();
  }

  /** The JavaScript matcher accepts the starred span at 0, and the code-point matcher
      does not. */
  lemma StarsSpan()
    ensures var t := "_" + Stars() + "_";
      JsDelimitedAt(t, 0, IsUnderscore, IsUnderscoreBody, IsUnderscore) == Some(Found(0, 10, QuoteGroups(Stars()))) &&
      DelimitedAt(t, 0, IsUnderscore, IsUnderscoreBody, IsUnderscore).None?
  {
    var t := "_" + Stars() + "_";
    StarsUnits();
    SkipWhileEnds(t, 1, 9, IsUnderscoreBody);
    assert t[1..9] == Stars();
  }

  /** The starred text has no opening quote, so the quote pattern finds nothing. */
  lemma StarsNoQuote()
    ensures FirstSpan("_" + Stars() + "_", IsQuoteOpen, IsQuoteBody, IsQuoteClose).None?
  {
    var t := "_" + Stars() + "_";
    forall k | 0 <= k < |t| ensures JsDelimitedAt(t, k, IsQuoteOpen, IsQuoteBody, IsQuoteClose).None? {
      assert !IsQuoteOpen(t[k]);
    }
  }

  /** The stars are visible text, so `clean` keeps them. */
  lemma StarsVisible()
    ensures Clean(Str(Stars())) == Stars() != ""
  {
    assert IsVisibleText(Stars());
    CleanFixes(Stars());
  }
}
