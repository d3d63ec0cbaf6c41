/**
 * The body of one ayah block: its lines are sorted into Arabic lines, the
 * translation line that follows each Arabic line, and commentary (tafseer)
 * lines, and one row is produced per ayah number of the block's label.
 */
module ParserBlocks {
  import opened Base
  import opened Chars
  import opened Strings
  import opened Seqs
  import opened ParserText
  import opened ParserMarkers

  // ---------------------------------------------------------------------
  // Line classes
  // ---------------------------------------------------------------------

  /** `isArabicLine`: some character lies in the Arabic block U+0600..U+06FF. */
  function IsArabicLine(line: string): (b: bool)
    ensures b <==> exists i :: 0 <= i < |line| && IsArabic(line[i])
  {
    if |line| == 0 then false
    else if IsArabic(line[0]) then true
    else
      var rest := line[1..];
      assert forall i :: 1 <= i < |line| ==> line[i] == rest[i - 1];
      IsArabicLine(rest)
  }

  /** `t` is `open`, characters other than line terminators, then `close`: what the anchored
      patterns `^_.*_$`, `^".*"$` and `^“.*”$` accept (`.` stops at line terminators). */
  predicate Delimited(t: string, open: char, close: char) {
    |t| >= 2 && t[0] == open && t[|t| - 1] == close &&
    forall k :: 1 <= k < |t| - 1 ==> !IsLineTerminator(t[k])
  }

  predicate HasAsciiLetter(t: string) {
    exists i :: 0 <= i < |t| && IsAsciiLetter(t[i])
  }

  /** `isTranslationLine`: the trimmed line is wrapped in underscores or quotes, or it holds
      a Latin letter together with an underscore or a straight double quote. */
  predicate IsTranslationLine(line: string) {
    var t := JsTrim(line);
    t != "" &&
    (Delimited(t, '_', '_') || Delimited(t, '"', '"') || Delimited(t, '\U{201C}', '\U{201D}') ||
     (HasAsciiLetter(t) && ('_' in t || '"' in t)))
  }

  /** Every translation line carries an underscore or a double quote, straight or curly. */
  lemma TranslationLineMark(line: string)
    ensures IsTranslationLine(line) ==>
      '_' in JsTrim(line) || '"' in JsTrim(line) || '\U{201C}' in JsTrim(line)
  {
    var t := JsTrim(line);
    if IsTranslationLine(line) && (Delimited(t, '_', '_') || Delimited(t, '"', '"') || Delimited(t, '\U{201C}', '\U{201D}')) {
      assert t[0] in t;
    }
  }

  /** A text in underscores or quotes, on one line, is a translation line. */
  lemma DelimitedIsTranslation(x: string, open: char, close: char)
    requires (open, close) in {('_', '_'), ('"', '"'), ('\U{201C}', '\U{201D}')}
    requires forall k :: 0 <= k < |x| ==> !IsLineTerminator(x[k])
    ensures IsTranslationLine([open] + x + [close])
  {
    var t := [open] + x + [close];
    assert IsTrimmed(t, IsJsSpace);
    assert forall k :: 1 <= k < |t| - 1 ==> t[k] == x[k - 1];
    assert Delimited(t, open, close);
  }

  // ---------------------------------------------------------------------
  // The lines of a block
  // ---------------------------------------------------------------------

  predicate NonEmpty(line: string) { line != "" }

  /** A line of a block: no line feed, no carriage return, trimmed. */
  predicate IsBlockLine(line: string) {
    '\n' !in line && '\r' !in line && IsTrimmed(line, IsJsSpace)
  }

  /** `.map(normalizeLine)` over pieces without line feeds. */
  function NormalizeLines(parts: seq<string>): (r: seq<string>)
    requires forall i :: 0 <= i < |parts| ==> '\n' !in parts[i]
    ensures |r| == |parts|
    ensures forall i :: 0 <= i < |r| ==> r[i] == NormalizeLine(parts[i])
    ensures forall x :: x in r ==> IsBlockLine(x)
  {
    var r := seq(|parts|, i requires 0 <= i < |parts| => NormalizeLine(parts[i]));
    assert forall i :: 0 <= i < |r| ==> IsBlockLine(r[i]) by {
      forall i | 0 <= i < |r| ensures IsBlockLine(r[i]) {
        assert '\n' !in parts[i];
      }
    }
    r
  }

  /** `cleanContent(body).split('\n').map(normalizeLine).filter(Boolean)`. */
  function BlockLines(body: string): (lines: seq<string>)
    ensures forall k :: 0 <= k < |lines| ==> lines[k] != "" && IsBlockLine(lines[k])
  {
    var lines := Filter(NormalizeLines(Split(CleanContent(body), '\n')), NonEmpty);
    assert forall k :: 0 <= k < |lines| ==> lines[k] in lines;
    lines
  }

  // ---------------------------------------------------------------------
  // Pairing Arabic lines with translations
  // ---------------------------------------------------------------------

  /** The translation test on line `j`, as a function value for the forward scan. */
  function TranslationTest(lines: seq<string>): nat -> bool {
    (j: nat) => j < |lines| && IsTranslationLine(lines[j])
  }

  /** The inner loop of `parseBlock`: the first translation line among the (at most three)
      lines after line `i` (see `TranslationIndexFirst`). */
  function TranslationIndex(lines: seq<string>, i: nat): (r: Option<nat>)
    requires i < |lines|
    ensures r.Some? ==> i < r.value <= i + 3 && r.value < |lines|
  {
    FirstWhere(TranslationTest(lines), i + 1, if i + 4 < |lines| then i + 4 else |lines|)
  }

  /** The line found is a translation line and none of the lines between is one. */
  lemma TranslationIndexFirst(lines: seq<string>, i: nat)
    requires i < |lines|
    ensures var r := TranslationIndex(lines, i);
      (r.Some? ==> IsTranslationLine(lines[r.value])) &&
      forall j :: i < j < |lines| && j <= i + 3 && (r.None? || j < r.value) ==> !IsTranslationLine(lines[j])
  {
    var hi := if i + 4 < |lines| then i + 4 else |lines|;
    var r := FirstWhere(TranslationTest(lines), i + 1, hi);
    assert r.Some? ==> TranslationTest(lines)(r.value);
    forall j | i < j < |lines| && j <= i + 3 && (r.None? || j < r.value)
      ensures !IsTranslationLine(lines[j])
    {
      assert !TranslationTest(lines)(j);
    }
  }

  /** The translation paired with line `i`: the unwrapped translation line, or nothing. */
  function TranslationText(lines: seq<string>, i: nat): (t: string)
    requires i < |lines|
    ensures TranslationIndex(lines, i).None? ==> t == ""
    ensures !IsWrapped(t)
  {
    match TranslationIndex(lines, i)
    case Some(j) => UnwrapTranslation(lines[j])
    case None => assert !IsWrapped(""); ""
  }

  /** Positions `i..` of the Arabic lines, in order. */
  function ArabicIndices(lines: seq<string>, i: nat): (idx: seq<nat>)
    requires i <= |lines|
    ensures forall k :: 0 <= k < |idx| ==> i <= idx[k] < |lines| && IsArabicLine(lines[idx[k]])
    ensures forall k, m :: 0 <= k < m < |idx| ==> idx[k] < idx[m]
    decreases |lines| - i
  {
    if i == |lines| then []
    else if IsArabicLine(lines[i]) then [i] + ArabicIndices(lines, i + 1)
    else ArabicIndices(lines, i + 1)
  }

  /** No Arabic line is skipped. */
  lemma {:induction false} ArabicIndicesComplete(lines: seq<string>, i: nat, j: nat)
    requires i <= j < |lines| && IsArabicLine(lines[j])
    ensures j in ArabicIndices(lines, i)
    decreases |lines| - i
  {
    if i < j {
      ArabicIndicesComplete(lines, i + 1, j);
    }
  }

  /** One `{ arabic, translation }` pair. */
  datatype Pair = Pair(arabic: string, translation: string)

  /** The pairs of a block, one per Arabic line. */
  function Pairs(lines: seq<string>): (ps: seq<Pair>)
    ensures |ps| == |ArabicIndices(lines, 0)|
  {
    var idx := ArabicIndices(lines, 0);
    seq(|idx|, k requires 0 <= k < |idx| =>
      Pair(CleanContent(lines[idx[k]]), TranslationText(lines, idx[k])))
  }

  /** Line `i` is an Arabic line that takes line `k` as its translation. */
  predicate ClaimedBy(lines: seq<string>, i: nat, k: nat)
    requires i < |lines|
  {
    IsArabicLine(lines[i]) && TranslationIndex(lines, i) == Some(k)
  }

  /** Membership in `used`: an Arabic line, or the translation of one of the three lines
      before it. */
  predicate IsUsed(lines: seq<string>, k: nat)
    requires k < |lines|
  {
    IsArabicLine(lines[k]) ||
    (k >= 1 && ClaimedBy(lines, k - 1, k)) ||
    (k >= 2 && ClaimedBy(lines, k - 2, k)) ||
    (k >= 3 && ClaimedBy(lines, k - 3, k))
  }

  /** Only the three lines before a line can take it as their translation. */
  lemma ClaimedNearby(lines: seq<string>, i: nat, k: nat)
    requires i < |lines| && ClaimedBy(lines, i, k)
    ensures i < k <= i + 3 && k < |lines|
  {
  }

  /** A claim by any earlier line is a claim by one of the three lines before. */
  lemma ClaimMakesUsed(lines: seq<string>, i: nat, k: nat)
    requires i < k < |lines| && ClaimedBy(lines, i, k)
    ensures IsUsed(lines, k)
  {
    ClaimedNearby(lines, i, k);
    if i == k - 1 {
      assert ClaimedBy(lines, k - 1, k);
    } else if i == k - 2 {
      assert ClaimedBy(lines, k - 2, k);
    } else {
      assert ClaimedBy(lines, k - 3, k);
    }
  }

  /** A line is used exactly when it is Arabic or some Arabic line takes it as its
      translation. */
  lemma IsUsedMeans(lines: seq<string>, k: nat)
    requires k < |lines|
    ensures IsUsed(lines, k) <==>
      IsArabicLine(lines[k]) || exists i :: 0 <= i < k && ClaimedBy(lines, i, k)
  {
    if exists i :: 0 <= i < k && ClaimedBy(lines, i, k) {
      var i :| 0 <= i < k && ClaimedBy(lines, i, k);
      ClaimMakesUsed(lines, i, k);
    }
    if IsUsed(lines, k) && !IsArabicLine(lines[k]) {
      var i: nat := if k >= 1 && ClaimedBy(lines, k - 1, k) then k - 1
        else if k >= 2 && ClaimedBy(lines, k - 2, k) then k - 2 else k - 3;
      assert 0 <= i < k && ClaimedBy(lines, i, k);
    }
  }

  // ---------------------------------------------------------------------
  // The shared commentary
  // ---------------------------------------------------------------------

  /** `/^\{?\s*Description of this aayat/i`: the heading line of the commentary. */
  predicate IsDescriptionLine(line: string) {
    var b := if |line| > 0 && line[0] == '{' then 1 else 0;
    OccursAtIgnoreCase(line, "Description of this aayat", SkipWhile(line, b, IsJsSpace))
  }

  /** The glyphs stripped from the start of a commentary line: ◆ ◇ ▸ ▹ ★ ☆ ✦ ✧ ✶ ❇ ⭐ and
      the pictographs U+1F300..U+1FAFF. */
  predicate IsTafseerGlyph(c: char) {
    c in {'\U{25C6}', '\U{25C7}', '\U{25B8}', '\U{25B9}', '\U{2605}', '\U{2606}', '\U{2726}',
          '\U{2727}', '\U{2736}', '\U{2747}', '\U{2B50}'} ||
    IsEmoji(c)
  }

  /** The `replace` of a leading run of glyphs, and of the blanks after it, by nothing. */
  function StripGlyphs(line: string): (r: string)
    ensures |r| <= |line| && r == line[|line| - |r|..]
    ensures (|line| == 0 || !IsTafseerGlyph(line[0])) ==> r == line
    ensures |line| > 0 && IsTafseerGlyph(line[0]) ==> |r| < |line|
  {
    var g := SkipWhile(line, 0, IsTafseerGlyph);
    if g == 0 then
      assert line == line[0..];
      line
    else line[SkipWhile(line, g, IsJsSpace)..]
  }

  /** The text a commentary line contributes: glyphs stripped, then trimmed. */
  function Piece(line: string): string {
    JsTrim(StripGlyphs(line))
  }

  /** Line `k` goes into the commentary: not used, not the heading, and not blank once its
      glyphs are gone. */
  predicate IsTafseerLine(lines: seq<string>, k: nat)
    requires k < |lines|
  {
    !IsUsed(lines, k) && !IsDescriptionLine(lines[k]) && Piece(lines[k]) != ""
  }

  /** The commentary piece of line `k`, if it is a commentary line. */
  function TafseerPiece(lines: seq<string>): nat -> Option<string> {
    (k: nat) => if k < |lines| && IsTafseerLine(lines, k) then Some(Piece(lines[k])) else None
  }

  /** The `tafseerLines` pipeline: the pieces of the commentary lines, in order. */
  function TafseerLines(lines: seq<string>): (ts: seq<string>)
    ensures |ts| <= |lines|
  {
    Collect(TafseerPiece(lines), 0, |lines|)
  }

  /** The commentary holds the pieces of exactly the commentary lines. */
  lemma TafseerLinesMembers(lines: seq<string>, x: string)
    ensures x in TafseerLines(lines) <==>
      exists k :: 0 <= k < |lines| && IsTafseerLine(lines, k) && Piece(lines[k]) == x
  {
    CollectMembers(TafseerPiece(lines), 0, |lines|, x);
    if exists k :: 0 <= k < |lines| && TafseerPiece(lines)(k) == Some(x) {
      var k :| 0 <= k < |lines| && TafseerPiece(lines)(k) == Some(x);
      assert IsTafseerLine(lines, k) && Piece(lines[k]) == x;
    }
    if exists k :: 0 <= k < |lines| && IsTafseerLine(lines, k) && Piece(lines[k]) == x {
      var k :| 0 <= k < |lines| && IsTafseerLine(lines, k) && Piece(lines[k]) == x;
      assert TafseerPiece(lines)(k) == Some(x);
    }
  }

  /** `cleanContent(tafseerLines.join('\n\n'))`. */
  function SharedTafseer(lines: seq<string>): (t: string)
    ensures IsCleanContent(t)
    ensures |TafseerLines(lines)| == 0 ==> t == ""
  {
    assert CleanContent("") == "" by { CleanContentFixesClean(""); }
    CleanContent(Join(TafseerLines(lines), "\n\n"))
  }

  /** A block whose lines are all Arabic has no commentary. */
  lemma AllArabicNoTafseer(lines: seq<string>)
    requires forall k :: 0 <= k < |lines| ==> IsArabicLine(lines[k])
    ensures SharedTafseer(lines) == ""
  {
    forall k | 0 <= k < |lines| ensures TafseerPiece(lines)(k).None? {
      assert IsUsed(lines, k);
    }
    CollectNone(TafseerPiece(lines), 0, |lines|);
  }

  // ---------------------------------------------------------------------
  // parseBlock
  // ---------------------------------------------------------------------

  /** One parsed row of a block. */
  datatype BlockRow = BlockRow(ayahNumber: nat, arabicText: string, translation: string, tafseer: string)

  /** The row for the `idx`-th ayah of the range: its own pair, else the first pair, else
      an empty one. */
  function RowFor(ps: seq<Pair>, ayah: nat, idx: nat, tafseer: string): (r: BlockRow) {
    var pair := if idx < |ps| then ps[idx] else if |ps| > 0 then ps[0] else Pair("", "");
    BlockRow(ayah, NormalizeArabicText(pair.arabic), CleanContent(pair.translation), tafseer)
  }

  /** The rows of a block from its pairs, its ayah numbers and its commentary. */
  function BlockRows(ps: seq<Pair>, ayahs: seq<nat>, tafseer: string): (rows: seq<BlockRow>)
    ensures |rows| == |ayahs|
    ensures forall i :: 0 <= i < |rows| ==> rows[i] == RowFor(ps, ayahs[i], i, tafseer)
    ensures forall i :: 0 <= i < |rows| ==> rows[i].ayahNumber == ayahs[i] && rows[i].tafseer == tafseer
    ensures forall i :: 0 <= i < |rows| ==>
      IsNormalArabic(rows[i].arabicText) && IsCleanContent(rows[i].translation)
  {
    seq(|ayahs|, i requires 0 <= i < |ayahs| => RowFor(ps, ayahs[i], i, tafseer))
  }

  /** `parseBlock`: one row per ayah number of the label, all sharing the block's
      commentary; nothing when the label is not a number or range. */
  function ParseBlock(marker: string, body: string): (rows: seq<BlockRow>)
    ensures |rows| == |ParseAyahRange(marker)|
    ensures forall i :: 0 <= i < |rows| ==> rows[i].ayahNumber == ParseAyahRange(marker)[i]
    ensures forall i :: 0 <= i < |rows| ==> rows[i].tafseer == SharedTafseer(BlockLines(body))
    ensures forall i :: 0 <= i < |rows| ==>
      IsNormalArabic(rows[i].arabicText) && IsCleanContent(rows[i].translation)
  {
    var ayahs := ParseAyahRange(marker);
    if |ayahs| == 0 then []
    else
      var lines := BlockLines(body);
      BlockRows(Pairs(lines), ayahs, SharedTafseer(lines))
  }

  /** The `k`-th pair is made of the `k`-th Arabic line and its translation. */
  lemma PairsAt(lines: seq<string>, k: nat)
    requires k < |ArabicIndices(lines, 0)|
    ensures var idx := ArabicIndices(lines, 0);
      Pairs(lines)[k] == Pair(CleanContent(lines[idx[k]]), TranslationText(lines, idx[k]))
  {
  }

  /** The `i`-th row of a block. */
  lemma ParseBlockAt(marker: string, body: string, i: nat)
    requires i < |ParseBlock(marker, body)|
    ensures ParseBlock(marker, body)[i] ==
      RowFor(Pairs(BlockLines(body)), ParseAyahRange(marker)[i], i, SharedTafseer(BlockLines(body)))
  {
  }

  /** The `i`-th row takes its text from the `i`-th Arabic line and the translation found
      for it; rows beyond the Arabic lines repeat the first row's text; a block without
      Arabic lines gives rows without text. */
  lemma ParseBlockText(marker: string, body: string, i: nat)
    requires i < |ParseBlock(marker, body)|
    ensures var rows := ParseBlock(marker, body); var lines := BlockLines(body);
      var idx := ArabicIndices(lines, 0);
      (i < |idx| ==> rows[i].arabicText == NormalizeArabicText(CleanContent(lines[idx[i]])) &&
                     rows[i].translation == CleanContent(TranslationText(lines, idx[i]))) &&
      (|idx| > 0 && i >= |idx| ==> rows[i].arabicText == rows[0].arabicText &&
                                   rows[i].translation == rows[0].translation) &&
      (|idx| == 0 ==> rows[i].arabicText == NormalizeArabicText("") && rows[i].translation == "")
  {
    var lines := BlockLines(body);
    var idx := ArabicIndices(lines, 0);
    ParseBlockAt(marker, body, i);
    ParseBlockAt(marker, body, 0);
    if i < |idx| {
      PairsAt(lines, i);
    }
    assert CleanContent("") == "" by { CleanContentFixesClean(""); }
  }
}
