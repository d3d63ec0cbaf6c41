/**
 * The reader app's display cleaners (src/utils/textCleaner.js): `collapseSpaces`,
 * `stripDecorativeLines`, `cleanBase` and the two exported wrappers
 * `cleanArabicText` and `cleanBodyText`.
 */
module TextCleaner {
  import opened Chars
  import opened Strings
  import opened Seqs
  import opened JsValues
  import ParserText

  // ---------------------------------------------------------------------
  // collapseSpaces
  // ---------------------------------------------------------------------

  /** `.replace(/[ \t]{2,}/g, ' ').trim()`. */
  function CollapseSpaces(s: string): (r: string)
    ensures NoAdjacent(r, IsSpaceOrTab)
    ensures IsTrimmed(r, IsJsSpace)
    ensures forall c :: c in r ==> c in s || c == ' '
    ensures s == "" ==> r == ""
  {
    var t := ShrinkLongRuns(s, IsSpaceOrTab, ' ');
    var a := RunLength(t, IsJsSpace);
    var r := Trim(t, IsJsSpace);
    NoAdjacentSlice(t, IsSpaceOrTab, a, a + |r|);
    r
  }

  /** Text that already has single blanks and no surrounding whitespace is left as is. */
  lemma CollapseSpacesFixes(s: string)
    requires NoAdjacent(s, IsSpaceOrTab) && IsTrimmed(s, IsJsSpace)
    ensures CollapseSpaces(s) == s
  {
    assert ShrinkLongRuns(s, IsSpaceOrTab, ' ') == s;
  }

  /** A second application of `collapseSpaces` changes nothing. */
  lemma CollapseSpacesIdempotent(s: string)
    ensures CollapseSpaces(CollapseSpaces(s)) == CollapseSpaces(s)
  {
    CollapseSpacesFixes(CollapseSpaces(s));
  }

  /** When the text starts with a visible character, collapsing keeps it in front. */
  lemma CollapseSpacesHead(s: string)
    requires |s| > 0 && !IsJsSpace(s[0])
    ensures |CollapseSpaces(s)| > 0 && CollapseSpaces(s)[0] == s[0]
  {
    var t := ShrinkLongRuns(s, IsSpaceOrTab, ' ');
    assert |t| > 0 && t[0] == s[0];
    assert RunLength(t, IsJsSpace) == 0;
  }

  // ---------------------------------------------------------------------
  // stripDecorativeLines
  // ---------------------------------------------------------------------

  /** The class `[-_=~]` of horizontal rules. */
  predicate IsRuleChar(c: char) { c == '-' || c == '_' || c == '=' || c == '~' }

  /** The punctuation class ``[*#.,:;'"`|/\\()[\]{}<>%\-–—]``. */
  predicate IsPunctChar(c: char) {
    c == '*' || c == '#' || c == '.' || c == ',' || c == ':' || c == ';' || c == '\'' || c == '"' ||
    c == '`' || c == '|' || c == '/' || c == '\\' || c == '(' || c == ')' || c == '[' || c == ']' ||
    c == '{' || c == '}' || c == '<' || c == '>' || c == '%' || c == '-' || c == '\U{2013}' || c == '\U{2014}'
  }

  /** The class of mis-decoded bullet bytes (`â`, `€`, `¢`, `–`, `ª`, `ï`, `¸` and U+008F). */
  predicate IsMojibake(c: char) {
    c == '\U{00E2}' || c == '\U{20AC}' || c == '\U{00A2}' || c == '\U{2013}' || c == '\U{00AA}' ||
    c == '\U{00EF}' || c == '\U{00B8}' || c == '\U{008F}'
  }

  /** A line that is blank, a rule of three or more `-_=~`, or only punctuation or only
      mis-decoded bullets once trimmed. */
  predicate IsDecorative(line: string) {
    var t := JsTrim(line);
    t == "" || (|t| >= 3 && All(t, IsRuleChar)) || All(t, IsPunctChar) || All(t, IsMojibake)
  }

  predicate NotDecorative(line: string) { !IsDecorative(line) }

  /** `stripDecorativeLines`: the lines that carry content, in order. */
  function StripDecorativeLines(lines: seq<string>): (r: seq<string>)
    ensures IsSublist(r, lines)
    ensures forall l :: l in r <==> l in lines && !IsDecorative(l)
  {
    Filter(lines, NotDecorative)
  }

  /** A second pass drops nothing more. */
  lemma StripDecorativeLinesIdempotent(lines: seq<string>)
    ensures StripDecorativeLines(StripDecorativeLines(lines)) == StripDecorativeLines(lines)
  {
    var r := StripDecorativeLines(lines);
    assert forall i :: 0 <= i < |r| ==> NotDecorative(r[i]) by {
      assert forall i :: 0 <= i < |r| ==> r[i] in r;
    }
  }

  // ---------------------------------------------------------------------
  // cleanBase
  // ---------------------------------------------------------------------

  /** Not a carriage return. */
  predicate UnbrokenChar(c: char) { !IsCR(c) }

  /** Not a carriage return or a zero-width character. */
  predicate VisibleChar(c: char) { UnbrokenChar(c) && !IsZeroWidth(c) }

  /** Nor a curly quote. */
  predicate StraightChar(c: char) { VisibleChar(c) && !IsCurlyDouble(c) && !IsCurlySingle(c) }

  /** Nor an emoji. */
  predicate EmojiFreeChar(c: char) { StraightChar(c) && !IsEmoji(c) }

  /** Nor a dingbat. */
  predicate PlainChar(c: char) { EmojiFreeChar(c) && !IsDingbat(c) }

  /** A character the character-level steps of `cleanBase` leave alone: not a carriage
      return, zero-width character, curly quote, emoji, dingbat or mis-decoded bullet. */
  predicate Allowed(c: char) { PlainChar(c) && !IsMojibake(c) }

  /** Line endings unified: `\r\n`, then every remaining `\r`, become `\n`. */
  function Unbroken(t: string): (r: string)
    ensures All(r, UnbrokenChar)
  {
    UnifyLineEnds(t)
  }

  /** Then zero-width characters dropped. */
  function Visible(t: string): (r: string)
    ensures All(r, VisibleChar)
  {
    var u := Unbroken(t);
    var r := RemoveWhere(u, IsZeroWidth);
    AllFromChars(u, r, UnbrokenChar, '\n');
    r
  }

  /** Then curly quotes folded to straight ones. */
  function Straight(t: string): (r: string)
    ensures All(r, StraightChar)
  {
    MapChars(Visible(t), ParserText.FoldQuote)
  }

  /** Then emoji dropped. */
  function EmojiFree(t: string): (r: string)
    ensures All(r, EmojiFreeChar)
  {
    var u := Straight(t);
    var r := RemoveWhere(u, IsEmoji);
    AllFromChars(u, r, StraightChar, '\n');
    r
  }

  /** Then dingbats dropped. */
  function Plain(t: string): (r: string)
    ensures All(r, PlainChar)
  {
    var u := EmojiFree(t);
    var r := RemoveWhere(u, IsDingbat);
    AllFromChars(u, r, EmojiFreeChar, '\n');
    r
  }

  /** The character-level steps: line endings to `\n`, zero-width characters dropped,
      curly quotes folded, emoji and dingbats dropped, each run of mis-decoded bullets
      turned into a space. */
  function Prepare(t: string): (r: string)
    ensures All(r, Allowed)
  {
    var u := Plain(t);
    var r := SquashRuns(u, IsMojibake, ' ');
    AllFromChars(u, r, PlainChar, ' ');
    r
  }

  /** Text the character-level steps leave alone passes them unchanged. */
  lemma PrepareFixes(t: string)
    requires All(t, Allowed)
    ensures Prepare(t) == t
  {
    assert '\r' !in t by {
      forall c | c in t ensures c != '\r' {
        var i :| 0 <= i < |t| && t[i] == c;
      }
    }
    assert Unbroken(t) == t;
    assert Visible(t) == t;
    assert Straight(t) == t;
    assert EmojiFree(t) == t;
    assert Plain(t) == t;
  }

  /** A cleaned line: bullets and blanks stripped from its start, then `collapseSpaces`. */
  function CleanLine(line: string): (r: string)
    ensures forall c :: c in r ==> c in line || c == ' '
  {
    CollapseSpaces(TrimLeft(line, IsLeadGlyph))
  }

  /** The layout of a cleaned line: non-empty, a single line, trimmed, with single blanks,
      and not starting with a bullet or dash. */
  predicate LaidOut(l: string) {
    l != "" && '\n' !in l && IsTrimmed(l, IsJsSpace) && NoAdjacent(l, IsSpaceOrTab) && !IsLeadGlyph(l[0])
  }

  /** What every line of `cleanBase`'s output is: laid out, not decorative, and made of
      characters the character-level steps leave alone. */
  predicate GoodLine(l: string) {
    LaidOut(l) && NotDecorative(l) && All(l, Allowed)
  }

  predicate NonEmpty(l: string) { l != "" }

  /** A line of prepared text that survives the filters is good. */
  lemma CleanLineGood(line: string)
    requires '\n' !in line && All(line, Allowed)
    requires CleanLine(line) != "" && !IsDecorative(CleanLine(line))
    ensures GoodLine(CleanLine(line))
  {
    var u := TrimLeft(line, IsLeadGlyph);
    var l := CleanLine(line);
    if |u| > 0 {
      CollapseSpacesHead(u);
    }
    AllFromChars(line, l, Allowed, ' ');
  }

  /** A good line is its own cleaned form. */
  lemma CleanLineFixes(l: string)
    requires LaidOut(l)
    ensures CleanLine(l) == l
  {
    CollapseSpacesFixes(l);
  }

  /** Each line cleaned (the `.map` step). */
  function CleanEach(parts: seq<string>): (r: seq<string>)
    ensures |r| == |parts| && forall i :: 0 <= i < |parts| ==> r[i] == CleanLine(parts[i])
  {
    seq(|parts|, i requires 0 <= i < |parts| => CleanLine(parts[i]))
  }

  /** The line-level steps: split, clean each line, drop empty and decorative lines. */
  function CleanLines(t: string): (lines: seq<string>)
    requires All(t, Allowed)
    ensures forall i :: 0 <= i < |lines| ==> GoodLine(lines[i])
  {
    var parts := Split(t, '\n');
    var kept := StripDecorativeLines(Filter(CleanEach(parts), NonEmpty));
    KeptLinesGood(t, parts, kept);
    kept
  }

  lemma KeptLinesGood(t: string, parts: seq<string>, kept: seq<string>)
    requires All(t, Allowed) && parts == Split(t, '\n')
    requires kept == StripDecorativeLines(Filter(CleanEach(parts), NonEmpty))
    ensures forall i :: 0 <= i < |kept| ==> GoodLine(kept[i])
  {
    var cleaned := CleanEach(parts);
    var nonEmpty := Filter(cleaned, NonEmpty);
    forall i | 0 <= i < |kept| ensures GoodLine(kept[i]) {
      var k := FilterOrigin(nonEmpty, NotDecorative, i);
      var j := FilterOrigin(cleaned, NonEmpty, k);
      PartAll(parts, "\n", Allowed, j);
      CleanLineGood(parts[j]);
    }
  }

  /** Good lines survive the filters of the line-level steps. */
  lemma GoodLinesKept(lines: seq<string>)
    requires forall i :: 0 <= i < |lines| ==> GoodLine(lines[i])
    ensures StripDecorativeLines(Filter(lines, NonEmpty)) == lines
  {
    assert Filter(lines, NonEmpty) == lines;
  }

  /** Good lines joined by line feeds are made of allowed characters. */
  lemma GoodLinesAllowed(lines: seq<string>)
    requires forall i :: 0 <= i < |lines| ==> GoodLine(lines[i])
    ensures All(Join(lines, "\n"), Allowed)
  {
    assert Allowed('\n');
    JoinAll(lines, "\n", Allowed);
  }

  /** Good lines joined by line feeds are made of allowed characters and pass the
      line-level steps unchanged. */
  lemma CleanLinesFixes(lines: seq<string>)
    requires |lines| > 0 && forall i :: 0 <= i < |lines| ==> GoodLine(lines[i])
    ensures All(Join(lines, "\n"), Allowed)
    ensures CleanLines(Join(lines, "\n")) == lines
  {
    var t := Join(lines, "\n");
    GoodLinesAllowed(lines);
    SplitJoin(lines, '\n');
    CleanEachFixes(lines);
    GoodLinesKept(lines);
    assert CleanLines(t) == StripDecorativeLines(Filter(CleanEach(lines), NonEmpty));
  }

  /** Cleaning good lines one by one changes none of them. */
  lemma CleanEachFixes(lines: seq<string>)
    requires forall i :: 0 <= i < |lines| ==> GoodLine(lines[i])
    ensures CleanEach(lines) == lines
  {
    forall i | 0 <= i < |lines| ensures CleanLine(lines[i]) == lines[i] {
      CleanLineFixes(lines[i]);
    }
  }

  /** Good lines joined by line feeds: no double line feed, no double blank, no surrounding
      whitespace, and no line starting with a bullet, dash or blank. */
  lemma JoinGoodLines(lines: seq<string>)
    requires forall i :: 0 <= i < |lines| ==> LaidOut(lines[i])
    ensures NoAdjacent(Join(lines, "\n"), IsNewline)
    ensures NoAdjacent(Join(lines, "\n"), IsSpaceOrTab)
    ensures IsTrimmed(Join(lines, "\n"), IsJsSpace)
    ensures forall i :: 0 <= i < |Join(lines, "\n")| && (i == 0 || Join(lines, "\n")[i - 1] == '\n') ==>
      !IsLeadGlyph(Join(lines, "\n")[i])
  {
    forall i | 0 <= i < |lines|
      ensures |lines[i]| > 0 && IsTrimmed(lines[i], IsNewline) && NoAdjacent(lines[i], IsNewline)
    {
      forall k | 0 <= k < |lines[i]| ensures !IsNewline(lines[i][k]) {
        assert lines[i][k] in lines[i];
      }
    }
    JoinNoAdjacentAround(lines, '\n', IsNewline);
    JoinNoAdjacent(lines, '\n', IsSpaceOrTab);
    JoinTrimmed(lines, "\n", IsJsSpace);
    JoinStarts(lines, '\n', IsLeadGlyph);
  }

  /** `cleanBase`: the empty string for a falsy value; otherwise the character-level
      steps, the line-level steps, the lines joined, runs of three or more line feeds
      squeezed to two, and the result trimmed. */
  function CleanBase(v: JsValue): (r: string)
    ensures !Truthy(v) ==> r == ""
    ensures All(r, Allowed)
  {
    if !Truthy(v) then ""
    else
      var t := Prepare(ToStr(v));
      var joined := Join(CleanLines(t), "\n");
      var r := JsTrim(ParserText.CollapseNewlines(joined));
      CleanBaseIsJoin(t);
      r
  }

  /** The squeeze and trim steps find nothing to do: the output is the good lines
      joined. */
  lemma CleanBaseIsJoin(t: string)
    requires All(t, Allowed)
    ensures JsTrim(ParserText.CollapseNewlines(Join(CleanLines(t), "\n"))) == Join(CleanLines(t), "\n")
    ensures All(Join(CleanLines(t), "\n"), Allowed)
  {
    var lines := CleanLines(t);
    JoinedFixed(lines);
    GoodLinesAllowed(lines);
  }

  /** Squeezing line feeds and trimming leave laid-out lines joined by line feeds alone. */
  lemma JoinedFixed(lines: seq<string>)
    requires forall i :: 0 <= i < |lines| ==> GoodLine(lines[i])
    ensures JsTrim(ParserText.CollapseNewlines(Join(lines, "\n"))) == Join(lines, "\n")
  {
    GoodLinesJoined(lines);
    SqueezedTrimmedFixed(Join(lines, "\n"));
  }

  /** A trimmed text without two line breaks in a row is left alone by the squeeze and
      the trim. */
  lemma SqueezedTrimmedFixed(t: string)
    requires NoAdjacent(t, IsNewline) && IsTrimmed(t, IsJsSpace)
    ensures JsTrim(ParserText.CollapseNewlines(t)) == t
  {
    assert ParserText.NoTripleNewline(t) by {
      assert forall i :: 0 <= i < |t| - 2 ==> !(IsNewline(t[i]) && IsNewline(t[i + 1]));
    }
    ParserText.CollapseNewlinesIdentity(t);
  }

  /** `JoinGoodLines` for good lines. */
  lemma GoodLinesJoined(lines: seq<string>)
    requires forall i :: 0 <= i < |lines| ==> GoodLine(lines[i])
    ensures NoAdjacent(Join(lines, "\n"), IsNewline)
    ensures NoAdjacent(Join(lines, "\n"), IsSpaceOrTab)
    ensures IsTrimmed(Join(lines, "\n"), IsJsSpace)
    ensures forall i :: 0 <= i < |Join(lines, "\n")| && (i == 0 || Join(lines, "\n")[i - 1] == '\n') ==>
      !IsLeadGlyph(Join(lines, "\n")[i])
  {
    JoinGoodLines(lines);
  }

  /** What `cleanBase` returns is made of good lines joined by single line feeds: so it
      has no empty line, no double blank and no surrounding whitespace, and no line starts
      with a bullet, dash or blank. */
  lemma CleanBaseShape(v: JsValue)
    ensures NoAdjacent(CleanBase(v), IsNewline)
    ensures NoAdjacent(CleanBase(v), IsSpaceOrTab)
    ensures IsTrimmed(CleanBase(v), IsJsSpace)
    ensures forall i :: 0 <= i < |CleanBase(v)| && (i == 0 || CleanBase(v)[i - 1] == '\n') ==>
      !IsLeadGlyph(CleanBase(v)[i])
  {
    if Truthy(v) {
      var t := Prepare(ToStr(v));
      CleanBaseIsJoin(t);
      GoodLinesJoined(CleanLines(t));
    }
  }

  /** Cleaning cleaned text changes nothing. */
  lemma CleanBaseIdempotent(v: JsValue)
    ensures CleanBase(Str(CleanBase(v))) == CleanBase(v)
  {
    if Truthy(v) {
      var t := Prepare(ToStr(v));
      CleanBaseIsJoin(t);
      CleanBaseOfGoodLines(CleanLines(t));
    }
  }

  /** Good lines joined by line feeds are their own `cleanBase`. */
  lemma CleanBaseOfGoodLines(lines: seq<string>)
    requires forall i :: 0 <= i < |lines| ==> GoodLine(lines[i])
    ensures CleanBase(Str(Join(lines, "\n"))) == Join(lines, "\n")
  {
    if |lines| > 0 {
      var r := Join(lines, "\n");
      assert |lines[0]| > 0;
      JoinTrimmed(lines, "\n", IsNoChar);
      assert Truthy(Str(r)) && ToStr(Str(r)) == r;
      CleanLinesFixes(lines);
      PrepareFixes(r);
      JoinedFixed(lines);
      CleanBaseSteps(Str(r));
    }
  }

  /** `cleanBase` of a truthy value, step by step. */
  lemma CleanBaseSteps(v: JsValue)
    requires Truthy(v)
    ensures CleanBase(v) == JsTrim(ParserText.CollapseNewlines(Join(CleanLines(Prepare(ToStr(v))), "\n")))
  {
  }

  // ---------------------------------------------------------------------
  // cleanArabicText and cleanBodyText
  // ---------------------------------------------------------------------

  /** The markdown and star class ``[*_`~٭✱✲✳✴✶✷✸✹✺✻✼✽✾✿❇❈❉❊❋⭐🌟]``. */
  predicate IsStarMark(c: char) {
    c == '*' || c == '_' || c == '`' || c == '~' || c == '\U{066D}' || ('\U{2731}' <= c <= '\U{2734}') ||
    ('\U{2736}' <= c <= '\U{273F}') || ('\U{2747}' <= c <= '\U{274B}') || c == '\U{2B50}' || c == '\U{1F31F}'
  }

  predicate NotStarMark(c: char) { !IsStarMark(c) }

  /** The Arabic-only steps: each run of star marks turned into a space, then
      `collapseSpaces` and a trim. */
  function StripStars(s: string): (r: string)
    ensures All(r, NotStarMark)
    ensures All(s, Allowed) ==> All(r, Allowed)
    ensures NoAdjacent(r, IsSpaceOrTab) && IsTrimmed(r, IsJsSpace)
    ensures s == "" ==> r == ""
  {
    var starless := SquashRuns(s, IsStarMark, ' ');
    var collapsed := CollapseSpaces(starless);
    StripStarsAllowed(s, starless, collapsed);
    JsTrim(collapsed)
  }

  lemma StripStarsAllowed(s: string, starless: string, collapsed: string)
    requires starless == SquashRuns(s, IsStarMark, ' ') && collapsed == CollapseSpaces(starless)
    ensures All(collapsed, NotStarMark)
    ensures All(s, Allowed) ==> All(collapsed, Allowed)
    ensures s == "" ==> collapsed == ""
  {
    SquashRunsAvoids(s, IsStarMark, ' ', collapsed);
    if All(s, Allowed) {
      StarlessAllowed(s, starless, collapsed);
    }
  }

  lemma StarlessAllowed(s: string, starless: string, collapsed: string)
    requires All(s, Allowed)
    requires forall c :: c in starless ==> c in s || c == ' '
    requires forall c :: c in collapsed ==> c in starless || c == ' '
    ensures All(collapsed, Allowed)
  {
    assert Allowed(' ');
    AllFromChars(s, starless, Allowed, ' ');
    AllFromChars(starless, collapsed, Allowed, ' ');
  }

  /** `cleanArabicText`: `cleanBase`, then the Arabic-only steps. */
  function CleanArabicText(v: JsValue): (r: string)
    ensures All(r, NotStarMark) && All(r, Allowed)
    ensures NoAdjacent(r, IsSpaceOrTab)
    ensures IsTrimmed(r, IsJsSpace)
    ensures !Truthy(v) ==> r == ""
  {
    StripStars(CleanBase(v))
  }

  /** A character outside the Basic Multilingual Plane one of whose UTF-16 halves is a
      half of `🌟` (U+1F31F, written D83C DF1F): the star class carries no `u` flag, so it
      holds those halves on their own and splits such a character. */
  predicate HasStarHalf(c: char) {
    var n := c as int;
    n >= 0x10000 && ((n - 0x10000) / 0x400 == 0x3C || (n - 0x10000) % 0x400 == 0x31F)
  }

  predicate NoStarHalf(c: char) { !HasStarHalf(c) }

  /** On text without star marks, and without a character the class would split, the
      Arabic cleaner is `cleanBase` itself. */
  lemma CleanArabicTextOfPlain(v: JsValue)
    requires All(CleanBase(v), NotStarMark) && All(CleanBase(v), NoStarHalf)
    ensures CleanArabicText(v) == CleanBase(v)
  {
    var base := CleanBase(v);
    assert SquashRuns(base, IsStarMark, ' ') == base;
    CleanBaseShape(v);
    CollapseSpacesFixes(base);
  }

  /** `cleanBodyText`: the base cleaner. */
  function CleanBodyText(v: JsValue): (r: string)
    ensures !Truthy(v) ==> r == ""
    ensures All(r, Allowed)
  {
    CleanBase(v)
  }

  /** Cleaning body text twice is cleaning it once. */
  lemma CleanBodyTextIdempotent(v: JsValue)
    ensures CleanBodyText(Str(CleanBodyText(v))) == CleanBodyText(v)
  {
    CleanBaseIdempotent(v);
  }
}
