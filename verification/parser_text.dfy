/**
 * The admin panel's text normalisers for pasted Telegram posts
 * (ruju-admin-panel/src/utils/parser.js): `cleanContent`,
 * `normalizeArabicText`, `normalizeLine` and `unwrapTranslation`.
 */
module ParserText {
  import opened Chars
  import opened Strings

  // ---------------------------------------------------------------------
  // cleanContent
  // ---------------------------------------------------------------------

  /** No space or tab immediately before a line feed. */
  predicate NoSpaceBeforeNewline(s: string) {
    forall i :: 0 <= i < |s| - 1 ==> !(IsSpaceOrTab(s[i]) && s[i + 1] == '\n')
  }

  /** No three consecutive line feeds. */
  predicate NoTripleNewline(s: string) {
    forall i :: 0 <= i < |s| - 2 ==> !(s[i] == '\n' && s[i + 1] == '\n' && s[i + 2] == '\n')
  }

  /** The shape `cleanContent` produces: no carriage return, no trailing blanks on a line,
      at most one empty line in a row, and no surrounding whitespace. */
  predicate IsCleanContent(s: string) {
    '\r' !in s && NoSpaceBeforeNewline(s) && NoTripleNewline(s) && IsTrimmed(s, IsJsSpace)
  }

  lemma CleanShapeSlice(s: string, a: nat, b: nat)
    requires a <= b <= |s|
    ensures NoSpaceBeforeNewline(s) ==> NoSpaceBeforeNewline(s[a..b])
    ensures NoTripleNewline(s) ==> NoTripleNewline(s[a..b])
  {
    var t := s[a..b];
    assert forall i :: 0 <= i < |t| ==> t[i] == s[a + i];
  }

  lemma CleanShapeSuffix(s: string, a: nat)
    requires a <= |s|
    ensures NoSpaceBeforeNewline(s) ==> NoSpaceBeforeNewline(s[a..])
    ensures NoTripleNewline(s) ==> NoTripleNewline(s[a..])
  {
    var t := s[a..];
    assert forall i :: 0 <= i < |t| ==> t[i] == s[a + i];
  }

  /** `.replace(/[ \t]+\n/g, '\n')`. */
  function StripSpaceBeforeNewline(s: string): (r: string)
    ensures forall c :: c in r ==> c in s
    ensures |s| > 0 && !IsSpaceOrTab(s[0]) ==> |r| > 0 && r[0] == s[0]
    decreases |s|
  {
    if |s| == 0 then []
    else if IsSpaceOrTab(s[0]) then
      var k := RunLength(s, IsSpaceOrTab);
      if k < |s| && s[k] == '\n' then "\n" + StripSpaceBeforeNewline(s[k + 1..])
      else s[..k] + StripSpaceBeforeNewline(s[k..])
    else
      [s[0]] + StripSpaceBeforeNewline(s[1..])
  }

  /** Two texts without a blank before a line feed, where the first does not end in a
      blank right before a line feed opening the second, join into one without. */
  lemma NoSpaceBeforeNewlineJoin(x: string, y: string)
    requires NoSpaceBeforeNewline(x) && NoSpaceBeforeNewline(y)
    requires |x| > 0 && |y| > 0 ==> !(IsSpaceOrTab(x[|x| - 1]) && y[0] == '\n')
    ensures NoSpaceBeforeNewline(x + y)
  {
    var r := x + y;
    forall i | 0 <= i < |r| - 1 ensures !(IsSpaceOrTab(r[i]) && r[i + 1] == '\n') {
      if i >= |x| {
        assert r[i] == y[i - |x|] && r[i + 1] == y[i - |x| + 1];
      } else if i < |x| - 1 {
        assert r[i] == x[i] && r[i + 1] == x[i + 1];
      } else {
        assert r[i + 1] == y[0];
      }
    }
  }

  /** A run of blanks has no blank before a line feed. */
  lemma BlankRunClean(s: string, k: nat)
    requires k <= |s| && forall i :: 0 <= i < k ==> IsSpaceOrTab(s[i])
    ensures NoSpaceBeforeNewline(s[..k])
  {
    assert forall i :: 0 <= i < k ==> s[..k][i] == s[i];
  }

  lemma {:induction false} StripSpaceBeforeNewlineSound(s: string)
    ensures NoSpaceBeforeNewline(StripSpaceBeforeNewline(s))
    decreases |s|
  {
    if |s| > 0 {
      if IsSpaceOrTab(s[0]) {
        var k := RunLength(s, IsSpaceOrTab);
        if k < |s| && s[k] == '\n' {
          StripSpaceBeforeNewlineSound(s[k + 1..]);
          NoSpaceBeforeNewlineJoin("\n", StripSpaceBeforeNewline(s[k + 1..]));
        } else {
          StripSpaceBeforeNewlineSound(s[k..]);
          BlankRunClean(s, k);
          NoSpaceBeforeNewlineJoin(s[..k], StripSpaceBeforeNewline(s[k..]));
        }
      } else {
        StripSpaceBeforeNewlineSound(s[1..]);
        NoSpaceBeforeNewlineJoin([s[0]], StripSpaceBeforeNewline(s[1..]));
      }
    }
  }

  lemma {:induction false} StripSpaceBeforeNewlineIdentity(s: string)
    requires NoSpaceBeforeNewline(s)
    ensures StripSpaceBeforeNewline(s) == s
    decreases |s|
  {
    if |s| > 0 {
      if IsSpaceOrTab(s[0]) {
        var k := RunLength(s, IsSpaceOrTab);
        assert !(k < |s| && s[k] == '\n') by {
          assert IsSpaceOrTab(s[k - 1]);
        }
        CleanShapeSuffix(s, k);
        StripSpaceBeforeNewlineIdentity(s[k..]);
        assert s == s[..k] + s[k..];
      } else {
        CleanShapeSuffix(s, 1);
        StripSpaceBeforeNewlineIdentity(s[1..]);
      }
    }
  }

  /** `.replace(/\n{3,}/g, '\n\n')`. */
  function CollapseNewlines(s: string): (r: string)
    ensures forall c :: c in r ==> c in s
    ensures |s| > 0 ==> |r| > 0 && r[0] == s[0]
    decreases |s|
  {
    if |s| == 0 then []
    else if s[0] == '\n' then
      var k := RunLength(s, IsNewline);
      (if k >= 3 then "\n\n" else s[..k]) + CollapseNewlines(s[k..])
    else
      [s[0]] + CollapseNewlines(s[1..])
  }

  lemma {:induction false} CollapseNewlinesNoTriple(s: string)
    ensures NoTripleNewline(CollapseNewlines(s))
    decreases |s|
  {
    if |s| > 0 {
      var r := CollapseNewlines(s);
      if s[0] == '\n' {
        var k := RunLength(s, IsNewline);
        CollapseNewlinesNoTriple(s[k..]);
        var head := if k >= 3 then "\n\n" else s[..k];
        var rest := CollapseNewlines(s[k..]);
        assert r == head + rest;
        assert |head| <= 2;
        assert k < |s| ==> rest[0] == s[k] && s[k] != '\n';
        forall i | 0 <= i < |r| - 2 ensures !(r[i] == '\n' && r[i + 1] == '\n' && r[i + 2] == '\n') {
          if i >= |head| {
            assert r[i] == rest[i - |head|] && r[i + 1] == rest[i - |head| + 1] && r[i + 2] == rest[i - |head| + 2];
          } else {
            assert r[|head|] == rest[0];
          }
        }
      } else {
        CollapseNewlinesNoTriple(s[1..]);
        var rest := CollapseNewlines(s[1..]);
        assert r == [s[0]] + rest;
        forall i | 1 <= i < |r| - 2 ensures !(r[i] == '\n' && r[i + 1] == '\n' && r[i + 2] == '\n') {
          assert r[i] == rest[i - 1] && r[i + 1] == rest[i] && r[i + 2] == rest[i + 1];
        }
      }
    }
  }

  /** Without three line feeds in a row, a run of them is at most two long. */
  lemma NewlineRunShort(s: string)
    requires NoTripleNewline(s)
    ensures RunLength(s, IsNewline) < 3
  {
    if |s| >= 3 {
      assert !(s[0] == '\n' && s[1] == '\n' && s[2] == '\n');
    }
  }

  /** A run of one or two line feeds is kept as it is. */
  lemma CollapseShortRun(s: string)
    requires |s| > 0 && s[0] == '\n' && RunLength(s, IsNewline) < 3
    ensures var k := RunLength(s, IsNewline);
      CollapseNewlines(s) == s[..k] + CollapseNewlines(s[k..])
  {
  }

  /** Any other character is kept as it is. */
  lemma CollapseOther(s: string)
    requires |s| > 0 && s[0] != '\n'
    ensures CollapseNewlines(s) == [s[0]] + CollapseNewlines(s[1..])
  {
  }

  lemma {:induction false} CollapseNewlinesIdentity(s: string)
    requires NoTripleNewline(s)
    ensures CollapseNewlines(s) == s
    decreases |s|, 1
  {
    if |s| > 0 {
      if s[0] == '\n' {
        CollapseRunIdentity(s);
      } else {
        CollapseOther(s);
        CleanShapeSuffix(s, 1);
        CollapseNewlinesIdentity(s[1..]);
      }
    }
  }

  /** The step of `CollapseNewlinesIdentity` at a run of line feeds. */
  lemma {:induction false} CollapseRunIdentity(s: string)
    requires NoTripleNewline(s) && |s| > 0 && s[0] == '\n'
    ensures CollapseNewlines(s) == s
    decreases |s|, 0
  {
    var k := RunLength(s, IsNewline);
    NewlineRunShort(s);
    CollapseShortRun(s);
    CleanShapeSuffix(s, k);
    CollapseNewlinesIdentity(s[k..]);
    assert s == s[..k] + s[k..];
  }

  lemma {:induction false} CollapseNewlinesKeepsNoSpace(s: string)
    requires NoSpaceBeforeNewline(s)
    ensures NoSpaceBeforeNewline(CollapseNewlines(s))
    decreases |s|
  {
    if |s| > 0 {
      var r := CollapseNewlines(s);
      if s[0] == '\n' {
        var k := RunLength(s, IsNewline);
        CleanShapeSuffix(s, k);
        CollapseNewlinesKeepsNoSpace(s[k..]);
        var head := if k >= 3 then "\n\n" else s[..k];
        var rest := CollapseNewlines(s[k..]);
        assert r == head + rest;
        assert forall i :: 0 <= i < |head| ==> head[i] == '\n';
        forall i | 0 <= i < |r| - 1 ensures !(IsSpaceOrTab(r[i]) && r[i + 1] == '\n') {
          if i >= |head| {
            assert r[i] == rest[i - |head|] && r[i + 1] == rest[i - |head| + 1];
          } else {
            assert r[i] == head[i];
          }
        }
      } else {
        CleanShapeSuffix(s, 1);
        CollapseNewlinesKeepsNoSpace(s[1..]);
        var rest := CollapseNewlines(s[1..]);
        assert r == [s[0]] + rest;
        assert |s| > 1 ==> rest[0] == s[1];
        forall i | 0 <= i < |r| - 1 ensures !(IsSpaceOrTab(r[i]) && r[i + 1] == '\n') {
          if i >= 1 {
            assert r[i] == rest[i - 1] && r[i + 1] == rest[i];
          }
        }
      }
    }
  }

  /** The last three steps of `cleanContent` turn any text without carriage returns into
      clean text. */
  lemma CleanContentShape(t: string)
    requires '\r' !in t
    ensures IsCleanContent(JsTrim(CollapseNewlines(StripSpaceBeforeNewline(t))))
  {
    var t2 := StripSpaceBeforeNewline(t);
    StripSpaceBeforeNewlineSound(t);
    var t3 := CollapseNewlines(t2);
    CollapseNewlinesNoTriple(t2);
    CollapseNewlinesKeepsNoSpace(t2);
    assert '\r' !in t3;
    TrimKeepsCleanShape(t3);
  }

  lemma TrimKeepsCleanShape(t: string)
    requires '\r' !in t && NoSpaceBeforeNewline(t) && NoTripleNewline(t)
    ensures IsCleanContent(JsTrim(t))
  {
    var r := Trim(t, IsJsSpace);
    var a := RunLength(t, IsJsSpace);
    assert r == t[a..a + |r|];
    CleanShapeSlice(t, a, a + |r|);
    assert '\r' !in r;
  }

  /** `cleanContent`: drop carriage returns, drop blanks before line feeds, squeeze three or
      more line feeds to two, trim. */
  function CleanContent(s: string): (r: string)
    ensures IsCleanContent(r)
    ensures forall c :: c in r ==> c in s
  {
    var t1 := RemoveWhere(s, IsCR);
    assert '\r' !in t1 by {
      assert forall i :: 0 <= i < |t1| ==> !IsCR(t1[i]);
    }
    CleanContentShape(t1);
    JsTrim(CollapseNewlines(StripSpaceBeforeNewline(t1)))
  }

  /** Clean text is left unchanged. */
  lemma CleanContentFixesClean(s: string)
    requires IsCleanContent(s)
    ensures CleanContent(s) == s
  {
    assert forall i :: 0 <= i < |s| ==> !IsCR(s[i]);
    assert RemoveWhere(s, IsCR) == s;
    StripSpaceBeforeNewlineIdentity(s);
    CollapseNewlinesIdentity(s);
  }

  /** A second application of `cleanContent` changes nothing. */
  lemma CleanContentIdempotent(s: string)
    ensures CleanContent(CleanContent(s)) == CleanContent(s)
  {
    CleanContentFixesClean(CleanContent(s));
  }

  // ---------------------------------------------------------------------
  // normalizeArabicText
  // ---------------------------------------------------------------------

  /** Curly quotes folded to their ASCII forms. */
  function FoldQuote(c: char): (r: char)
    ensures !IsCurlyDouble(r) && !IsCurlySingle(r)
    ensures !IsCurlyDouble(c) && !IsCurlySingle(c) ==> r == c
  {
    if IsCurlyDouble(c) then '"' else if IsCurlySingle(c) then '\'' else c
  }

  /** Not a carriage return, curly quote or markdown mark. */
  predicate NotMarkup(c: char) {
    !IsCR(c) && !IsCurlyDouble(c) && !IsCurlySingle(c) && !IsMarkdownMark(c)
  }

  predicate NotEmoji(c: char) { !IsEmoji(c) }

  /** A character `normalizeArabicText` may leave in its output. */
  predicate NotArabicNoise(c: char) { NotMarkup(c) && NotEmoji(c) }

  /** The shape `normalizeArabicText` produces: no carriage return, curly quote, markdown mark
      or emoji, no two adjacent blanks, no surrounding whitespace. */
  predicate IsNormalArabic(s: string) {
    All(s, NotArabicNoise) && NoAdjacent(s, IsSpaceOrTab) && IsTrimmed(s, IsJsSpace)
  }

  /** Steps one to three: drop carriage returns, fold curly quotes, turn each run of markdown
      marks into a space. */
  function StripMarkup(s: string): (r: string)
    ensures All(r, NotMarkup)
    ensures forall c :: c in r ==> c in s || c in {' ', '"', '\''}
  {
    var t1 := RemoveWhere(s, IsCR);
    var t2 := MapChars(t1, FoldQuote);
    assert forall i :: 0 <= i < |t2| ==> !IsCR(t2[i]) && !IsCurlyDouble(t2[i]) && !IsCurlySingle(t2[i]);
    assert forall c :: c in t2 ==> c in t1 || c in {'"', '\''};
    var t3 := SquashRuns(t2, IsMarkdownMark, ' ');
    assert forall i :: 0 <= i < |t3| ==> t3[i] in t2 || t3[i] == ' ';
    t3
  }

  /** Steps one to four: `StripMarkup`, then strip leading bullets and whitespace. */
  function ArabicPrefixSteps(s: string): (r: string)
    ensures All(r, NotMarkup)
    ensures forall c :: c in r ==> c in s || c in {' ', '"', '\''}
  {
    var t3 := StripMarkup(s);
    var t4 := TrimLeft(t3, IsLeadGlyph);
    assert forall i :: 0 <= i < |t4| ==> t4[i] in t3;
    t4
  }

  /** Steps five and six: drop emoji, squeeze blank runs. */
  function DropEmojiSqueeze(s: string): (r: string)
    ensures All(r, NotEmoji)
    ensures All(s, NotMarkup) ==> All(r, NotMarkup)
    ensures NoAdjacent(r, IsSpaceOrTab)
    ensures forall c :: c in r ==> c in s || c == ' '
  {
    var t5 := RemoveWhere(s, IsEmoji);
    var t6 := ShrinkLongRuns(t5, IsSpaceOrTab, ' ');
    assert All(t5, NotEmoji);
    AllFromChars(t5, t6, NotEmoji, ' ');
    assert All(s, NotMarkup) ==> All(t6, NotMarkup) by {
      if All(s, NotMarkup) {
        AllFromChars(s, t5, NotMarkup, ' ');
        AllFromChars(t5, t6, NotMarkup, ' ');
      }
    }
    t6
  }

  /** Steps five to seven: `DropEmojiSqueeze`, then trim. */
  function ArabicSuffixSteps(s: string): (r: string)
    ensures All(s, NotMarkup) ==> IsNormalArabic(r)
    ensures forall c :: c in r ==> c in s || c == ' '
  {
    var t6 := DropEmojiSqueeze(s);
    TrimSqueezed(t6);
    JsTrim(t6)
  }

  /** Trimming text without emoji or adjacent blanks keeps both, and keeps it free of
      markup when it was. */
  lemma TrimSqueezed(t: string)
    requires All(t, NotEmoji) && NoAdjacent(t, IsSpaceOrTab)
    ensures All(JsTrim(t), NotEmoji) && NoAdjacent(JsTrim(t), IsSpaceOrTab)
    ensures All(t, NotMarkup) ==> IsNormalArabic(JsTrim(t))
  {
    var r := JsTrim(t);
    var a := RunLength(t, IsJsSpace);
    assert r == t[a..a + |r|];
    NoAdjacentSlice(t, IsSpaceOrTab, a, a + |r|);
    AllFromChars(t, r, NotEmoji, 'x');
    if All(t, NotMarkup) {
      AllFromChars(t, r, NotMarkup, 'x');
    }
  }

  /** `normalizeArabicText`. */
  function NormalizeArabicText(s: string): (r: string)
    ensures IsNormalArabic(r)
    ensures forall c :: c in r ==> c in s || c in {' ', '"', '\''}
  {
    ArabicSuffixSteps(ArabicPrefixSteps(s))
  }

  /** Normal text that does not start with a bullet glyph is a fixed point. */
  lemma NormalizeArabicTextStable(s: string)
    requires IsNormalArabic(s)
    requires |s| == 0 || !IsLeadGlyph(s[0])
    ensures NormalizeArabicText(s) == s
  {
    assert forall i :: 0 <= i < |s| ==> NotMarkup(s[i]) && NotEmoji(s[i]);
    assert RemoveWhere(s, IsCR) == s;
    assert MapChars(s, FoldQuote) == s;
    assert SquashRuns(s, IsMarkdownMark, ' ') == s;
    assert StripMarkup(s) == s;
    assert TrimLeft(s, IsLeadGlyph) == s;
    assert RemoveWhere(s, IsEmoji) == s;
  }

  lemma EmojiDashPrefix()
    ensures ArabicPrefixSteps("\U{1F31F}-x") == "\U{1F31F}-x"
  {
    var s := "\U{1F31F}-x";
    EmojiDashMarkupFree();
    assert !IsLeadGlyph(s[0]);
  }

  /** `"🌟-x"` has no markup for the first steps to change. */
  lemma EmojiDashMarkupFree()
    ensures StripMarkup("\U{1F31F}-x") == "\U{1F31F}-x"
  {
    var s := "\U{1F31F}-x";
    assert forall i :: 0 <= i < |s| ==> !IsCR(s[i]) && !IsCurlyDouble(s[i]) && !IsCurlySingle(s[i]) && !IsMarkdownMark(s[i]);
    assert RemoveWhere(s, IsCR) == s;
    assert MapChars(s, FoldQuote) == s;
    assert SquashRuns(s, IsMarkdownMark, ' ') == s;
  }

  lemma EmojiDashSuffix()
    ensures ArabicSuffixSteps("\U{1F31F}-x") == "-x"
  {
    var s := "\U{1F31F}-x";
    assert RemoveWhere(s[2..], IsEmoji) == "x";
    assert RemoveWhere(s[1..], IsEmoji) == "-x";
    assert RemoveWhere(s, IsEmoji) == "-x";
    assert NoAdjacent("-x", IsSpaceOrTab);
    assert IsTrimmed("-x", IsJsSpace);
  }

  lemma DashPrefix()
    ensures ArabicPrefixSteps("-x") == "x"
  {
    var s := "-x";
    DashMarkupFree();
    assert IsLeadGlyph(s[0]) && !IsLeadGlyph(s[1]);
    assert RunLength(s, IsLeadGlyph) == 1 by {
      assert RunLength(s[1..], IsLeadGlyph) == 0;
    }
    assert TrimLeft(s, IsLeadGlyph) == s[1..];
  }

  /** `"-x"` has no markup for the first steps to change. */
  lemma DashMarkupFree()
    ensures StripMarkup("-x") == "-x"
  {
    var s := "-x";
    assert forall i :: 0 <= i < |s| ==> !IsCR(s[i]) && !IsCurlyDouble(s[i]) && !IsCurlySingle(s[i]) && !IsMarkdownMark(s[i]);
    assert RemoveWhere(s, IsCR) == s;
    assert MapChars(s, FoldQuote) == s;
    assert SquashRuns(s, IsMarkdownMark, ' ') == s;
  }

  lemma XSuffix()
    ensures ArabicSuffixSteps("x") == "x"
  {
    assert RemoveWhere("x", IsEmoji) == "x";
    assert NoAdjacent("x", IsSpaceOrTab);
    assert IsTrimmed("x", IsJsSpace);
  }

  /** A second application is not always the identity: an emoji in front of a dash hides
      the dash from the leading-glyph strip, and the dash is stripped only the next time. */
  lemma NormalizeArabicTextNotIdempotent()
    ensures NormalizeArabicText("\U{1F31F}-x") == "-x"
    ensures NormalizeArabicText("-x") == "x"
  {
    EmojiDashPrefix();
    EmojiDashSuffix();
    DashPrefix();
    XSuffix();
  }

  // ---------------------------------------------------------------------
  // normalizeLine
  // ---------------------------------------------------------------------

  /** `normalizeLine`: carriage returns removed, surrounding whitespace stripped. */
  function NormalizeLine(s: string): (r: string)
    ensures '\r' !in r && IsTrimmed(r, IsJsSpace)
    ensures '\r' !in s && IsTrimmed(s, IsJsSpace) ==> r == s
    ensures forall c :: c in r ==> c in s
  {
    JsTrim(RemoveWhere(s, IsCR))
  }

  // ---------------------------------------------------------------------
  // unwrapTranslation
  // ---------------------------------------------------------------------

  /** `s` is `open X close` with `X` non-empty. */
  predicate WrappedBy(s: string, open: char, close: char) {
    |s| >= 3 && s[0] == open && s[|s| - 1] == close
  }

  /** `s` is one of `_X_`, `"X"`, `“X”`, `*X*` with `X` non-empty. */
  predicate IsWrapped(s: string) {
    WrappedBy(s, '_', '_') || WrappedBy(s, '"', '"') || WrappedBy(s, '\U{201C}', '\U{201D}') ||
    WrappedBy(s, '*', '*')
  }

  /** `.replace(/^oX+close$/g, '$1')` for one delimiter pair. */
  function StripPair(s: string, open: char, close: char): (r: string)
    ensures WrappedBy(s, open, close) ==> r == s[1..|s| - 1]
    ensures !WrappedBy(s, open, close) ==> r == s
  {
    if WrappedBy(s, open, close) then s[1..|s| - 1] else s
  }

  /** One pass of the loop body: the four unwrapping replacements in order, then `trim`.
      A pass either shortens the text or changes nothing. */
  function UnwrapPass(s: string): (r: string)
    ensures |r| <= |s|
    ensures |r| == |s| ==> r == s
    ensures IsTrimmed(r, IsJsSpace)
  {
    var t1 := StripPair(s, '_', '_');
    var t2 := StripPair(t1, '"', '"');
    var t3 := StripPair(t2, '\U{201C}', '\U{201D}');
    var t4 := StripPair(t3, '*', '*');
    JsTrim(t4)
  }

  /** A text the pass leaves alone is not wrapped. */
  lemma UnwrapFixpointNotWrapped(s: string)
    requires UnwrapPass(s) == s
    ensures !IsWrapped(s)
  {
  }

  /** The `while (changed)` loop; it stops because every productive pass shortens the text. */
  function UnwrapLoop(s: string): (r: string)
    ensures UnwrapPass(r) == r
    ensures |r| <= |s|
    decreases |s|
  {
    var next := UnwrapPass(s);
    if next == s then s else UnwrapLoop(next)
  }

  /** `unwrapTranslation`: clean, then peel wrapping delimiters until none is left. */
  function UnwrapTranslation(s: string): (r: string)
    ensures !IsWrapped(r)
    ensures IsTrimmed(r, IsJsSpace)
    ensures |r| <= |CleanContent(s)|
  {
    var r := UnwrapLoop(CleanContent(s));
    UnwrapFixpointNotWrapped(r);
    r
  }
}
