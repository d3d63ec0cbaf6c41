/**
 * format_ayahs.py: the standalone formatter that turns a Telegram export into
 * verse records. Its three regular expressions are written as deterministic
 * scanners (the comments say why backtracking cannot change the match, or how
 * the backtracking is reproduced); case-insensitive matching and `str.title`
 * are modelled on ASCII letters.
 */
module FormatAyahs {
  import opened Base
  import opened Chars
  import opened Strings
  import opened Seqs
  import opened PyText
  import opened SyncScan
  import opened Telegram
  import Juz

  // ---------------------------------------------------------------------
  // normalize_surah_name
  // ---------------------------------------------------------------------

  /** The characters `strip('*_"\'')` removes. */
  predicate IsNameQuote(c: char) { c == '*' || c == '_' || c == '"' || c == '\'' }

  /** `s.replace(pat, rep)`: the occurrences of `pat`, found from the left without
      overlapping, each replaced by `rep`. */
  function ReplaceAll(s: string, pat: string, rep: string): (r: string)
    requires |pat| > 0
    ensures forall c :: c in r ==> c in s || c in rep
    decreases |s|
  {
    if |s| < |pat| then s
    else if s[..|pat|] == pat then rep + ReplaceAll(s[|pat|..], pat, rep)
    else [s[0]] + ReplaceAll(s[1..], pat, rep)
  }

  /** An occurrence in the tail of a text is an occurrence in the text. */
  lemma ContainsTail(s: string, pat: string)
    requires |s| > 0
    ensures Contains(s[1..], pat) ==> Contains(s, pat)
  {
    if Contains(s[1..], pat) {
      var i :| OccursAt(s[1..], pat, i);
      assert s[1..][i..i + |pat|] == s[i + 1..i + 1 + |pat|];
      assert OccursAt(s, pat, i + 1);
    }
  }

  /** A text without `pat` is left as it is. */
  lemma {:induction false} ReplaceAllAbsent(s: string, pat: string, rep: string)
    requires |pat| > 0 && !Contains(s, pat)
    ensures ReplaceAll(s, pat, rep) == s
    decreases |s|
  {
    if |s| >= |pat| {
      assert !OccursAt(s, pat, 0);
      ContainsTail(s, pat);
      ReplaceAllAbsent(s[1..], pat, rep);
      assert [s[0]] + s[1..] == s;
    }
  }

  /** `str.title()` from a position whose preceding character is, or is not, a letter:
      a letter is upper-cased after a non-letter and lower-cased after a letter. */
  function TitleFrom(t: string, afterLetter: bool): (r: string)
    ensures |r| == |t|
  {
    if |t| == 0 then ""
    else [if afterLetter then Lower(t[0]) else Upper(t[0])] + TitleFrom(t[1..], IsAsciiLetter(t[0]))
  }

  /** `str.title()`. */
  function Title(t: string): (r: string)
    ensures |r| == |t|
  {
    TitleFrom(t, false)
  }

  /** Whether the character at `i` of `t` opens a word for `str.title()`. */
  predicate OpensWord(t: string, i: nat, afterLetter: bool)
    requires i < |t|
  {
    if i == 0 then !afterLetter else !IsAsciiLetter(t[i - 1])
  }

  /** The title-cased character at `i` is the upper case of the original when it opens a
      word, and its lower case otherwise. */
  lemma {:induction false} TitleFromIndex(t: string, afterLetter: bool, i: nat)
    requires i < |t|
    ensures TitleFrom(t, afterLetter)[i] == if OpensWord(t, i, afterLetter) then Upper(t[i]) else Lower(t[i])
    decreases i
  {
    if i > 0 {
      TitleFromIndex(t[1..], IsAsciiLetter(t[0]), i - 1);
      assert t[1..][i - 1] == t[i];
      if i > 1 {
        assert t[1..][i - 2] == t[i - 1];
      }
    }
  }

  /** `str.title()` character by character. */
  lemma TitleIndex(t: string)
    ensures forall i :: 0 <= i < |t| ==>
      Title(t)[i] == if i == 0 || !IsAsciiLetter(t[i - 1]) then Upper(t[i]) else Lower(t[i])
  {
    forall i | 0 <= i < |t|
      ensures Title(t)[i] == if i == 0 || !IsAsciiLetter(t[i - 1]) then Upper(t[i]) else Lower(t[i])
    {
      TitleFromIndex(t, false, i);
    }
  }

  lemma UpperLowerFixed(c: char)
    ensures Upper(Upper(c)) == Upper(c) && Lower(Lower(c)) == Lower(c)
    ensures Upper(Lower(c)) == Upper(c) && Lower(Upper(c)) == Lower(c)
  {
  }

  /** Title-casing a title-cased text changes nothing, and only ever changes the case of
      letters. */
  lemma TitleIdempotent(t: string)
    ensures Title(Title(t)) == Title(t)
    ensures LowerStr(Title(t)) == LowerStr(t)
  {
    var u := Title(t);
    forall i | 0 <= i < |t|
      ensures Title(u)[i] == u[i] && Lower(u[i]) == Lower(t[i])
    {
      UpperLowerFixed(t[i]);
      TitleFromIndex(t, false, i);
      TitleFromIndex(u, false, i);
      if i > 0 {
        TitleFromIndex(t, false, i - 1);
        assert IsAsciiLetter(u[i - 1]) <==> IsAsciiLetter(t[i - 1]);
      }
    }
  }

  /** The name after the two strips, whitespace runs squeezed to one space and the
      `Al-baqarah`, `al-baqarah` and `baqrah` spellings replaced. */
  function TidySurahName(raw: string): string {
    var a := PyStrip(Trim(PyStrip(raw), IsNameQuote));
    var b := SquashRuns(a, IsPySpace, ' ');
    ReplaceAll(ReplaceAll(ReplaceAll(b, "Al-baqarah", "Al-Baqarah"), "al-baqarah", "Al-Baqarah"), "baqrah", "Baqarah")
  }

  /** `name.lower().startswith('al-')`. */
  predicate StartsWithAl(c: string) {
    |c| >= 3 && LowerStr(c[..3]) == "al-"
  }

  /** `normalize_surah_name(raw_name)`: nothing for an empty name, `Al-Baqarah` for the
      tidied name `baqarah` in any case, an `al-` name with its first three characters
      kept and the rest title-cased, otherwise the tidied name. */
  function NormalizeSurahName(raw: string): (r: Option<string>)
    ensures r.None? <==> raw == ""
  {
    if raw == "" then None
    else
      var c := TidySurahName(raw);
      if LowerStr(c) == "baqarah" then Some("Al-Baqarah")
      else if StartsWithAl(c) then Some(c[..3] + Title(c[3..]))
      else Some(c)
  }

  /** Keeping the first three characters and title-casing the rest changes only letter
      case, and opens every word after the prefix with a capital. */
  lemma TitleAfterPrefix(c: string)
    requires |c| >= 3
    ensures var r := c[..3] + Title(c[3..]);
      && |r| == |c| && LowerStr(r) == LowerStr(c) && r[..3] == c[..3]
      && forall i :: 3 <= i < |c| ==>
           r[i] == if i == 3 || !IsAsciiLetter(c[i - 1]) then Upper(c[i]) else Lower(c[i])
  {
    var t := c[3..];
    var r := c[..3] + Title(t);
    TitleIndex(t);
    TitleIdempotent(t);
    forall i | 3 <= i < |c|
      ensures r[i] == Title(t)[i - 3] && t[i - 3] == c[i]
      ensures LowerStr(r)[i] == LowerStr(c)[i]
    {
      assert LowerStr(Title(t))[i - 3] == LowerStr(t)[i - 3];
    }
    forall i | 3 <= i < |c|
      ensures r[i] == if i == 3 || !IsAsciiLetter(c[i - 1]) then Upper(c[i]) else Lower(c[i])
    {
      if i > 3 {
        assert t[i - 4] == c[i - 1];
      }
    }
  }

  /** The three outcomes of `normalize_surah_name` for a non-empty name: only `Al-Baqarah`
      or a change of letter case of the tidied name, which for `al-` names keeps the
      first three characters and opens every later word with a capital. */
  lemma NormalizeSurahNameCases(raw: string)
    requires raw != ""
    ensures var c := TidySurahName(raw);
      var r := NormalizeSurahName(raw).value;
      && (LowerStr(c) == "baqarah" ==> r == "Al-Baqarah")
      && (LowerStr(c) != "baqarah" ==> |r| == |c| && LowerStr(r) == LowerStr(c))
      && (LowerStr(c) != "baqarah" && !StartsWithAl(c) ==> r == c)
      && (LowerStr(c) != "baqarah" && StartsWithAl(c) ==>
            r[..3] == c[..3] &&
            forall i :: 3 <= i < |c| ==>
              r[i] == if i == 3 || !IsAsciiLetter(c[i - 1]) then Upper(c[i]) else Lower(c[i]))
  {
    var c := TidySurahName(raw);
    if StartsWithAl(c) {
      TitleAfterPrefix(c);
    }
  }

  // ---------------------------------------------------------------------
  // extract_arabic_line
  // ---------------------------------------------------------------------

  /** `Ř`, `Ů` and `Ű`: letters that mis-decoded Arabic text shows. */
  predicate IsMojibakeArabic(c: char) { c == '\U{0158}' || c == '\U{016E}' || c == '\U{0170}' }

  /** `re.search(r'[؀-ۿ]|[ŘŮŰ]', ln)`. */
  predicate HasArabicMark(ln: string) {
    exists i :: 0 <= i < |ln| && (IsArabic(ln[i]) || IsMojibakeArabic(ln[i]))
  }

  /** `re.search(r'(?i)ayat|aayat|surah|surat', ln)`; `aayat` holds `ayat`, so three words
      suffice. */
  predicate MentionsLabel(ln: string) {
    exists i :: 0 <= i < |ln| &&
      (OccursAtIgnoreCase(ln, "ayat", i) || OccursAtIgnoreCase(ln, "surah", i) || OccursAtIgnoreCase(ln, "surat", i))
  }

  /** A line `extract_arabic_line` returns: Arabic (or its mojibake) and no label. */
  predicate IsArabicCandidate(ln: string) {
    HasArabicMark(ln) && !MentionsLabel(ln)
  }

  /** The characters of `strip('*_ -•??\t')`. */
  predicate IsLineMark(c: char) {
    c == '*' || c == '_' || c == ' ' || c == '-' || c == '\U{2022}' || c == '?' || c == '\t'
  }

  /** `[ln.strip() for ln in parts if ln.strip()]`. */
  function StrippedNonBlank(parts: seq<string>): (r: seq<string>)
    ensures forall i :: 0 <= i < |r| ==> r[i] != ""
  {
    if |parts| == 0 then []
    else
      var ln := PyStrip(parts[|parts| - 1]);
      StrippedNonBlank(parts[..|parts| - 1]) + (if ln != "" then [ln] else [])
  }

  /** The stripped non-blank lines of a block. */
  function NonBlankLines(block: string): seq<string> {
    StrippedNonBlank(Split(block, '\n'))
  }

  /** The loop of `extract_arabic_line` over the lines it inspects. */
  function FirstCandidate(ls: seq<string>): string {
    if |ls| == 0 then ""
    else if IsArabicCandidate(ls[0]) then Trim(ls[0], IsLineMark)
    else FirstCandidate(ls[1..])
  }

  /** `extract_arabic_line(block)`: the first of the first eight non-blank lines that is
      a candidate, with its marks stripped, or the empty string. */
  function ExtractArabicLine(block: string): string {
    FirstCandidate(Take(NonBlankLines(block), 8))
  }

  /** Stripping marks from a line with an Arabic character leaves something. */
  lemma CandidateSurvivesTrim(ln: string)
    requires HasArabicMark(ln)
    ensures Trim(ln, IsLineMark) != ""
  {
    var i :| 0 <= i < |ln| && (IsArabic(ln[i]) || IsMojibakeArabic(ln[i]));
    TrimOutside(ln, IsLineMark);
    assert !IsLineMark(ln[i]);
  }

  /** The first candidate of a list of lines, found by index. */
  lemma {:induction false} FirstCandidateSpec(ls: seq<string>)
    ensures FirstCandidate(ls) != "" <==> exists k :: 0 <= k < |ls| && IsArabicCandidate(ls[k])
    ensures FirstCandidate(ls) != "" ==>
      exists k :: 0 <= k < |ls| && IsArabicCandidate(ls[k]) &&
        (forall j :: 0 <= j < k ==> !IsArabicCandidate(ls[j])) &&
        FirstCandidate(ls) == Trim(ls[k], IsLineMark)
  {
    var k := FirstCandidateIndex(ls);
    if k < |ls| {
      assert IsArabicCandidate(ls[k]);
    }
  }

  /** The index of the first candidate, or `|ls|` when there is none. */
  lemma {:induction false} FirstCandidateIndex(ls: seq<string>) returns (k: nat)
    ensures k <= |ls| && forall j :: 0 <= j < k ==> !IsArabicCandidate(ls[j])
    ensures k < |ls| ==> IsArabicCandidate(ls[k]) && FirstCandidate(ls) == Trim(ls[k], IsLineMark) != ""
    ensures k == |ls| ==> FirstCandidate(ls) == ""
  {
    if |ls| == 0 {
      k := 0;
    } else if IsArabicCandidate(ls[0]) {
      k := 0;
      CandidateSurvivesTrim(ls[0]);
    } else {
      var k1 := FirstCandidateIndex(ls[1..]);
      k := k1 + 1;
      assert forall j :: 0 < j < |ls| ==> ls[j] == ls[1..][j - 1];
    }
  }

  /** `extract_arabic_line` inspects only the first eight non-blank lines: it gives the
      first candidate among them, marks stripped, and the empty string exactly when none
      of them is a candidate. */
  lemma ExtractArabicLineSpec(block: string)
    ensures var ls := NonBlankLines(block);
      var n := if |ls| < 8 then |ls| else 8;
      var r := ExtractArabicLine(block);
      && (r != "" <==> exists k :: 0 <= k < n && IsArabicCandidate(ls[k]))
      && (r != "" ==> exists k :: (0 <= k < n && IsArabicCandidate(ls[k]) &&
            (forall j :: 0 <= j < k ==> !IsArabicCandidate(ls[j])) && r == Trim(ls[k], IsLineMark)))
  {
    var ls := NonBlankLines(block);
    var first := Take(ls, 8);
    FirstCandidateSpec(first);
    assert forall k :: 0 <= k < |first| ==> first[k] == ls[k];
  }

  // ---------------------------------------------------------------------
  // AYAH_HEADER_RE
  // ---------------------------------------------------------------------

  /** `[-:]`: what may trail the verse digits. */
  predicate IsTrailMark(c: char) { c == '-' || c == ':' }

  /** Where the `No` of `AYAH_HEADER_RE` ends when its keyword starts at `i`:
      `A(?:a|y)ya?t\s*No`, ignoring case. The optional `a` comes before `t`, which it
      cannot also be, and whitespace cannot be `N`, so no choice is ever undone. */
  function HeaderKeywordEnd(s: string, i: nat): (r: Option<nat>)
    ensures r.Some? ==> i < r.value <= |s|
  {
    if !(CharIs(s, i, 'a') && (CharIs(s, i + 1, 'a') || CharIs(s, i + 1, 'y')) && CharIs(s, i + 2, 'y')) then None
    else
      var j := SkipOpt(s, i + 3, 'a');
      if !CharIs(s, j, 't') then None
      else
        var k := SkipWhile(s, j + 1, IsPySpace);
        if CharIs(s, k, 'n') && CharIs(s, k + 1, 'o') then Some(k + 2) else None
  }

  /** The span of the verse digits after the keyword ends at `j`: an optional dot,
      whitespace, an optional `[:#-]`, whitespace and at least one digit. */
  function HeaderDigits(s: string, j: nat): (r: Option<(nat, nat)>)
    requires j <= |s|
    ensures r.Some? ==> j <= r.value.0 < r.value.1 <= |s|
    ensures r.Some? ==> forall k :: r.value.0 <= k < r.value.1 ==> IsAnyDigit(s[k])
  {
    var j4 := SkipOpt(s, j, '.');
    var j5 := SkipOptWhere(s, SkipWhile(s, j4, IsPySpace), IsNumberMark);
    var d0 := SkipWhile(s, j5, IsPySpace);
    var d1 := SkipWhile(s, d0, IsHeaderDigit);
    if d1 == d0 then None else Some((d0, d1))
  }

  /** `AYAH_HEADER_RE` tried at `p`, with group 1 (the verse digits). The pattern starts
      with `^` (multi-line) or a line feed, so `p` is a line start or holds `\n`; the
      line feed is whitespace, so both ways continue alike. `\s*[*_~\-\s]*` then covers
      the longest run of those characters, since the keyword cannot start inside it.
      After the keyword come the digits, whitespace and `[-:]*`; each optional item is
      followed by something it cannot also be, and the greedy tail only lengthens the
      match. */
  function HeaderAt(s: string, p: nat): (r: Option<Found<string>>)
    ensures r.Some? ==> r.value.start == p && p < r.value.end <= |s|
    ensures r.Some? ==> |r.value.groups| > 0 && AllDigits(r.value.groups)
  {
    if p >= |s| || !(p == 0 || s[p - 1] == '\n' || s[p] == '\n') then None
    else
      match HeaderKeywordEnd(s, SkipWhile(s, p, IsSurahLead))
      case None => None
      case Some(j) =>
        match HeaderDigits(s, j)
        case None => None
        case Some((d0, d1)) =>
          DigitSpan(s, d0, d1);
          Some(Found(p, SkipWhile(s, SkipWhile(s, d1, IsPySpace), IsTrailMark), s[d0..d1]))
  }

  function HeaderMatcher(s: string): nat -> Option<Found<string>> {
    (p: nat) => HeaderAt(s, p)
  }

  lemma HeaderMatcherAnchored(s: string)
    ensures Anchored(HeaderMatcher(s), |s|)
  {
    forall p: nat | HeaderMatcher(s)(p).Some?
      ensures HeaderMatcher(s)(p).value.start == p < HeaderMatcher(s)(p).value.end <= |s|
    {
      assert HeaderMatcher(s)(p) == HeaderAt(s, p);
    }
  }

  /** `AYAH_HEADER_RE.finditer(text)`. */
  function Headers(s: string): (r: seq<Found<string>>)
    ensures Chained(r)
    ensures forall m :: m in r ==> HeaderAt(s, m.start) == Some(m)
  {
    HeaderMatcherAnchored(s);
    var r := FindAll(|s|, HeaderMatcher(s), 0);
    assert forall k :: 0 <= k < |r| ==> HeaderMatcher(s)(r[k].start) == HeaderAt(s, r[k].start);
    r
  }

  /** No header is missed: a position where `AYAH_HEADER_RE` matches starts a found
      header or lies inside one. */
  lemma HeadersCover(s: string, j: nat) returns (m: Found<string>)
    requires HeaderAt(s, j).Some?
    ensures m in Headers(s) && m.start <= j < m.end
  {
    HeaderMatcherAnchored(s);
    assert HeaderMatcher(s)(j) == HeaderAt(s, j);
    var k := FindAllCovers(|s|, HeaderMatcher(s), 0, j);
    m := Headers(s)[k];
  }

  lemma AayatKeyword()
    ensures HeaderKeywordEnd("Aayat No. 12", 0) == Some(8)
  {
    var s := "Aayat No. 12";
    assert SkipOpt(s, 3, 'a') == 4;
    SkipWhileEnds(s, 5, 6, IsPySpace);
  }

  lemma AayatDigits()
    ensures HeaderDigits("Aayat No. 12", 8) == Some((10, 12)) && "Aayat No. 12"[10..12] == "12"
  {
    var s := "Aayat No. 12";
    assert SkipOpt(s, 8, '.') == 9;
    SkipWhileEnds(s, 9, 10, IsPySpace);
    assert SkipOptWhere(s, 10, IsNumberMark) == 10;
    SkipWhileEnds(s, 10, 10, IsPySpace);
    SkipWhileEnds(s, 10, 12, IsHeaderDigit);
  }

  /** The usual spelling `Aayat No. ` is a header, with its digits as group 1. */
  lemma AayatRecognised()
    ensures HeaderAt("Aayat No. 12", 0) == Some(Found(0, 12, "12"))
  {
    var s := "Aayat No. 12";
    SkipWhileEnds(s, 0, 0, IsSurahLead);
    AayatKeyword();
    AayatDigits();
    SkipWhileEnds(s, 12, 12, IsPySpace);
    SkipWhileEnds(s, 12, 12, IsTrailMark);
    HeaderAtOfParts(s, 0, 8, 10, 12);
  }

  /** `HeaderAt` once its keyword and digits are located. */
  lemma HeaderAtOfParts(s: string, p: nat, j: nat, d0: nat, d1: nat)
    requires p < |s| && (p == 0 || s[p - 1] == '\n' || s[p] == '\n')
    requires HeaderKeywordEnd(s, SkipWhile(s, p, IsSurahLead)) == Some(j)
    requires HeaderDigits(s, j) == Some((d0, d1))
    ensures HeaderAt(s, p) == Some(Found(p, SkipWhile(s, SkipWhile(s, d1, IsPySpace), IsTrailMark), s[d0..d1]))
  {
  }

  /** `A(?:a|y)ya?t` needs two letters from `a`/`y` before the second `y`, so the spelling
      `Ayat No. ` is not a header here, unlike in scripts/admin_sync.py. */
  lemma AyatNotRecognised()
    ensures HeaderAt("Ayat No. 12", 0).None?
  {
    var s := "Ayat No. 12";
    assert SkipWhile(s, 0, IsSurahLead) == 0;
    assert !CharIs(s, 2, 'y');
  }

  // ---------------------------------------------------------------------
  // SURAH_NUM_RE and SURAH_NAME_RE
  // ---------------------------------------------------------------------

  /** A word character for `\b`: ASCII letters and digits, `_`, the Arabic-Indic and
      Persian digits and the Arabic letters. */
  predicate IsWordChar(c: char) {
    IsAsciiAlnum(c) || c == '_' || IsAnyDigit(c) || ('\U{0621}' <= c <= '\U{064A}')
  }

  /** `\bSura(?:h|t)\b` at `p`, ignoring case. */
  predicate SurahWordAt(s: string, p: nat) {
    (p == 0 || (p <= |s| && !IsWordChar(s[p - 1]))) &&
    CharIs(s, p, 's') && CharIs(s, p + 1, 'u') && CharIs(s, p + 2, 'r') && CharIs(s, p + 3, 'a') &&
    (CharIs(s, p + 4, 'h') || CharIs(s, p + 4, 't')) &&
    (p + 5 == |s| || (p + 5 < |s| && !IsWordChar(s[p + 5])))
  }

  /** `SURAH_NUM_RE` tried at `p`: the word, `\s*(?:No\.?|number)?\s*[:#-]?\s*` and the
      digits (group 1), whose greedy run ends the match. */
  function SurahNumberAt(s: string, p: nat): (r: Option<string>)
    ensures r.Some? ==> |r.value| > 0 && AllDigits(r.value)
  {
    if !SurahWordAt(s, p) then None
    else
      match SurahKeywordEnd(s, p)
      case None => None
      case Some(j2) =>
        var j4 := SkipOptWhere(s, SkipWhile(s, j2, IsPySpace), IsNumberMark);
        var d0 := SkipWhile(s, j4, IsPySpace);
        var d1 := SkipWhile(s, d0, IsHeaderDigit);
        if d1 == d0 then None else Some(s[d0..d1])
  }

  /** `search` with a pattern tried at each position by `at`: the match at the first
      position below `n` where there is one. */
  function FirstMatch<T>(at: nat -> Option<T>, n: nat, p: nat): (r: Option<T>)
    ensures r.None? ==> forall i :: p <= i < n ==> at(i).None?
    ensures r.Some? ==> exists i :: p <= i < n && at(i) == r
    decreases n - p
  {
    if p >= n then None
    else if at(p).Some? then at(p)
    else FirstMatch(at, n, p + 1)
  }

  /** The search finds the leftmost position where the pattern matches. */
  lemma {:induction false} FirstMatchLeftmost<T>(at: nat -> Option<T>, n: nat, p: nat, i: nat)
    requires p <= i < n && at(i).Some?
    requires forall j :: p <= j < i ==> at(j).None?
    ensures FirstMatch(at, n, p) == at(i)
    decreases i - p
  {
    if p < i {
      FirstMatchLeftmost(at, n, p + 1, i);
    }
  }

  function SurahNumberMatcher(s: string): nat -> Option<string> {
    (i: nat) => SurahNumberAt(s, i)
  }

  /** `SURAH_NUM_RE.search(text)` from `p`: the first position, up to the end of the
      text, where it matches. */
  function SurahNumberSearch(s: string, p: nat): (r: Option<string>)
    ensures r.Some? ==> |r.value| > 0 && AllDigits(r.value)
    ensures r.None? ==> forall i :: p <= i <= |s| ==> SurahNumberAt(s, i).None?
  {
    var r := FirstMatch(SurahNumberMatcher(s), |s| + 1, p);
    assert forall i :: p <= i <= |s| ==> SurahNumberMatcher(s)(i) == SurahNumberAt(s, i);
    assert r.Some? ==> exists i :: p <= i <= |s| && r == SurahNumberAt(s, i);
    r
  }

  /** The search finds the leftmost position where `SURAH_NUM_RE` matches. */
  lemma SurahNumberSearchLeftmost(s: string, p: nat, i: nat)
    requires p <= i <= |s| && SurahNumberAt(s, i).Some?
    requires forall j :: p <= j < i ==> SurahNumberAt(s, j).None?
    ensures SurahNumberSearch(s, p) == SurahNumberAt(s, i)
  {
    assert forall j :: p <= j <= i ==> SurahNumberMatcher(s)(j) == SurahNumberAt(s, j);
    FirstMatchLeftmost(SurahNumberMatcher(s), |s| + 1, p, i);
  }

  /** `[^\n\r:]`. */
  predicate IsNameFree(c: char) { c != '\n' && c != '\r' && c != ':' }

  /** `[:\-]`. */
  predicate IsColonOrDash(c: char) { c == ':' || c == '-' }

  /** `[-–:]`. */
  predicate IsRangeMark(c: char) { c == '-' || c == '\U{2013}' || c == ':' }

  /** Where `No\.?\s*\d+\s*[-–:]\s*` ends when tried at `w`. Each optional item is
      followed by something it cannot also be, so the match is unique. */
  function NumberPrefixEnd(s: string, w: nat): (r: Option<nat>)
    ensures r.Some? ==> w < r.value <= |s|
  {
    if !(CharIs(s, w, 'n') && CharIs(s, w + 1, 'o')) then None
    else
      var b := SkipWhile(s, SkipOpt(s, w + 2, '.'), IsPySpace);
      var c := SkipWhile(s, b, IsHeaderDigit);
      if c == b then None
      else
        var d := SkipWhile(s, c, IsPySpace);
        if d < |s| && IsRangeMark(s[d]) then Some(SkipWhile(s, d + 1, IsPySpace)) else None
  }

  /** `[A-Za-z'\-\s]` less the line breaks: the name class read so that a name ends with
      its line. */
  predicate IsLineNameChar(c: char) { IsNameChar(c) && c != '\n' && c != '\r' }

  /** The name group with the line-bounded class: a letter and at least one more name
      character of the same line, as many as there are. */
  function LineNameAt(s: string, r: nat): (name: Option<string>)
    requires r <= |s|
    ensures name.Some? ==> |name.value| >= 2 && r + |name.value| <= |s| && name.value == s[r..r + |name.value|]
    ensures name.Some? ==> IsAsciiLetter(name.value[0]) && forall t :: 0 <= t < |name.value| ==> IsLineNameChar(name.value[t])
    ensures name.Some? ==> r + |name.value| == |s| || !IsLineNameChar(s[r + |name.value|])
    ensures name.None? <==> !(r + 1 < |s| && IsAsciiLetter(s[r]) && IsLineNameChar(s[r + 1]))
  {
    if r + 1 < |s| && IsAsciiLetter(s[r]) && IsLineNameChar(s[r + 1]) then
      Some(s[r..SkipWhile(s, r + 1, IsLineNameChar)])
    else None
  }

  /** What the name group captures: a letter and at least one more name character, with
      no line break in the corrected reading. */
  predicate NameShaped(n: string, asWritten: bool) {
    |n| >= 2 && IsAsciiLetter(n[0]) &&
    forall t :: 0 <= t < |n| ==> IsNameChar(n[t]) && (asWritten || IsLineNameChar(n[t]))
  }

  /** The name group as written (`asWritten`), or with the line-bounded class. */
  function NameGroupAt(s: string, r: nat, asWritten: bool): (name: Option<string>)
    requires r <= |s|
    ensures name.Some? ==> NameShaped(name.value, asWritten)
  {
    if asWritten then NameAt(s, r) else LineNameAt(s, r)
  }

  /** The part of `SURAH_NAME_RE` after `[^\n\r:]*` when that ends at `q`: an optional
      `[:\-]`, whitespace, the optional `No 2 -` group and the name
      `([A-Za-z][A-Za-z\-\'\s]+)`. The name cannot start with `:`, `-` or whitespace, so
      those runs are taken whole; the optional group is tried first and, when the name
      does not follow it, the name is tried where the group would have started. */
  function NameTail(s: string, q: nat, asWritten: bool): (r: Option<string>)
    requires q <= |s|
    ensures r.Some? ==> NameShaped(r.value, asWritten)
  {
    var w := SkipWhile(s, SkipOptWhere(s, q, IsColonOrDash), IsPySpace);
    match NumberPrefixEnd(s, w)
    case Some(g) => if NameGroupAt(s, g, asWritten).Some? then NameGroupAt(s, g, asWritten) else NameGroupAt(s, w, asWritten)
    case None => NameGroupAt(s, w, asWritten)
  }

  /** Backtracking over where a star ends, between `lo` and `hi`, starting at `q`: a
      greedy star steps down towards `lo`, a lazy one up towards `hi`, and the first end
      where the rest of the pattern (`tail`) matches decides. */
  function Backtrack<T>(tail: nat -> Option<T>, lo: nat, hi: nat, q: nat, greedy: bool): (r: Option<T>)
    requires lo <= q <= hi
    ensures r.None? ==> forall j :: (if greedy then lo <= j <= q else q <= j <= hi) ==> tail(j).None?
    ensures r.Some? ==> exists j :: lo <= j <= hi && tail(j) == r
    decreases if greedy then q - lo else hi - q
  {
    match tail(q)
    case Some(n) => Some(n)
    case None =>
      if greedy && q > lo then Backtrack(tail, lo, hi, q - 1, greedy)
      else if !greedy && q < hi then Backtrack(tail, lo, hi, q + 1, greedy)
      else None
  }

  /** A greedy star settles on the last end, at or before `q`, where the rest matches. */
  lemma {:induction false} BacktrackLongest<T>(tail: nat -> Option<T>, lo: nat, hi: nat, q: nat, i: nat)
    requires lo <= i <= q <= hi && tail(i).Some?
    requires forall j :: i < j <= q ==> tail(j).None?
    ensures Backtrack(tail, lo, hi, q, true) == tail(i)
    decreases q - i
  {
    if i < q {
      BacktrackLongest(tail, lo, hi, q - 1, i);
    }
  }

  /** A lazy star settles on the first end, at or after `q`, where the rest matches. */
  lemma {:induction false} BacktrackShortest<T>(tail: nat -> Option<T>, lo: nat, hi: nat, q: nat, i: nat)
    requires lo <= q <= i <= hi && tail(i).Some?
    requires forall j :: q <= j < i ==> tail(j).None?
    ensures Backtrack(tail, lo, hi, q, false) == tail(i)
    decreases i - q
  {
    if q < i {
      BacktrackShortest(tail, lo, hi, q + 1, i);
    }
  }

  /** `NameTail` at every end inside the text. */
  function NameTails(s: string, asWritten: bool): nat -> Option<string> {
    (j: nat) => if j <= |s| then NameTail(s, j, asWritten) else None
  }

  /** The star `[^\n\r:]*` over `[lo, hi]` from `q`: greedy as written, lazy corrected. */
  function NameFrom(s: string, lo: nat, hi: nat, q: nat, asWritten: bool): (r: Option<string>)
    requires lo <= q <= hi <= |s|
    ensures r.Some? ==> NameShaped(r.value, asWritten)
    ensures r.None? ==> forall j :: (if asWritten then lo <= j <= q else q <= j <= hi) ==> NameTail(s, j, asWritten).None?
  {
    var r := Backtrack(NameTails(s, asWritten), lo, hi, q, asWritten);
    assert forall j :: lo <= j <= hi ==> NameTails(s, asWritten)(j) == NameTail(s, j, asWritten);
    r
  }

  /** As written, the star settles on the last end, at or before `q`, where the rest
      matches. */
  lemma NameFromLongest(s: string, lo: nat, hi: nat, q: nat, i: nat)
    requires lo <= i <= q <= hi <= |s|
    requires NameTail(s, i, true).Some?
    requires forall j :: i < j <= q ==> NameTail(s, j, true).None?
    ensures NameFrom(s, lo, hi, q, true) == NameTail(s, i, true)
  {
    assert forall j :: lo <= j <= hi ==> NameTails(s, true)(j) == NameTail(s, j, true);
    BacktrackLongest(NameTails(s, true), lo, hi, q, i);
  }

  /** Corrected, the lazy star settles on the first end, at or after `q`, where the rest
      matches. */
  lemma NameFromShortest(s: string, lo: nat, hi: nat, q: nat, i: nat)
    requires lo <= q <= i <= hi <= |s|
    requires NameTail(s, i, false).Some?
    requires forall j :: q <= j < i ==> NameTail(s, j, false).None?
    ensures NameFrom(s, lo, hi, q, false) == NameTail(s, i, false)
  {
    assert forall j :: lo <= j <= hi ==> NameTails(s, false)(j) == NameTail(s, j, false);
    BacktrackShortest(NameTails(s, false), lo, hi, q, i);
  }

  /** `SURAH_NAME_RE` tried at `p`: as written, or with the lazy star and the
      line-bounded name class. The star ranges over `[p + 5, hi]`, `hi` being the end of
      the run of characters other than line breaks and `:`. */
  function SurahNameAt(s: string, p: nat, asWritten: bool): (r: Option<string>)
    ensures r.Some? ==> SurahWordAt(s, p) && NameShaped(r.value, asWritten)
    ensures SurahWordAt(s, p) && r.None? ==>
      forall j :: p + 5 <= j <= SkipWhile(s, p + 5, IsNameFree) ==> NameTail(s, j, asWritten).None?
  {
    if !SurahWordAt(s, p) then None
    else
      var hi := SkipWhile(s, p + 5, IsNameFree);
      NameFrom(s, p + 5, hi, if asWritten then hi else p + 5, asWritten)
  }

  function SurahNameMatcher(s: string, asWritten: bool): nat -> Option<string> {
    (i: nat) => SurahNameAt(s, i, asWritten)
  }

  /** `SURAH_NAME_RE.search(text)` from `p`. */
  function SurahNameSearch(s: string, p: nat, asWritten: bool): (r: Option<string>)
    ensures r.Some? ==> NameShaped(r.value, asWritten)
    ensures r.None? ==> forall i :: p <= i < |s| ==> SurahNameAt(s, i, asWritten).None?
  {
    var r := FirstMatch(SurahNameMatcher(s, asWritten), |s|, p);
    assert forall i :: p <= i < |s| ==> SurahNameMatcher(s, asWritten)(i) == SurahNameAt(s, i, asWritten);
    r
  }

  /** The search finds the leftmost position where `SURAH_NAME_RE` matches. */
  lemma SurahNameSearchLeftmost(s: string, p: nat, i: nat, asWritten: bool)
    requires p <= i < |s| && SurahNameAt(s, i, asWritten).Some?
    requires forall j :: p <= j < i ==> SurahNameAt(s, j, asWritten).None?
    ensures SurahNameSearch(s, p, asWritten) == SurahNameAt(s, i, asWritten)
  {
    assert forall j :: p <= j <= i ==> SurahNameMatcher(s, asWritten)(j) == SurahNameAt(s, j, asWritten);
    FirstMatchLeftmost(SurahNameMatcher(s, asWritten), |s|, p, i);
  }

  /** A match at the start of the text is the one found. */
  lemma SurahNameSearchAtStart(s: string, asWritten: bool)
    requires |s| > 0 && SurahNameAt(s, 0, asWritten).Some?
    ensures SurahNameSearch(s, 0, asWritten) == SurahNameAt(s, 0, asWritten)
  {
    SurahNameSearchLeftmost(s, 0, 0, asWritten);
  }

  /** The name group at `r` is the run `n` found there, when what follows cannot
      continue it. */
  lemma NameGroupOf(s: string, r: nat, n: string, asWritten: bool)
    requires r + |n| <= |s| && s[r..r + |n|] == n
    requires |n| >= 2 && IsAsciiLetter(n[0]) && forall i :: 0 <= i < |n| ==> IsLineNameChar(n[i])
    requires r + |n| < |s| ==> !IsLineNameChar(s[r + |n|]) && (asWritten ==> !IsNameChar(s[r + |n|]))
    ensures NameGroupAt(s, r, asWritten) == Some(n)
  {
    assert forall i :: r <= i < r + |n| ==> s[i] == n[i - r];
    if asWritten {
      SkipWhileEnds(s, r + 1, r + |n|, IsNameChar);
    } else {
      SkipWhileEnds(s, r + 1, r + |n|, IsLineNameChar);
    }
  }

  /** The tail tried at `q` when whitespace up to `w` and then a name `n` not spelt
      `No...` follow: the name is `n`. */
  lemma NameTailOf(s: string, q: nat, w: nat, n: string, asWritten: bool)
    requires q <= w && w + |n| <= |s| && s[w..w + |n|] == n
    requires forall k :: q <= k < w ==> IsPySpace(s[k])
    requires |n| >= 2 && IsAsciiLetter(n[0]) && forall i :: 0 <= i < |n| ==> IsLineNameChar(n[i])
    requires !(Lower(n[0]) == 'n' && Lower(n[1]) == 'o')
    requires w + |n| < |s| ==> !IsLineNameChar(s[w + |n|]) && (asWritten ==> !IsNameChar(s[w + |n|]))
    ensures NameTail(s, q, asWritten) == Some(n)
  {
    assert s[w] == n[0] && s[w + 1] == n[1];
    assert SkipOptWhere(s, q, IsColonOrDash) == q;
    SkipWhileEnds(s, q, w, IsPySpace);
    assert NumberPrefixEnd(s, w).None?;
    NameGroupOf(s, w, n, asWritten);
  }

  /** No tail at `q` when whitespace up to `w` and then a digit follow. */
  lemma NoNameTailAtDigit(s: string, q: nat, w: nat, asWritten: bool)
    requires q <= w < |s| && IsAsciiDigit(s[w])
    requires forall k :: q <= k < w ==> IsPySpace(s[k])
    ensures NameTail(s, q, asWritten).None?
  {
    assert SkipOptWhere(s, q, IsColonOrDash) == q;
    SkipWhileEnds(s, q, w, IsPySpace);
    assert NumberPrefixEnd(s, w).None?;
  }

  /** No tail from where a blank and a run of digits stand, up to the digits' end. */
  lemma NoNameTailsAtNumber(s: string, e: nat)
    requires 6 < e < |s| && IsPySpace(s[5]) && forall k :: 6 <= k < e ==> IsAsciiDigit(s[k])
    ensures forall j :: 5 <= j < e ==> NameTail(s, j, false).None?
  {
    forall j | 5 <= j < e
      ensures NameTail(s, j, false).None?
    {
      if j == 5 {
        NoNameTailAtDigit(s, 5, 6, false);
      } else {
        NoNameTailAtDigit(s, j, j, false);
      }
    }
  }

  /** Where `[^\n\r:]*` may end in `Surah Al-Baqarah`, only the last two letters can
      still start a name. */
  lemma GreedyTails()
    ensures NameTail("Surah Al-Baqarah", 16, true).None?
    ensures NameTail("Surah Al-Baqarah", 15, true).None?
    ensures NameTail("Surah Al-Baqarah", 14, true) == Some("ah")
  {
    var s := "Surah Al-Baqarah";
    SkipWhileEnds(s, 16, 16, IsPySpace);
    assert SkipOptWhere(s, 15, IsColonOrDash) == 15;
    SkipWhileEnds(s, 15, 15, IsPySpace);
    NameTailOf(s, 14, 14, "ah", true);
  }

  /** `Surah Al-Baqarah` is the word `Surah` and a line with no colon. */
  lemma BaqarahLine()
    ensures SurahWordAt("Surah Al-Baqarah", 0) && SkipWhile("Surah Al-Baqarah", 5, IsNameFree) == 16
  {
    var s := "Surah Al-Baqarah";
    SkipWhileEnds(s, 5, 16, IsNameFree);
  }

  /** As written, `Surah Al-Baqarah` matches at its start with the name `ah`. */
  lemma GreedyAtTail()
    ensures SurahNameAt("Surah Al-Baqarah", 0, true) == Some("ah")
  {
    var s := "Surah Al-Baqarah";
    BaqarahLine();
    GreedyTails();
    NameFromLongest(s, 5, 16, 16, 14);
  }

  /** As written, the greedy `[^\n\r:]*` swallows all of a name that ends the text, with
      no colon before it, but its last two letters: `Surah Al-Baqarah` yields `ah`. */
  lemma GreedyNameKeepsTail()
    ensures SurahNameSearch("Surah Al-Baqarah", 0, true) == Some("ah")
  {
    GreedyAtTail();
    SurahNameSearchAtStart("Surah Al-Baqarah", true);
  }

  /** As written, when the surah line holds no colon, `[^\n\r:]*` takes all of it, `\s*`
      crosses the line break and the name is read from the next line. */
  lemma GreedyNameNextLine(line: string, n: string, rest: string)
    requires forall i :: 0 <= i < |line| ==> IsNameFree(line[i])
    requires |line| > 0 ==> !IsWordChar(line[0])
    requires |n| >= 2 && IsAsciiLetter(n[0]) && forall i :: 0 <= i < |n| ==> IsLineNameChar(n[i])
    requires !(Lower(n[0]) == 'n' && Lower(n[1]) == 'o')
    requires |rest| > 0 ==> !IsNameChar(rest[0])
    ensures SurahNameSearch("Surah" + line + "\n" + n + rest, 0, true) == Some(n)
  {
    var s := "Surah" + line + "\n" + n + rest;
    var hi := 5 + |line|;
    assert s[..5] == "Surah";
    assert forall k :: 5 <= k < hi ==> s[k] == line[k - 5];
    assert s[hi] == '\n';
    assert s[hi + 1..hi + 1 + |n|] == n;
    assert hi + 1 + |n| < |s| ==> s[hi + 1 + |n|] == rest[0];
    assert SurahWordAt(s, 0);
    SkipWhileEnds(s, 5, hi, IsNameFree);
    NameTailOf(s, hi, hi + 1, n, true);
    NameFromLongest(s, 5, hi, hi, hi);
    SurahNameSearchAtStart(s, true);
  }

  /** With the corrected pattern, the name after `Surah` and a surah number is taken
      whole, up to whatever cannot continue it on its line. */
  lemma LazyNameAfterNumber(d: string, n: string, rest: string)
    requires |d| > 0 && forall i :: 0 <= i < |d| ==> IsAsciiDigit(d[i])
    requires |n| >= 2 && IsAsciiLetter(n[0]) && forall i :: 0 <= i < |n| ==> IsLineNameChar(n[i])
    requires !(Lower(n[0]) == 'n' && Lower(n[1]) == 'o')
    requires |rest| > 0 ==> !IsLineNameChar(rest[0])
    ensures SurahNameSearch("Surah " + d + " " + n + rest, 0, false) == Some(n)
  {
    var s := "Surah " + d + " " + n + rest;
    var e := 6 + |d|;
    assert s[..6] == "Surah ";
    assert forall k :: 6 <= k < e ==> s[k] == d[k - 6];
    assert s[e] == ' ';
    assert s[e + 1..e + 1 + |n|] == n;
    assert e + 1 + |n| < |s| ==> s[e + 1 + |n|] == rest[0];
    assert SurahWordAt(s, 0);
    var hi := SkipWhile(s, 5, IsNameFree);
    assert e <= hi;
    NoNameTailsAtNumber(s, e);
    NameTailOf(s, e, e + 1, n, false);
    NameFromShortest(s, 5, hi, 5, e);
    SurahNameSearchAtStart(s, false);
  }

  /** The usual layout: the surah line, then the first verse header. */
  function UsualLayout(): string { "Surah 2 Al-Baqarah\nAayat No. 1" }

  /** The usual layout split where the pattern as written reads it. */
  lemma UsualLayoutLines()
    ensures "Surah" + " 2 Al-Baqarah" + "\n" + "Aayat No" + ". 1" == UsualLayout()
  {
  }

  /** The usual layout split where the corrected pattern reads it. */
  lemma UsualLayoutWords()
    ensures "Surah " + "2" + " " + "Al-Baqarah" + "\nAayat No. 1" == UsualLayout()
  {
  }

  /** As written, the usual layout carries the name `Aayat No`: `\s` in the name class
      lets it run on from the line break into the verse header below. */
  lemma GreedyNameUsual()
    ensures SurahNameSearch(UsualLayout(), 0, true) == Some("Aayat No")
  {
    GreedyNameNextLine(" 2 Al-Baqarah", "Aayat No", ". 1");
    UsualLayoutLines();
  }

  /** The corrected pattern reads `Al-Baqarah` from the usual layout. */
  lemma LazyNameUsual()
    ensures SurahNameSearch(UsualLayout(), 0, false) == Some("Al-Baqarah")
  {
    LazyNameAfterNumber("2", "Al-Baqarah", "\nAayat No. 1");
    UsualLayoutWords();
  }

  /** With the corrected pattern, a name right after `Surah ` is taken whole up to
      whatever cannot continue it on its line, a line break included (a name spelt
      `No...` would be read as a verse number prefix). */
  lemma LazyNameRecognised(n: string, rest: string)
    requires |n| >= 2 && IsAsciiLetter(n[0]) && forall i :: 0 <= i < |n| ==> IsLineNameChar(n[i])
    requires !(Lower(n[0]) == 'n' && Lower(n[1]) == 'o')
    requires |rest| == 0 || !IsLineNameChar(rest[0])
    ensures SurahNameSearch("Surah " + n + rest, 0, false) == Some(n)
  {
    var s := "Surah " + n + rest;
    assert s[..6] == "Surah ";
    assert s[6..6 + |n|] == n;
    assert 6 + |n| < |s| ==> s[6 + |n|] == rest[0];
    assert SurahWordAt(s, 0);
    NameTailOf(s, 5, 6, n, false);
    var hi := SkipWhile(s, 5, IsNameFree);
    NameFromShortest(s, 5, hi, 5, 5);
    SurahNameSearchAtStart(s, false);
  }

  // ---------------------------------------------------------------------
  // QUOTE_RE
  // ---------------------------------------------------------------------

  /** The first closing quote at or after `i`. */
  function CloseQuoteFrom(s: string, i: nat): (r: Option<nat>)
    ensures r.Some? ==> i <= r.value < |s| && IsQuoteClose(s[r.value])
    ensures forall k :: i <= k < |s| && (r.None? || k < r.value) ==> !IsQuoteClose(s[k])
    decreases |s| - i
  {
    if i >= |s| then None
    else if IsQuoteClose(s[i]) then Some(i)
    else CloseQuoteFrom(s, i + 1)
  }

  /** `QUOTE_RE.search(s)` from `p`, as the span of the whole match: the first opening
      quote followed, after at least one character, by a closing quote; `.+?` stops at
      the first such closing quote. An opening quote with no closing quote after it rules
      out every later one too, but trying them changes nothing. */
  function QuoteSearch(s: string, p: nat): (r: Option<(nat, nat)>)
    ensures r.Some? ==> p <= r.value.0 && r.value.0 + 2 < r.value.1 <= |s|
    ensures r.Some? ==> IsQuoteOpen(s[r.value.0]) && IsQuoteClose(s[r.value.1 - 1])
    ensures r.None? ==> forall i :: p <= i < |s| && IsQuoteOpen(s[i]) ==> CloseQuoteFrom(s, i + 2).None?
    decreases |s| - p
  {
    if p >= |s| then None
    else if IsQuoteOpen(s[p]) && CloseQuoteFrom(s, p + 2).Some? then
      Some((p, CloseQuoteFrom(s, p + 2).value + 1))
    else QuoteSearch(s, p + 1)
  }

  /** The match opens at the first opening quote from `p` that has a closing quote at
      least two places on, and ends just after the first such closing quote. */
  lemma {:induction false} QuoteSearchFirst(s: string, p: nat, i: nat)
    requires p <= i < |s| && IsQuoteOpen(s[i]) && CloseQuoteFrom(s, i + 2).Some?
    requires forall j :: p <= j < i && IsQuoteOpen(s[j]) ==> CloseQuoteFrom(s, j + 2).None?
    ensures QuoteSearch(s, p) == Some((i, CloseQuoteFrom(s, i + 2).value + 1))
    decreases i - p
  {
    if p < i {
      QuoteSearchFirst(s, p + 1, i);
    }
  }

  // ---------------------------------------------------------------------
  // parse_message
  // ---------------------------------------------------------------------

  /** One record of `ayahs_formatted.json`. */
  datatype Formatted = Formatted(
    surahNumber: Option<int>, surahName: Option<string>, juzNumber: Option<int>, ayahNumber: int,
    arabicText: string, translation: string, tafseer: string, sourcePostId: Option<int>)

  /** The surah number and name carried from one message to the next. */
  datatype Carried = Carried(number: Option<int>, name: Option<string>)

  /** The headers lie inside the text, in order, each with its digits. */
  predicate HeadersIn(text: string, hs: seq<Found<string>>) {
    Chained(hs) && forall k :: 0 <= k < |hs| ==> hs[k].end <= |text| && AllDigits(hs[k].groups)
  }

  /** The section of header `idx`: from the end of its match to the start of the next
      header, or to the end of the text, cleaned. */
  function SectionOf(text: string, hs: seq<Found<string>>, idx: nat): (r: string)
    requires idx < |hs| && HeadersIn(text, hs)
    ensures IsCleanText(r)
  {
    var end := if idx + 1 < |hs| then hs[idx + 1].start else |text|;
    assert idx + 1 < |hs| ==> hs[idx].end <= hs[idx + 1].start < hs[idx + 1].end;
    CleanText(text[hs[idx].end..end])
  }

  /** The verse text, translation and tafseer of a non-empty section: the Arabic line
      and the whole quote each removed once (the quote only when its stripped inside is
      not empty), then cleaned. */
  function SectionParts(section: string): (r: (string, string, string))
    ensures IsCleanText(r.2)
  {
    var arabic := ExtractArabicLine(section);
    var q := QuoteSearch(section, 0);
    var translation := if q.Some? then PyStrip(section[q.value.0 + 1..q.value.1 - 1]) else "";
    var t1 := if arabic != "" then ReplaceFirst(section, arabic, "") else section;
    var t2 := if translation != "" then ReplaceFirst(t1, section[q.value.0..q.value.1], "") else t1;
    (arabic, translation, CleanText(t2))
  }

  /** `juz_number_for(last_surah_num, ayah_num) if last_surah_num else None`. */
  function RecordJuz(number: Option<int>, ayah: int): (r: Option<int>)
    ensures r.Some? <==> number.Some? && number.value != 0
    ensures r.Some? ==> r.value == Juz.GetJuz(number.value, ayah)
  {
    if number.Some? && number.value != 0 then Juz.JuzNumberFor(number, Some(ayah)) else None
  }

  /** The record of header `idx`, none for an empty section. */
  function RecordAt(text: string, hs: seq<Found<string>>, idx: nat, st: Carried, id: Option<int>): (r: Option<Formatted>)
    requires HeadersIn(text, hs)
  {
    if idx >= |hs| then None
    else
      var section := SectionOf(text, hs, idx);
      if section == "" then None
      else
        var (arabic, translation, tafseer) := SectionParts(section);
        var ayah := DigitsValue(hs[idx].groups);
        Some(Formatted(st.number, st.name, RecordJuz(st.number, ayah), ayah, arabic, translation, tafseer, id))
  }

  /** The surah number and name after reading a message's text: a surah number found
      replaces the carried one; a name candidate replaces the carried name when it is
      neither empty nor 60 characters or longer; surah 2 without a name of at least three
      characters is named `Al-Baqarah`. The name is read with the pattern as written:
      on a surah line with no colon its greedy star takes the whole line, so the name is
      cut from the end of that line or runs on past its line break (`Aayat No` for the
      usual layout, `GreedyNameUsual`; `ah` for a text ending in `Surah Al-Baqarah`,
      `GreedyNameKeepsTail`). */
  function Update(text: string, last: Carried): (r: Carried)
    ensures r.number == Some(2) ==> r.name.Some? && |r.name.value| >= 3
  {
    var number := match SurahNumberSearch(text, 0) case Some(d) => Some(DigitsValue(d) as int) case None => last.number;
    var name := match SurahNameSearch(text, 0, true)
      case Some(g) =>
        var candidate := NormalizeSurahName(g);
        if candidate.Some? && candidate.value != "" && |candidate.value| < 60 then candidate else last.name
      case None => last.name;
    if number == Some(2) && (name.None? || |name.value| < 3) then Carried(number, Some("Al-Baqarah"))
    else Carried(number, name)
  }

  /** `parse_message(message, last_surah_num, last_surah_name)`: the records of the
      message and the surah number and name to carry on. */
  function ParseMessage(m: Message, last: Carried): (r: (seq<Formatted>, Carried))
  {
    var raw := FlattenTextNoDict(m.text);
    if raw == "" then ([], last)
    else
      var text := UnifyLineEnds(raw);
      var st := Update(text, last);
      var hs := Headers(text);
      assert HeadersIn(text, hs) by {
        forall k | 0 <= k < |hs|
          ensures hs[k].end <= |text| && AllDigits(hs[k].groups)
        {
          assert hs[k] in hs;
          assert HeaderAt(text, hs[k].start) == Some(hs[k]);
        }
      }
      if hs == [] then ([], st)
      else (Collect((k: nat) => RecordAt(text, hs, k, st, m.id), 0, |hs|), st)
  }

  /** An empty message changes nothing; otherwise the surah number and name carried on
      are those read from its text. A surah number, once known, is never dropped, and
      surah 2 always leaves with a name of at least three characters. */
  lemma ParseMessageCarries(m: Message, last: Carried)
    ensures var (recs, st) := ParseMessage(m, last);
      && (FlattenTextNoDict(m.text) == "" ==> recs == [] && st == last)
      && (FlattenTextNoDict(m.text) != "" ==> st == Update(UnifyLineEnds(FlattenTextNoDict(m.text)), last))
      && (last.number.Some? ==> st.number.Some?)
      && (st.name == last.name || st.name == Some("Al-Baqarah") || (st.name.Some? && 0 < |st.name.value| < 60))
  {
  }

  /** A record of header `k` carries the surah number and name passed on, the message
      id and the value of the header's digits, has a juz exactly when the surah number
      is known and not 0, and has a clean tafseer. */
  lemma RecordAtFields(text: string, hs: seq<Found<string>>, k: nat, st: Carried, id: Option<int>)
    requires HeadersIn(text, hs) && RecordAt(text, hs, k, st, id).Some?
    ensures var x := RecordAt(text, hs, k, st, id).value;
      && k < |hs| && x.surahNumber == st.number && x.surahName == st.name && x.sourcePostId == id
      && x.ayahNumber == DigitsValue(hs[k].groups)
      && (x.juzNumber.Some? <==> st.number.Some? && st.number.value != 0)
      && (x.juzNumber.Some? ==> x.juzNumber.value == Juz.GetJuz(st.number.value, x.ayahNumber))
      && IsCleanText(x.tafseer)
  {
  }

  /** Every record of a message carries the surah number and name passed on, the
      message id, the value of its header's digits, and a juz exactly when the surah
      number is known and not 0 (the juz of that verse); its tafseer is clean text.
      There are no more records than headers. */
  lemma ParseMessageRecords(m: Message, last: Carried)
    ensures var (recs, st) := ParseMessage(m, last);
      var text := UnifyLineEnds(FlattenTextNoDict(m.text));
      && |recs| <= |Headers(text)|
      && forall x :: x in recs ==>
        && x.surahNumber == st.number && x.surahName == st.name && x.sourcePostId == m.id
        && (exists k :: 0 <= k < |Headers(text)| && x.ayahNumber == DigitsValue(Headers(text)[k].groups))
        && (x.juzNumber.Some? <==> st.number.Some? && st.number.value != 0)
        && (x.juzNumber.Some? ==> x.juzNumber.value == Juz.GetJuz(st.number.value, x.ayahNumber))
        && IsCleanText(x.tafseer)
  {
    var (recs, st) := ParseMessage(m, last);
    var raw := FlattenTextNoDict(m.text);
    if raw != "" {
      var text := UnifyLineEnds(raw);
      var hs := Headers(text);
      if hs != [] {
        assert HeadersIn(text, hs);
        var f := (k: nat) => RecordAt(text, hs, k, st, m.id);
        assert recs == Collect(f, 0, |hs|);
        forall x | x in recs
          ensures x.surahNumber == st.number && x.surahName == st.name && x.sourcePostId == m.id
          ensures exists k :: 0 <= k < |hs| && x.ayahNumber == DigitsValue(hs[k].groups)
          ensures x.juzNumber.Some? <==> st.number.Some? && st.number.value != 0
          ensures x.juzNumber.Some? ==> x.juzNumber.value == Juz.GetJuz(st.number.value, x.ayahNumber)
          ensures IsCleanText(x.tafseer)
        {
          CollectMembers(f, 0, |hs|, x);
          var k :| 0 <= k < |hs| && f(k) == Some(x);
          RecordAtFields(text, hs, k, st, m.id);
        }
      }
    }
  }

  /** A header whose section is not empty gives a record. */
  lemma ParseMessageKeepsSections(m: Message, last: Carried, k: nat)
    requires FlattenTextNoDict(m.text) != ""
    requires var text := UnifyLineEnds(FlattenTextNoDict(m.text));
      k < |Headers(text)| && RecordAt(text, Headers(text), k, ParseMessage(m, last).1, m.id).Some?
    ensures var text := UnifyLineEnds(FlattenTextNoDict(m.text));
      RecordAt(text, Headers(text), k, ParseMessage(m, last).1, m.id).value in ParseMessage(m, last).0
  {
    var text := UnifyLineEnds(FlattenTextNoDict(m.text));
    var hs := Headers(text);
    var st := ParseMessage(m, last).1;
    var f := (j: nat) => RecordAt(text, hs, j, st, m.id);
    assert ParseMessage(m, last).0 == Collect(f, 0, |hs|);
    CollectMembers(f, 0, |hs|, f(k).value);
  }

  /** `main`'s loop without the file I/O: the messages of type `message`, parsed in
      order with the surah number and name carried from one to the next. */
  function FormatAll(msgs: seq<Message>): (seq<Formatted>, Carried) {
    if |msgs| == 0 then ([], Carried(None, None))
    else
      var (recs, st) := FormatAll(msgs[..|msgs| - 1]);
      var m := msgs[|msgs| - 1];
      if !m.isMessage then (recs, st)
      else
        var (more, st2) := ParseMessage(m, st);
        (recs + more, st2)
  }

  /** No record of the whole export has a juz without a known surah number, and a
      record has a juz exactly when its surah number is known and not 0. */
  lemma {:induction false} FormatAllJuz(msgs: seq<Message>)
    ensures forall x :: x in FormatAll(msgs).0 ==>
      (x.juzNumber.Some? <==> x.surahNumber.Some? && x.surahNumber.value != 0)
  {
    if |msgs| > 0 {
      var init := msgs[..|msgs| - 1];
      FormatAllJuz(init);
      var (recs, st) := FormatAll(init);
      var m := msgs[|msgs| - 1];
      if m.isMessage {
        ParseMessageRecords(m, st);
      }
    }
  }
}
