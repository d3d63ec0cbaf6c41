/**
 * The scanning half of scripts/admin_sync.py: the `RX_AYAH` and `RX_SURAH`
 * searches, the header filter, the Baqarah fallback, surah-name
 * canonicalisation and the extraction of Arabic lines and quoted
 * translations from an ayah section. Each regular expression is written as a
 * deterministic scanner; the comments say why backtracking cannot change the
 * match. Case-insensitive matching is modelled on ASCII letters.
 */
module SyncScan {
  import opened Base
  import opened Chars
  import opened Strings
  import opened Seqs
  import opened PyText

  // ---------------------------------------------------------------------
  // Scanning steps
  // ---------------------------------------------------------------------

  /** The character at `i` is `c` ignoring ASCII case (`c` is given in lower case). */
  predicate CharIs(s: string, i: nat, c: char) {
    i < |s| && Lower(s[i]) == c
  }

  /** Steps over one optional character `c` (ignoring case). */
  function SkipOpt(s: string, i: nat, c: char): (j: nat)
    requires i <= |s|
    ensures i <= j <= |s| && j <= i + 1
  {
    if CharIs(s, i, c) then i + 1 else i
  }

  /** Steps over one optional character of a class. */
  function SkipOptWhere(s: string, i: nat, p: char -> bool): (j: nat)
    requires i <= |s|
    ensures i <= j <= |s| && j <= i + 1
    ensures j == i + 1 <==> i < |s| && p(s[i])
  {
    if i < |s| && p(s[i]) then i + 1 else i
  }

  /** `[:#-]`. */
  predicate IsNumberMark(c: char) { c == ':' || c == '#' || c == '-' }

  /** The digits both header patterns accept. */
  predicate IsHeaderDigit(c: char) { IsAnyDigit(c) }

  /** Slices of a text occur in it. */
  lemma SliceContained(s: string, a: nat, b: nat)
    requires a <= b <= |s|
    ensures Contains(s, s[a..b])
  {
    assert OccursAt(s, s[a..b], a);
  }

  // ---------------------------------------------------------------------
  // finditer
  // ---------------------------------------------------------------------

  /** A match: its span `[start, end)` and its groups. */
  datatype Found<M> = Found(start: nat, end: nat, groups: M)

  /** `at(i)` is the match of a pattern tried at `i` in a text of length `n`: it starts at
      `i` and is not empty. */
  ghost predicate Anchored<M>(at: nat -> Option<Found<M>>, n: nat) {
    forall i: nat :: at(i).Some? ==> at(i).value.start == i && i < at(i).value.end <= n
  }

  /** Matches that come in order without overlapping. */
  predicate Chained<M>(ms: seq<Found<M>>) {
    (forall k :: 0 <= k < |ms| ==> ms[k].start < ms[k].end) &&
    (forall k :: 0 < k < |ms| ==> ms[k - 1].end <= ms[k].start)
  }

  /** `pattern.finditer(text)` from position `from`: the pattern is tried at each position
      in turn and, after a match, the search resumes where the match ended. */
  function FindAll<M>(n: nat, at: nat -> Option<Found<M>>, from: nat): (r: seq<Found<M>>)
    requires Anchored(at, n)
    ensures forall k :: 0 <= k < |r| ==> from <= r[k].start && at(r[k].start) == Some(r[k])
    ensures Chained(r)
    decreases n - from
  {
    if from >= n then []
    else
      match at(from)
      case Some(m) =>
        var rest := FindAll(n, at, m.end);
        assert forall k :: 0 < k < |[m] + rest| ==> ([m] + rest)[k] == rest[k - 1];
        [m] + rest
      case None =>
        FindAll(n, at, from + 1)
  }

  /** No match is missed: every position where the pattern matches starts one of the
      matches found or lies inside one. */
  lemma {:induction false} FindAllCovers<M>(n: nat, at: nat -> Option<Found<M>>, from: nat, j: nat) returns (k: nat)
    requires Anchored(at, n)
    requires from <= j && at(j).Some?
    ensures k < |FindAll(n, at, from)| && FindAll(n, at, from)[k].start <= j < FindAll(n, at, from)[k].end
    decreases n - from
  {
    var r := FindAll(n, at, from);
    match at(from)
    case Some(m) =>
      if j < m.end {
        k := 0;
      } else {
        var k' := FindAllCovers(n, at, m.end, j);
        k := k' + 1;
        assert r[k] == FindAll(n, at, m.end)[k'];
      }
    case None =>
      assert j != from;
      k := FindAllCovers(n, at, from + 1, j);
  }

  /** Keeping some of a chain of matches leaves a chain. */
  lemma {:induction false} FilterChained<M(!new)>(ms: seq<Found<M>>, keep: Found<M> -> bool)
    requires Chained(ms)
    ensures Chained(Filter(ms, keep))
  {
    if |ms| > 0 {
      ChainedTail(ms);
      FilterChained(ms[1..], keep);
      var rest := Filter(ms[1..], keep);
      if keep(ms[0]) {
        if |rest| > 0 {
          var j := IndexIn(ms[1..], rest[0]);
          ChainedBefore(ms, 0, j + 1);
        }
        ChainedPrepend(ms[0], rest);
      }
    }
  }

  /** The tail of a chain is a chain. */
  lemma ChainedTail<M>(ms: seq<Found<M>>)
    requires Chained(ms) && |ms| > 0
    ensures Chained(ms[1..]) && ms[0].start < ms[0].end
  {
    assert forall k :: 0 <= k < |ms| - 1 ==> ms[1..][k] == ms[k + 1];
  }

  /** A match that ends before a chain starts extends it. */
  lemma ChainedPrepend<M>(m: Found<M>, rest: seq<Found<M>>)
    requires m.start < m.end && Chained(rest)
    requires |rest| > 0 ==> m.end <= rest[0].start
    ensures Chained([m] + rest)
  {
    var r := [m] + rest;
    assert forall k :: 0 < k < |r| ==> r[k] == rest[k - 1];
  }

  /** The index of an element of a sequence. */
  lemma IndexIn<T>(s: seq<T>, x: T) returns (k: nat)
    requires x in s
    ensures k < |s| && s[k] == x
  {
    k :| 0 <= k < |s| && s[k] == x;
  }

  /** Along a chain, an earlier match ends before a later one starts. */
  lemma {:induction false} ChainedBefore<M>(ms: seq<Found<M>>, a: nat, b: nat)
    requires Chained(ms) && a < b < |ms|
    ensures ms[a].end <= ms[b].start
    decreases b - a
  {
    if a + 1 < b {
      ChainedBefore(ms, a + 1, b);
    }
  }

  // ---------------------------------------------------------------------
  // RX_AYAH
  // ---------------------------------------------------------------------

  /** The groups of an `RX_AYAH` match: the start verse digits and the end verse digits
      of a range. */
  datatype AyahGroups = AyahGroups(first: string, last: Option<string>)

  /** The part of `RX_AYAH` after group 1: greedy whitespace, then an optional
      `-` whitespace digits. The optional group is tried first and, when it fails, the
      match ends after the whitespace. */
  function AyahRangeTail(s: string, d1: nat): (r: (nat, Option<string>))
    requires d1 <= |s|
    ensures d1 <= r.0 <= |s|
    ensures r.1.Some? ==> |r.1.value| > 0 && AllDigits(r.1.value) && r.0 > d1
  {
    var e := SkipWhile(s, d1, IsPySpace);
    if e < |s| && s[e] == '-' then
      var f0 := SkipWhile(s, e + 1, IsPySpace);
      var f1 := SkipWhile(s, f0, IsHeaderDigit);
      if f1 > f0 then (f1, Some(s[f0..f1])) else (e, None)
    else (e, None)
  }

  /** Where the `No` of `RX_AYAH` ends when the pattern is tried at `i`: `A`, an optional
      `a`, `y`, an optional `a`, an optional `t`, whitespace and `No`, ignoring case. */
  function AyahKeywordEnd(s: string, i: nat): (r: Option<nat>)
    ensures r.Some? ==> i < r.value <= |s| && CharIs(s, i, 'a')
  {
    if !CharIs(s, i, 'a') then None
    else
      var j1 := SkipOpt(s, i + 1, 'a');
      if !CharIs(s, j1, 'y') then None
      else
        var j2 := SkipOpt(s, SkipOpt(s, j1 + 1, 'a'), 't');
        var j3 := SkipWhile(s, j2, IsPySpace);
        if CharIs(s, j3, 'n') && CharIs(s, j3 + 1, 'o') then Some(j3 + 2) else None
  }

  /** `RX_AYAH` tried at `i`: the keyword, an optional dot, whitespace, an optional
      `[:#-]`, whitespace, the start digits and the range tail. Every optional item is
      followed by something it cannot also be, so taking it never has to be undone; the
      greedy digit run is never shortened because what follows it may be empty. */
  function AyahAt(s: string, i: nat): (r: Option<Found<AyahGroups>>)
    ensures r.Some? ==> r.value.start == i && i < r.value.end <= |s|
    ensures r.Some? ==> |r.value.groups.first| > 0 && AllDigits(r.value.groups.first)
    ensures r.Some? && r.value.groups.last.Some? ==> |r.value.groups.last.value| > 0 && AllDigits(r.value.groups.last.value)
    ensures r.Some? ==> CharIs(s, i, 'a')
  {
    match AyahKeywordEnd(s, i)
    case None => None
    case Some(j) =>
      var j4 := SkipOpt(s, j, '.');
      var j5 := SkipOptWhere(s, SkipWhile(s, j4, IsPySpace), IsNumberMark);
      var d0 := SkipWhile(s, j5, IsPySpace);
      var d1 := SkipWhile(s, d0, IsHeaderDigit);
      if d1 == d0 then None
      else
        var t := AyahRangeTail(s, d1);
        DigitSpan(s, d0, d1);
        Some(Found(i, t.0, AyahGroups(s[d0..d1], t.1)))
  }

  /** `RX_AYAH` as a matcher over positions of `s`. */
  function AyahMatcher(s: string): nat -> Option<Found<AyahGroups>> {
    (i: nat) => AyahAt(s, i)
  }

  lemma AyahMatcherAnchored(s: string)
    ensures Anchored(AyahMatcher(s), |s|)
  {
    forall i: nat | AyahMatcher(s)(i).Some? ensures AyahMatcher(s)(i).value.start == i < AyahMatcher(s)(i).value.end <= |s| {
      assert AyahMatcher(s)(i) == AyahAt(s, i);
    }
  }

  /** `RX_AYAH.finditer(text)`. */
  function AyahMatches(s: string): (r: seq<Found<AyahGroups>>)
    ensures Chained(r)
    ensures forall m :: m in r ==> AyahAt(s, m.start) == Some(m)
  {
    AyahMatcherAnchored(s);
    var r := FindAll(|s|, AyahMatcher(s), 0);
    assert forall k :: 0 <= k < |r| ==> AyahMatcher(s)(r[k].start) == AyahAt(s, r[k].start);
    r
  }

  /** Where the line holding position `i` begins: one past the last newline before `i`,
      or 0 (`text.rfind("\n", 0, i) + 1`). */
  function LineStart(s: string, i: nat): (ls: nat)
    requires i <= |s|
    ensures ls <= i
    ensures ls == 0 || s[ls - 1] == '\n'
    ensures forall k :: ls <= k < i ==> s[k] != '\n'
  {
    if i == 0 || s[i - 1] == '\n' then i else LineStart(s, i - 1)
  }

  /** `is_valid_ayah_header`: nothing but non-alphanumeric characters stands before the
      match on its line. */
  predicate IsValidAyahHeader(s: string, m: Found<AyahGroups>) {
    m.start <= |s| && forall k :: LineStart(s, m.start) <= k < m.start ==> !IsAsciiAlnum(s[k])
  }

  /** The ayah headers of a post: the `RX_AYAH` matches that pass `is_valid_ayah_header`,
      in order; every valid match is kept. */
  function HeaderMatches(s: string): (r: seq<Found<AyahGroups>>)
    ensures Chained(r)
    ensures forall m :: m in r <==> m in AyahMatches(s) && IsValidAyahHeader(s, m)
  {
    var ms := AyahMatches(s);
    var r := Filter(ms, m => IsValidAyahHeader(s, m));
    FilterChained(ms, m => IsValidAyahHeader(s, m));
    r
  }

  /** No `RX_AYAH` match is missed: a position where the pattern matches starts one of
      the matches found or lies inside one. */
  lemma AyahMatchesCover(s: string, j: nat) returns (m: Found<AyahGroups>)
    requires AyahAt(s, j).Some?
    ensures m in AyahMatches(s) && m.start <= j < m.end
  {
    AyahMatcherAnchored(s);
    assert AyahMatcher(s)(j) == AyahAt(s, j);
    var k := FindAllCovers(|s|, AyahMatcher(s), 0, j);
    m := AyahMatches(s)[k];
  }

  /** A header written the usual way, `Ayat No. ` and the verse digits, is matched at its
      first character with those digits as group 1 and no range, when what follows is
      neither whitespace, a digit nor a dash. */
  lemma AyahHeaderRecognised(d: string, rest: string)
    requires |d| > 0 && AllDigits(d)
    requires |rest| > 0 ==> !IsPySpace(rest[0]) && !IsHeaderDigit(rest[0]) && rest[0] != '-'
    ensures AyahAt("Ayat No. " + d + rest, 0) == Some(Found(0, 9 + |d|, AyahGroups(d, None)))
  {
    var s := "Ayat No. " + d + rest;
    assert s[..9] == "Ayat No. ";
    assert forall k :: 9 <= k < 9 + |d| ==> s[k] == d[k - 9];
    assert s[9..9 + |d|] == d;
    AyahAtUsual(s, 9 + |d|);
  }

  /** `Ayat No` at the start of a text is the keyword of `RX_AYAH`. */
  lemma AyatKeywordAtStart(s: string)
    requires |s| >= 9 && s[..9] == "Ayat No. "
    ensures AyahKeywordEnd(s, 0) == Some(7)
  {
    assert s[0] == 'A' && s[1] == 'y' && s[2] == 'a' && s[3] == 't' && s[4] == ' ';
    assert s[5] == 'N' && s[6] == 'o';
    assert SkipOpt(s, 1, 'a') == 1;
    assert SkipOpt(s, SkipOpt(s, 2, 'a'), 't') == 4;
    SkipWhileEnds(s, 4, 5, IsPySpace);
  }

  /** `Ayat No. ` and a run of digits ending at `e`, not followed by whitespace, a digit
      or a dash, is a match of `RX_AYAH` with those digits and no range. */
  lemma AyahAtUsual(s: string, e: nat)
    requires 9 < e <= |s| && s[..9] == "Ayat No. "
    requires forall k :: 9 <= k < e ==> IsHeaderDigit(s[k])
    requires e < |s| ==> !IsPySpace(s[e]) && !IsHeaderDigit(s[e]) && s[e] != '-'
    ensures AyahAt(s, 0) == Some(Found(0, e, AyahGroups(s[9..e], None)))
  {
    AyatKeywordAtStart(s);
    assert s[7] == '.' && s[8] == ' ';
    assert SkipOpt(s, 7, '.') == 8;
    SkipWhileEnds(s, 8, 9, IsPySpace);
    assert SkipOptWhere(s, 9, IsNumberMark) == 9;
    SkipWhileEnds(s, 9, 9, IsPySpace);
    SkipWhileEnds(s, 9, e, IsHeaderDigit);
    SkipWhileEnds(s, e, e, IsPySpace);
  }

  // ---------------------------------------------------------------------
  // RX_SURAH
  // ---------------------------------------------------------------------

  /** The groups of an `RX_SURAH` match: the surah digits and the name after them. */
  datatype SurahGroups = SurahGroups(number: string, name: Option<string>)

  predicate IsNotAlnum(c: char) { !IsAsciiAlnum(c) }

  /** `[*_~\-\s]`: what may stand right before `Surah`. */
  predicate IsSurahLead(c: char) { IsPySpace(c) || c == '*' || c == '_' || c == '~' || c == '-' }

  /** `[^A-Za-z0-9\r\n]`. */
  predicate IsLooseMark(c: char) { !IsAsciiAlnum(c) && c != '\r' && c != '\n' }

  /** `[-,:]`. */
  predicate IsNameSep(c: char) { c == '-' || c == ',' || c == ':' }

  /** `[A-Za-z'\-\s]`: the characters a surah name continues with. */
  predicate IsNameChar(c: char) { IsAsciiLetter(c) || c == '\'' || c == '-' || IsPySpace(c) }

  predicate IsNotNewline(c: char) { c != '\n' }

  /** The start of the run of `IsSurahLead` characters that ends at `k`, not going back
      past `lo`. */
  function LeadStart(s: string, lo: nat, k: nat): (j: nat)
    requires lo <= k <= |s|
    ensures lo <= j <= k
    ensures forall t :: j <= t < k ==> IsSurahLead(s[t])
    ensures j > lo ==> !IsSurahLead(s[j - 1])
    decreases k
  {
    if k > lo && IsSurahLead(s[k - 1]) then LeadStart(s, lo, k - 1) else k
  }

  /** The prefix `\s*[^A-Za-z0-9\r\n]{0,30}\s*[*_~\-\s]*` can cover `[ls, k)`. None of
      its classes holds an ASCII letter or digit, so `k` is the first of those from `ls`.
      The last class takes the longest run it can before `k` (at `j0`); the first
      whitespace run takes what it can before that; what remains between must be at most
      30 characters of the loose class. */
  predicate PrefixFits(s: string, ls: nat, k: nat)
    requires ls <= k <= |s|
  {
    var j0 := LeadStart(s, ls, k);
    var w := SkipWhile(s, ls, IsPySpace);
    var a := if w < j0 then w else j0;
    j0 - a <= 30 && forall t :: a <= t < j0 ==> IsLooseMark(s[t])
  }

  /** The name group `([A-Za-z][A-Za-z'\-\s]+)?` at `r`: a letter and at least one name
      character, as many as there are. */
  function NameAt(s: string, r: nat): (name: Option<string>)
    requires r <= |s|
    ensures name.Some? ==> |name.value| >= 2 && IsAsciiLetter(name.value[0])
    ensures name.Some? ==> forall t :: 0 <= t < |name.value| ==> IsNameChar(name.value[t])
  {
    if r + 1 < |s| && IsAsciiLetter(s[r]) && IsNameChar(s[r + 1]) then
      Some(s[r..SkipWhile(s, r + 1, IsNameChar)])
    else None
  }

  /** Where `Sura(h|t)\s*(?:No\.?|number)?` ends when `Surah` starts at `k`. `No` and
      `number` cannot both start at the same place, and when the optional word is taken
      but the digits do not follow, leaving it out does not bring digits either. */
  function SurahKeywordEnd(s: string, k: nat): (r: Option<nat>)
    ensures r.Some? ==> k + 5 <= r.value <= |s|
  {
    if !(CharIs(s, k, 's') && CharIs(s, k + 1, 'u') && CharIs(s, k + 2, 'r') && CharIs(s, k + 3, 'a') &&
         (CharIs(s, k + 4, 'h') || CharIs(s, k + 4, 't')))
    then None
    else
      var j1 := SkipWhile(s, k + 5, IsPySpace);
      if CharIs(s, j1, 'n') && CharIs(s, j1 + 1, 'o') then Some(SkipOpt(s, j1 + 2, '.'))
      else if OccursAtIgnoreCase(s, "number", j1) then Some(j1 + 6)
      else Some(j1)
  }

  /** The rest of `RX_SURAH` from `Surah` at `k`: the keyword, whitespace, an optional
      `[:#-]`, whitespace, the digits (group 1), whitespace, an optional `[-,:]`,
      whitespace and the optional name (group 2). The name can only start at the end of
      that last whitespace run, so the greedy choices are the only ones. */
  function SurahTail(s: string, k: nat): (r: Option<SurahGroups>)
    ensures r.Some? ==> |r.value.number| > 0 && AllDigits(r.value.number)
  {
    match SurahKeywordEnd(s, k)
    case None => None
    case Some(j2) =>
      var j4 := SkipOptWhere(s, SkipWhile(s, j2, IsPySpace), IsNumberMark);
      var d0 := SkipWhile(s, j4, IsPySpace);
      var d1 := SkipWhile(s, d0, IsHeaderDigit);
      if d1 == d0 then None
      else
        var q := SkipOptWhere(s, SkipWhile(s, d1, IsPySpace), IsNameSep);
        Some(SurahGroups(s[d0..d1], NameAt(s, SkipWhile(s, q, IsPySpace))))
  }

  /** `RX_SURAH` tried at the line start `ls`. */
  function SurahAtLine(s: string, ls: nat): (r: Option<SurahGroups>)
    requires ls <= |s|
    ensures r.Some? ==> |r.value.number| > 0 && AllDigits(r.value.number)
  {
    var k := SkipWhile(s, ls, IsNotAlnum);
    if PrefixFits(s, ls, k) then SurahTail(s, k) else None
  }

  /** `RX_SURAH.search(text)` from the line start `ls`: `^` in multi-line mode anchors at
      the text start and after every newline, and the first line start where the pattern
      matches wins. */
  function SurahSearchFrom(s: string, ls: nat): (r: Option<SurahGroups>)
    requires ls <= |s|
    ensures r.Some? ==> |r.value.number| > 0 && AllDigits(r.value.number)
    decreases |s| - ls
  {
    match SurahAtLine(s, ls)
    case Some(g) => Some(g)
    case None =>
      var nl := SkipWhile(s, ls, IsNotNewline);
      if nl < |s| then SurahSearchFrom(s, nl + 1) else None
  }

  /** `RX_SURAH.search(text)`. */
  function SurahSearch(s: string): (r: Option<SurahGroups>)
    ensures r.Some? ==> |r.value.number| > 0 && AllDigits(r.value.number)
  {
    SurahSearchFrom(s, 0)
  }

  /** A post whose first line reads `Surah ` and the surah digits, followed by a
      character that cannot continue the header (an Arabic letter, say), gives those
      digits and no name. */
  lemma SurahHeaderRecognised(d: string, rest: string)
    requires |d| > 0 && AllDigits(d)
    requires |rest| > 0 && IsArabic(rest[0]) && !IsHeaderDigit(rest[0])
    ensures SurahSearch("Surah " + d + rest) == Some(SurahGroups(d, None))
  {
    var s := "Surah " + d + rest;
    var n := 6 + |d|;
    assert s[..6] == "Surah ";
    assert forall k :: 6 <= k < n ==> s[k] == d[k - 6];
    assert s[n] == rest[0];
    assert s[6..n] == d;
    SurahAtUsual(s, n);
  }

  /** `Surah ` at the start of a text is the keyword of `RX_SURAH`, without `No` or
      `number` when a digit follows. */
  lemma SurahKeywordAtStart(s: string)
    requires |s| > 6 && s[..6] == "Surah " && IsHeaderDigit(s[6])
    ensures SurahKeywordEnd(s, 0) == Some(6)
  {
    assert s[0] == 'S' && s[1] == 'u' && s[2] == 'r' && s[3] == 'a' && s[4] == 'h' && s[5] == ' ';
    SkipWhileEnds(s, 5, 6, IsPySpace);
    assert !CharIs(s, 6, 'n') && !OccursAtIgnoreCase(s, "number", 6);
  }

  /** `Surah `, a run of digits ending at `n` and then an Arabic character that is not a
      digit: `RX_SURAH` matches on the first line with those digits and no name. */
  lemma SurahAtUsual(s: string, n: nat)
    requires 6 < n < |s| && s[..6] == "Surah "
    requires forall k :: 6 <= k < n ==> IsHeaderDigit(s[k])
    requires IsArabic(s[n]) && !IsHeaderDigit(s[n])
    ensures SurahSearch(s) == Some(SurahGroups(s[6..n], None))
  {
    assert s[0] == 'S';
    SkipWhileEnds(s, 0, 0, IsNotAlnum);
    assert PrefixFits(s, 0, 0);
    SurahKeywordAtStart(s);
    SkipWhileEnds(s, 6, 6, IsPySpace);
    assert SkipOptWhere(s, 6, IsNumberMark) == 6;
    SkipWhileEnds(s, 6, n, IsHeaderDigit);
    SkipWhileEnds(s, n, n, IsPySpace);
    assert SkipOptWhere(s, n, IsNameSep) == n;
    assert NameAt(s, n) == None;
    assert SurahTail(s, 0) == Some(SurahGroups(s[6..n], None));
    assert SurahAtLine(s, 0) == Some(SurahGroups(s[6..n], None));
  }

  // ---------------------------------------------------------------------
  // The Baqarah fallback
  // ---------------------------------------------------------------------

  /** `surah\s+.*(baqarah|baqrah)` matches with `surah` at `i` and the name at `p`
      (ignoring case): at least one whitespace character after `surah`, and no newline
      between the end of that whitespace run and the name (`.` stops at newlines; the
      whitespace run may itself hold newlines, and shortening it only adds whitespace to
      what `.` must cover). */
  predicate BaqarahMentionAt(s: string, i: nat, p: nat) {
    OccursAtIgnoreCase(s, "surah", i) && i + 5 < |s| && IsPySpace(s[i + 5]) &&
    var w := SkipWhile(s, i + 5, IsPySpace);
    w <= p && (OccursAtIgnoreCase(s, "baqarah", p) || OccursAtIgnoreCase(s, "baqrah", p)) &&
    forall t :: w <= t < p ==> s[t] != '\n'
  }

  /** `re.search(r"(?i)surah\s+.*(baqarah|baqrah)", text)` finds a match. */
  predicate MentionsBaqarah(s: string) {
    exists i: nat, p: nat | i <= p <= |s| :: BaqarahMentionAt(s, i, p)
  }

  /** A post that says `Surah Al-Baqarah` on one line mentions it. */
  lemma MentionsBaqarahByName(pre: string, post: string)
    ensures MentionsBaqarah(pre + "Surah Al-Baqarah" + post)
  {
    var t := "Surah Al-Baqarah";
    var s := pre + t + post;
    MiddleSlice(pre, t, post, 0, 5);
    MiddleSlice(pre, t, post, 5, 6);
    MiddleSlice(pre, t, post, 6, 9);
    MiddleSlice(pre, t, post, 9, 16);
    assert t[0..5] == "Surah" && t[5..6] == " " && t[6..9] == "Al-" && t[9..16] == "Baqarah";
    assert s[|pre| + 5] == s[|pre| + 5..|pre| + 6][0];
    MentionOfLayout(s, |pre|);
  }

  /** `Surah Al-` followed by `Baqarah` at `i` is a mention of al-Baqarah. */
  lemma MentionOfLayout(s: string, i: nat)
    requires i + 16 <= |s| && s[i..i + 5] == "Surah" && s[i + 5] == ' '
    requires s[i + 6..i + 9] == "Al-" && s[i + 9..i + 16] == "Baqarah"
    ensures BaqarahMentionAt(s, i, i + 9)
  {
    assert forall t :: i + 6 <= t < i + 9 ==> s[t] == s[i + 6..i + 9][t - i - 6];
    assert OccursAtIgnoreCase(s, "surah", i);
    SkipWhileEnds(s, i + 5, i + 6, IsPySpace);
    assert OccursAtIgnoreCase(s, "baqarah", i + 9);
  }

  // ---------------------------------------------------------------------
  // canonical_surah_name
  // ---------------------------------------------------------------------

  /** The characters `strip(" *_'\",-")` removes. */
  predicate IsNameTrim(c: char) { c == ' ' || c == '*' || c == '_' || c == '\'' || c == '"' || c == ',' || c == '-' }

  /** `re.sub(r"\s+", " ", raw or "").strip(" *_'\",-")`. */
  function TidyName(raw: Option<string>): (r: string)
    ensures IsTidyName(r)
  {
    var q := SquashRuns(OrEmpty(raw), IsPySpace, ' ');
    var r := Trim(q, IsNameTrim);
    SquashRunsOnlyRep(OrEmpty(raw), IsPySpace, ' ');
    TidySlice(q, RunLength(q, IsNameTrim), |r|);
    r
  }

  /** A tidy name: its only whitespace is single spaces and its ends are not in the strip
      set. */
  predicate IsTidyName(r: string) {
    SingleSpaced(r) && IsTrimmed(r, IsNameTrim)
  }

  /** The only whitespace is single plain spaces. */
  predicate SingleSpaced(r: string) {
    NoAdjacent(r, IsPySpace) && forall i :: 0 <= i < |r| && IsPySpace(r[i]) ==> r[i] == ' '
  }

  lemma TidySlice(q: string, a: nat, n: nat)
    requires a + n <= |q| && SingleSpaced(q)
    ensures SingleSpaced(q[a..a + n])
  {
    NoAdjacentSlice(q, IsPySpace, a, a + n);
  }

  /** The Baqarah spellings `canonical_surah_name` folds: `baqarah`, `baqrah`, and either
      after `al` with an optional dash or whitespace character, ignoring case. */
  predicate IsBaqarahName(name: string) {
    var l := LowerStr(name);
    IsBaqarahWord(l) || (|l| >= 2 && l[..2] == "al" && (IsBaqarahWord(l[2..]) ||
      (|l| >= 3 && (l[2] == '-' || IsPySpace(l[2])) && IsBaqarahWord(l[3..]))))
  }

  predicate IsBaqarahWord(t: string) { t == "baqarah" || t == "baqrah" }

  /** `canonical_surah_name(raw_name, surah_number)`: the tidied name, `Al-Baqarah` for
      any of its spellings, and `Surah N` when nothing is left. The result is never empty
      and is itself tidy. */
  function CanonicalSurahName(raw: Option<string>, n: nat): (r: string)
    ensures r != "" && IsTidyName(r)
    ensures IsBaqarahName(TidyName(raw)) ==> r == "Al-Baqarah"
    ensures TidyName(raw) == "" ==> r == "Surah " + NatToString(n)
    ensures r == "Al-Baqarah" || r == TidyName(raw) || r == "Surah " + NatToString(n)
  {
    var name := TidyName(raw);
    if IsBaqarahName(name) then
      BaqarahTidy();
      "Al-Baqarah"
    else if name != "" then name
    else
      SurahFallbackTidy(n);
      "Surah " + NatToString(n)
  }

  lemma BaqarahTidy()
    ensures IsTidyName("Al-Baqarah") && IsBaqarahName("Al-Baqarah")
  {
    BaqarahLower();
    var l := LowerStr("Al-Baqarah");
    assert l[..2] == "al" && l[3..] == "baqarah";
    var t := "Al-Baqarah";
    forall i | 0 <= i < |t| ensures !IsPySpace(t[i]) {
      assert IsAsciiLetter(t[i]) || t[i] == '-';
    }
  }

  lemma BaqarahLower()
    ensures LowerStr("Al-Baqarah") == "al-baqarah"
  {
    var l := LowerStr("Al-Baqarah");
    assert forall i | 0 <= i < 10 :: l[i] == Lower("Al-Baqarah"[i]);
    assert l == "al-baqarah";
  }

  lemma SurahFallbackTidy(n: nat)
    ensures IsTidyName("Surah " + NatToString(n)) && !IsBaqarahName("Surah " + NatToString(n))
  {
    var s := "Surah " + NatToString(n);
    assert forall i :: 0 <= i < |s| && IsPySpace(s[i]) ==> i == 5;
    var l := LowerStr(s);
    assert l[0] == 's';
  }

  /** Canonicalising a canonical name changes nothing. */
  lemma CanonicalSurahNameIdempotent(raw: Option<string>, n: nat)
    ensures CanonicalSurahName(Some(CanonicalSurahName(raw, n)), n) == CanonicalSurahName(raw, n)
  {
    var r := CanonicalSurahName(raw, n);
    TidyFixed(r);
    if r == "Al-Baqarah" {
      BaqarahTidy();
    } else if r == "Surah " + NatToString(n) {
      SurahFallbackTidy(n);
    }
  }

  /** Tidying a tidy name changes nothing. */
  lemma TidyFixed(r: string)
    requires IsTidyName(r)
    ensures TidyName(Some(r)) == r
  {
    SquashRunsFixed(r, IsPySpace, ' ');
  }

  // ---------------------------------------------------------------------
  // Arabic verse lines
  // ---------------------------------------------------------------------

  /** No ASCII letter anywhere in the text. */
  predicate NoAsciiLetter(t: string) {
    forall i :: 0 <= i < |t| ==> !IsAsciiLetter(t[i])
  }

  /** `is_primary_arabic_line(line)`: the stripped line is not empty, holds no ASCII
      letter and holds at least six characters of the Arabic block. */
  predicate IsPrimaryArabicLine(line: string) {
    var t := PyStrip(line);
    t != "" && NoAsciiLetter(t) && Count(t, IsArabic) >= 6
  }

  /** Whitespace is neither a letter nor in the Arabic block. */
  lemma SpaceIsNotArabic()
    ensures forall c :: IsPySpace(c) ==> !IsArabic(c) && !IsAsciiLetter(c)
  {
  }

  /** Trimming characters of one class keeps the count of a disjoint class. */
  lemma TrimCount(s: string, p: char -> bool, q: char -> bool)
    requires forall c :: p(c) ==> !q(c)
    ensures Count(Trim(s, p), q) == Count(s, q)
  {
    var a := RunLength(s, p);
    var b := a + |Trim(s, p)|;
    TrimOutside(s, p);
    CountMiddle(s, a, b, q);
  }

  /** When nothing outside `s[a..b]` is counted, the count of `s` is that of the slice. */
  lemma CountMiddle<T>(s: seq<T>, a: nat, b: nat, q: T -> bool)
    requires a <= b <= |s|
    requires forall i :: 0 <= i < a ==> !q(s[i])
    requires forall i :: b <= i < |s| ==> !q(s[i])
    ensures Count(s, q) == Count(s[a..b], q)
  {
    CountTakeZeros(s, b, q);
    var t := s[..b];
    assert forall i :: 0 <= i < a ==> t[i] == s[i];
    CountDropZeros(t, a, q);
    assert t[a..] == s[a..b];
  }

  /** No ASCII letter, counted. */
  lemma NoAsciiLetterCount(t: string)
    ensures NoAsciiLetter(t) <==> Count(t, IsAsciiLetter) == 0
  {
    CountZero(t, IsAsciiLetter);
  }

  /** Stripping a line does not matter to the test: a line is a primary Arabic line
      exactly when it holds no ASCII letter and at least six Arabic characters. */
  lemma PrimaryArabicUnstripped(line: string)
    ensures IsPrimaryArabicLine(line) <==> NoAsciiLetter(line) && Count(line, IsArabic) >= 6
  {
    var t := PyStrip(line);
    SpaceIsNotArabic();
    TrimCount(line, IsPySpace, IsArabic);
    TrimCount(line, IsPySpace, IsAsciiLetter);
    NoAsciiLetterCount(line);
    NoAsciiLetterCount(t);
  }

  /** The words that mark a header line: `ayat|aayat|surah|surat`, ignoring case. */
  predicate MentionsHeaderWord(line: string) {
    var l := LowerStr(line);
    Contains(l, "ayat") || Contains(l, "aayat") || Contains(l, "surah") || Contains(l, "surat")
  }

  /** The characters `strip("*_ -\u2022\u25aa\ufe0f\t")` removes. */
  predicate IsArabicLineTrim(c: char) {
    c == '*' || c == '_' || c == ' ' || c == '-' || c == '\U{2022}' || c == '\U{25AA}' || c == '\U{FE0F}' || c == '\t'
  }

  /** A line `extract_arabic_lines` returns: not empty, no ASCII letter, at least six
      Arabic characters, and neither end in the strip set. */
  predicate IsArabicVerseLine(x: string) {
    x != "" && NoAsciiLetter(x) && Count(x, IsArabic) >= 6 && IsTrimmed(x, IsArabicLineTrim)
  }

  /** What one raw line of a section contributes to `extract_arabic_lines`: the stripped
      line, unless it is empty, names a header word or is not a primary Arabic line, with
      the decoration characters stripped from its ends, unless nothing is left. */
  function ArabicLineOf(raw: string): (r: Option<string>)
    ensures r.Some? ==> IsArabicVerseLine(r.value) && Contains(raw, r.value)
  {
    var line := PyStrip(raw);
    if line == "" || MentionsHeaderWord(line) || !IsPrimaryArabicLine(line) then None
    else
      var c := Trim(line, IsArabicLineTrim);
      if c == "" then None
      else
        CleanedArabicLine(raw, line);
        Some(c)
  }

  /** The stripped primary Arabic line, with its decoration stripped, is an Arabic verse
      line found in the raw line. */
  lemma CleanedArabicLine(raw: string, line: string)
    requires line == PyStrip(raw) && IsPrimaryArabicLine(line)
    requires Trim(line, IsArabicLineTrim) != ""
    ensures IsArabicVerseLine(Trim(line, IsArabicLineTrim))
    ensures Contains(raw, Trim(line, IsArabicLineTrim))
  {
    var c := Trim(line, IsArabicLineTrim);
    PrimaryArabicUnstripped(line);
    ArabicTrimKeeps(line);
    PyStripContained(raw);
    TrimContained(line, IsArabicLineTrim);
    ContainsTransitive(raw, line, c);
  }

  /** Stripping the decoration characters keeps every Arabic character and adds no
      letter. */
  lemma ArabicTrimKeeps(line: string)
    ensures NoAsciiLetter(line) ==> NoAsciiLetter(Trim(line, IsArabicLineTrim))
    ensures Count(Trim(line, IsArabicLineTrim), IsArabic) == Count(line, IsArabic)
  {
    var t := Trim(line, IsArabicLineTrim);
    TrimCount(line, IsArabicLineTrim, IsArabic);
    TrimCount(line, IsArabicLineTrim, IsAsciiLetter);
    NoAsciiLetterCount(line);
    NoAsciiLetterCount(t);
  }

  /** The lines `extract_arabic_lines` keeps from a list of raw lines, in order: exactly
      those some raw line contributes. */
  function ArabicLinesOf(parts: seq<string>): (r: seq<string>)
    ensures |r| <= |parts|
    ensures forall x :: x in r ==> IsArabicVerseLine(x)
    ensures forall j :: 0 <= j < |parts| && ArabicLineOf(parts[j]).Some? ==> ArabicLineOf(parts[j]).value in r
  {
    var r := Collect(ArabicLineAt(parts), 0, |parts|);
    assert forall x :: x in r ==> IsArabicVerseLine(x) by {
      forall x | x in r ensures IsArabicVerseLine(x) {
        var j := ArabicLinesOfOrigin(parts, x);
      }
    }
    assert forall j :: 0 <= j < |parts| && ArabicLineOf(parts[j]).Some? ==> ArabicLineOf(parts[j]).value in r by {
      forall j | 0 <= j < |parts| && ArabicLineOf(parts[j]).Some? ensures ArabicLineOf(parts[j]).value in r {
        CollectMembers(ArabicLineAt(parts), 0, |parts|, ArabicLineOf(parts[j]).value);
        assert ArabicLineAt(parts)(j) == ArabicLineOf(parts[j]);
      }
    }
    r
  }

  /** What raw line `k` contributes, as a function of `k`. */
  function ArabicLineAt(parts: seq<string>): nat -> Option<string> {
    (k: nat) => if k < |parts| then ArabicLineOf(parts[k]) else None
  }

  /** Every kept line is what some raw line contributes. */
  lemma ArabicLinesOfOrigin(parts: seq<string>, x: string) returns (j: nat)
    requires x in Collect(ArabicLineAt(parts), 0, |parts|)
    ensures j < |parts| && ArabicLineOf(parts[j]) == Some(x)
  {
    CollectMembers(ArabicLineAt(parts), 0, |parts|, x);
    j :| 0 <= j < |parts| && ArabicLineAt(parts)(j) == Some(x);
  }

  /** `extract_arabic_lines(section)`: the Arabic verse lines of the section's lines, in
      order; each occurs in the section, so removing it from the section's text removes
      something. */
  function ExtractArabicLines(section: string): (r: seq<string>)
    ensures forall x :: x in r ==> IsArabicVerseLine(x) && Contains(section, x)
  {
    var parts := Split(section, '\n');
    var r := ArabicLinesOf(parts);
    assert forall x :: x in r ==> Contains(section, x) by {
      forall x | x in r ensures Contains(section, x) {
        var j := ArabicLinesOfOrigin(parts, x);
        JoinContainsPart(parts, "\n", j);
        ContainsTransitive(section, parts[j], x);
      }
    }
    r
  }

  // ---------------------------------------------------------------------
  // Quoted translations
  // ---------------------------------------------------------------------

  /** The groups of a quote match: the text between the delimiters. */
  datatype QuoteGroups = QuoteGroups(inner: string)

  predicate IsQuoteOpen(c: char) { c == '"' || c == '\U{201C}' }
  predicate IsQuoteClose(c: char) { c == '"' || c == '\U{201D}' }
  predicate IsQuoteBody(c: char) { c != '"' && c != '\n' && c != '\U{201D}' }
  predicate IsUnderscore(c: char) { c == '_' }
  predicate IsUnderscoreBody(c: char) { c != '_' && c != '\n' }

  /** A delimited pattern such as `["\u201c]([^"\n\u201d]{15,})["\u201d]` tried at `i`:
      an opening character, at least 15 body characters, a closing character. The body
      run is greedy; the closing characters are not body characters, so a shorter run
      is followed by a body character and cannot close either. */
  function DelimitedAt(s: string, i: nat, open: char -> bool, body: char -> bool, close: char -> bool): (r: Option<Found<QuoteGroups>>)
    requires forall c :: close(c) ==> !body(c)
    ensures r.Some? ==> r.value.start == i && i + 17 <= r.value.end <= |s|
    ensures r.Some? ==> r.value.groups.inner == s[i + 1..r.value.end - 1] && |r.value.groups.inner| >= 15
    ensures r.Some? ==> open(s[i]) && close(s[r.value.end - 1])
    ensures r.Some? ==> forall t :: i < t < r.value.end - 1 ==> body(s[t])
  {
    if i < |s| && open(s[i]) then
      var k := SkipWhile(s, i + 1, body);
      if k - (i + 1) >= 15 && k < |s| && close(s[k]) then Some(Found(i, k + 1, QuoteGroups(s[i + 1..k]))) else None
    else None
  }

  /** The first translation pattern as a matcher. */
  function CurlyQuoteMatcher(s: string): nat -> Option<Found<QuoteGroups>> {
    (i: nat) => DelimitedAt(s, i, IsQuoteOpen, IsQuoteBody, IsQuoteClose)
  }

  /** The second translation pattern, `_([^_\n]{15,})_`, as a matcher. */
  function UnderscoreMatcher(s: string): nat -> Option<Found<QuoteGroups>> {
    (i: nat) => DelimitedAt(s, i, IsUnderscore, IsUnderscoreBody, IsUnderscore)
  }

  lemma QuoteMatchersAnchored(s: string)
    ensures Anchored(CurlyQuoteMatcher(s), |s|) && Anchored(UnderscoreMatcher(s), |s|)
  {
    forall i: nat | CurlyQuoteMatcher(s)(i).Some? ensures CurlyQuoteMatcher(s)(i).value.start == i < CurlyQuoteMatcher(s)(i).value.end <= |s| {
      assert CurlyQuoteMatcher(s)(i) == DelimitedAt(s, i, IsQuoteOpen, IsQuoteBody, IsQuoteClose);
    }
    forall i: nat | UnderscoreMatcher(s)(i).Some? ensures UnderscoreMatcher(s)(i).value.start == i < UnderscoreMatcher(s)(i).value.end <= |s| {
      assert UnderscoreMatcher(s)(i) == DelimitedAt(s, i, IsUnderscore, IsUnderscoreBody, IsUnderscore);
    }
  }

  /** A quote match: the whole matched text (what is later cut from the tafseer) and
      the text between the delimiters. */
  datatype Quote = Quote(whole: string, inner: string)

  /** The matches of both translation patterns in the order `extract_translations`
      visits them: all of the first pattern, then all of the second. Each whole match
      occurs in the section and is longer than its inner text, which has no newline. */
  function QuoteCandidates(s: string): (r: seq<Quote>)
    ensures forall q :: q in r ==> Contains(s, q.whole) && |q.inner| >= 15 && '\n' !in q.inner
  {
    QuoteMatchersAnchored(s);
    var a := FindAll(|s|, CurlyQuoteMatcher(s), 0);
    var b := FindAll(|s|, UnderscoreMatcher(s), 0);
    QuotesOf(s, a, IsQuoteOpen, IsQuoteBody, IsQuoteClose) + QuotesOf(s, b, IsUnderscore, IsUnderscoreBody, IsUnderscore)
  }

  /** The quotes of a list of delimited matches. */
  function QuotesOf(s: string, ms: seq<Found<QuoteGroups>>, open: char -> bool, body: char -> bool, close: char -> bool): (r: seq<Quote>)
    requires forall c :: close(c) ==> !body(c)
    requires forall c :: body(c) ==> c != '\n'
    requires forall m :: m in ms ==> DelimitedAt(s, m.start, open, body, close) == Some(m)
    ensures |r| == |ms|
    ensures forall q :: q in r ==> Contains(s, q.whole) && |q.inner| >= 15 && '\n' !in q.inner
  {
    if |ms| == 0 then []
    else
      var m := ms[0];
      assert m in ms;
      DelimitedQuote(s, m, open, body, close);
      assert forall x :: x in ms[1..] ==> x in ms;
      [Quote(s[m.start..m.end], m.groups.inner)] + QuotesOf(s, ms[1..], open, body, close)
  }

  /** A delimited match occurs in the section, and its inner text is at least 15
      characters without a newline. */
  lemma DelimitedQuote(s: string, m: Found<QuoteGroups>, open: char -> bool, body: char -> bool, close: char -> bool)
    requires forall c :: close(c) ==> !body(c)
    requires forall c :: body(c) ==> c != '\n'
    requires DelimitedAt(s, m.start, open, body, close) == Some(m)
    ensures m.start <= m.end <= |s| && Contains(s, s[m.start..m.end])
    ensures |m.groups.inner| >= 15 && '\n' !in m.groups.inner
  {
    SliceContained(s, m.start, m.end);
    BodyHasNoNewline(s, m.start + 1, m.end - 1, body);
  }

  /** A run of body characters holds no newline when no body character is one. */
  lemma BodyHasNoNewline(s: string, a: nat, b: nat, body: char -> bool)
    requires a <= b <= |s|
    requires forall c :: body(c) ==> c != '\n'
    requires forall t :: a <= t < b ==> body(s[t])
    ensures '\n' !in s[a..b]
  {
    forall t | 0 <= t < b - a ensures s[a..b][t] != '\n' {
      assert s[a..b][t] == s[a + t];
      assert body(s[a + t]);
    }
  }

  /** The dedupe key of a translation: `re.sub(r"\s+", " ", candidate).lower()`. */
  function TranslationKey(c: string): string {
    LowerStr(SquashRuns(c, IsPySpace, ' '))
  }

  /** The state of the loop of `extract_translations`. */
  datatype Picked = Picked(translations: seq<string>, removals: seq<string>, seen: set<string>)

  /** The loop of `extract_translations` over the candidates `qs`: a candidate's inner
      text is cleaned; it is skipped when empty or when its key was seen; otherwise it is
      kept together with its whole match. */
  function PickTranslations(qs: seq<Quote>): (p: Picked)
    ensures |p.translations| == |p.removals| <= |qs|
    ensures forall i :: 0 <= i < |p.translations| ==> p.translations[i] != "" && IsCleanText(p.translations[i])
    ensures forall i :: 0 <= i < |p.removals| ==> p.removals[i] in Wholes(qs)
  {
    if |qs| == 0 then Picked([], [], {})
    else
      var p := PickTranslations(qs[..|qs| - 1]);
      var q := qs[|qs| - 1];
      var c := CleanText(q.inner);
      WholesSnoc(qs);
      if c == "" || TranslationKey(c) in p.seen then p
      else
        var r := Picked(p.translations + [c], p.removals + [q.whole], p.seen + {TranslationKey(c)});
        assert forall i :: 0 <= i < |p.translations| ==> r.translations[i] == p.translations[i] && r.removals[i] == p.removals[i];
        r
  }

  /** The whole matches of a list of quotes. */
  function Wholes(qs: seq<Quote>): set<string> {
    set q | q in qs :: q.whole
  }

  lemma WholesSnoc(qs: seq<Quote>)
    requires |qs| > 0
    ensures Wholes(qs) == Wholes(qs[..|qs| - 1]) + {qs[|qs| - 1].whole}
  {
    assert forall q :: q in qs <==> q in qs[..|qs| - 1] || q == qs[|qs| - 1];
  }

  /** When every whole match occurs in the section, so does every member of `Wholes`. */
  lemma WholesContained(s: string, qs: seq<Quote>)
    requires forall q :: q in qs ==> Contains(s, q.whole)
    ensures forall w :: w in Wholes(qs) ==> Contains(s, w)
  {
  }

  /** The dedupe keys of a list of translations. */
  function Keys(ts: seq<string>): set<string> {
    if |ts| == 0 then {} else Keys(ts[..|ts| - 1]) + {TranslationKey(ts[|ts| - 1])}
  }

  /** The key of every translation is among the keys. */
  lemma {:induction false} KeysHave(ts: seq<string>)
    ensures forall i :: 0 <= i < |ts| ==> TranslationKey(ts[i]) in Keys(ts)
  {
    if |ts| > 0 {
      KeysHave(ts[..|ts| - 1]);
      assert forall i :: 0 <= i < |ts| - 1 ==> ts[..|ts| - 1][i] == ts[i];
    }
  }

  /** The keys seen are the keys of the translations kept. */
  lemma {:induction false} PickTranslationsSeen(qs: seq<Quote>)
    ensures PickTranslations(qs).seen == Keys(PickTranslations(qs).translations)
  {
    if |qs| > 0 {
      var init := qs[..|qs| - 1];
      PickTranslationsSeen(init);
      var p := PickTranslations(init);
      var c := CleanText(qs[|qs| - 1].inner);
      if !(c == "" || TranslationKey(c) in p.seen) {
        var t := p.translations + [c];
        assert PickTranslations(qs).translations == t;
        assert t[..|t| - 1] == p.translations;
      }
    }
  }

  /** No two translations share a dedupe key. */
  predicate DistinctKeys(ts: seq<string>) {
    forall i, j :: 0 <= i < j < |ts| ==> TranslationKey(ts[i]) != TranslationKey(ts[j])
  }

  /** No two translations kept share a key. */
  lemma {:induction false} PickTranslationsDistinct(qs: seq<Quote>)
    ensures DistinctKeys(PickTranslations(qs).translations)
  {
    if |qs| > 0 {
      var init := qs[..|qs| - 1];
      PickTranslationsDistinct(init);
      PickTranslationsSeen(init);
      var p := PickTranslations(init);
      var c := CleanText(qs[|qs| - 1].inner);
      if !(c == "" || TranslationKey(c) in p.seen) {
        assert PickTranslations(qs).translations == p.translations + [c];
        DistinctKeysSnoc(p.translations, c);
      }
    }
  }

  /** A translation whose key is new keeps the keys distinct. */
  lemma DistinctKeysSnoc(ts: seq<string>, c: string)
    requires DistinctKeys(ts) && TranslationKey(c) !in Keys(ts)
    ensures DistinctKeys(ts + [c])
  {
    var t := ts + [c];
    KeysHave(ts);
    assert forall i :: 0 <= i < |ts| ==> t[i] == ts[i];
  }

  /** Every candidate that cleans to something has its key seen: a candidate is dropped
      only when it is empty or an earlier one with the same key was kept. */
  lemma {:induction false} PickTranslationsComplete(qs: seq<Quote>, j: nat)
    requires j < |qs| && CleanText(qs[j].inner) != ""
    ensures TranslationKey(CleanText(qs[j].inner)) in PickTranslations(qs).seen
  {
    var init := qs[..|qs| - 1];
    var p := PickTranslations(init);
    assert PickTranslations(qs).seen >= p.seen;
    if j < |qs| - 1 {
      assert init[j] == qs[j];
      PickTranslationsComplete(init, j);
    }
  }

  /** `extract_translations(section)`: the translations found in the section and the
      whole matches they came from, pairwise. Every translation is clean and not empty,
      no two share a dedupe key, every removal occurs in the section, and every
      candidate that cleans to something is represented by its key. */
  function ExtractTranslations(section: string): (r: (seq<string>, seq<string>))
    ensures |r.0| == |r.1|
    ensures forall i :: 0 <= i < |r.0| ==> r.0[i] != "" && IsCleanText(r.0[i]) && Contains(section, r.1[i])
    ensures DistinctKeys(r.0)
  {
    var qs := QuoteCandidates(section);
    var p := PickTranslations(qs);
    PickTranslationsDistinct(qs);
    WholesContained(section, qs);
    (p.translations, p.removals)
  }
}
