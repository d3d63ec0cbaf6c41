/**
 * The header of a Telegram post, `Surah No. 2, Al-Baqarah ... Juz 1`: the
 * surah number and name and the juz number, found by scanners that follow
 * the backtracking of the two header regular expressions.
 */
module ParserHeader {
  import opened Base
  import opened Chars
  import opened Strings
  import opened JsValues
  import opened ParserText

  /** A character that may occur in a surah name: anything but a newline or `*`. */
  predicate IsNameChar(c: char) { c != '\n' && c != '*' }

  /** The rightmost `q` in `lo..hi` at which a name can start. */
  function RightmostNameStart(s: string, lo: nat, hi: nat): (q: Option<nat>)
    requires lo <= hi
    ensures q.Some? ==> lo <= q.value <= hi && q.value < |s| && IsNameChar(s[q.value])
    ensures q.Some? ==> forall k :: q.value < k <= hi && k < |s| ==> !IsNameChar(s[k])
    ensures q.None? ==> forall k :: lo <= k <= hi && k < |s| ==> !IsNameChar(s[k])
    decreases hi - lo
  {
    if hi < |s| && IsNameChar(s[hi]) then Some(hi)
    else if hi == lo then None
    else RightmostNameStart(s, lo, hi - 1)
  }

  /** Where `\s*,?\s*([^\n*]+)` starts its name group after the digits ending at `d`,
      trying the longer matches of `\s*` and `,?` first. */
  function NameStart(s: string, d: nat): (q: Option<nat>)
    requires d <= |s|
    ensures q.Some? ==> d <= q.value < |s| && IsNameChar(s[q.value])
  {
    var w := SkipWhile(s, d, IsJsSpace);
    if w < |s| && s[w] == ',' then
      var c := w + 1;
      match RightmostNameStart(s, c, SkipWhile(s, c, IsJsSpace))
      case Some(q) => Some(q)
      case None => Some(w)
    else RightmostNameStart(s, d, w)
  }

  /** A surah match: the digits of the number and where the name starts. */
  datatype SurahHit = SurahHit(digits: string, nameStart: nat)

  /** `/Surah\s*No\.?\s*(\d+)\s*,?\s*([^\n*]+)/i` anchored at `p`. When nothing can follow
      the full digit run, the regex gives its last digit back to the name. */
  function SurahMatchAt(s: string, p: nat): (h: Option<SurahHit>)
    ensures h.Some? ==> OccursAtIgnoreCase(s, "surah", p)
    ensures h.Some? ==> |h.value.digits| > 0 && AllAsciiDigits(h.value.digits)
    ensures h.Some? ==> h.value.nameStart < |s| && IsNameChar(s[h.value.nameStart])
  {
    if !OccursAtIgnoreCase(s, "surah", p) then None
    else
      var a := SkipWhile(s, p + 5, IsJsSpace);
      if !OccursAtIgnoreCase(s, "no", a) then None
      else
        var b := if a + 2 < |s| && s[a + 2] == '.' then a + 3 else a + 2;
        var c := SkipWhile(s, b, IsJsSpace);
        var d := SkipWhile(s, c, IsAsciiDigit);
        if d == c then None
        else match NameStart(s, d)
          case Some(q) => Some(SurahHit(s[c..d], q))
          case None =>
            if d - c >= 2 then Some(SurahHit(s[c..d - 1], d - 1)) else None
  }

  /** The leftmost surah match at or after `p` (`String.prototype.match` without `g`). */
  function FindSurah(s: string, p: nat): (h: Option<SurahHit>)
    ensures h.None? ==> forall i :: p <= i ==> SurahMatchAt(s, i).None?
    ensures h.Some? ==> |h.value.digits| > 0 && AllAsciiDigits(h.value.digits) && h.value.nameStart < |s|
    ensures h.Some? ==> exists i :: p <= i && OccursAtIgnoreCase(s, "surah", i)
    ensures p < |s| && SurahMatchAt(s, p).Some? ==> h == SurahMatchAt(s, p)
    decreases |s| - p
  {
    if p >= |s| then
      assert forall i :: p <= i ==> SurahMatchAt(s, i).None? by {
        forall i | p <= i ensures SurahMatchAt(s, i).None? {
          assert !OccursAtIgnoreCase(s, "surah", i);
        }
      }
      None
    else if SurahMatchAt(s, p).Some? then SurahMatchAt(s, p)
    else
      var r := FindSurah(s, p + 1);
      assert r.None? ==> forall i :: p <= i ==> SurahMatchAt(s, i).None? by {
        if r.None? {
          forall i | p <= i ensures SurahMatchAt(s, i).None? {
            if i > p { assert p + 1 <= i; }
          }
        }
      }
      r
  }

  /** When `i` is the leftmost position from `p` on where the surah pattern matches,
      `FindSurah` returns the match there. */
  lemma {:induction false} FindSurahLeftmost(s: string, p: nat, i: nat)
    requires p <= i < |s| && SurahMatchAt(s, i).Some?
    requires forall j :: p <= j < i ==> SurahMatchAt(s, j).None?
    ensures FindSurah(s, p) == SurahMatchAt(s, i)
    decreases i - p
  {
    if p < i {
      FindSurahStep(s, p);
      FindSurahLeftmost(s, p + 1, i);
    }
  }

  /** Where the pattern does not match at `p`, the search goes on from `p + 1`. */
  lemma FindSurahStep(s: string, p: nat)
    requires p < |s| && SurahMatchAt(s, p).None?
    ensures FindSurah(s, p) == FindSurah(s, p + 1)
  {
  }

  /** `/Juz\s*[-–:]?\s*(\d+)/i` anchored at `p`: the digits. */
  function JuzMatchAt(s: string, p: nat): (digits: Option<string>)
    ensures digits.Some? ==> OccursAtIgnoreCase(s, "juz", p)
    ensures digits.Some? ==> |digits.value| > 0 && AllAsciiDigits(digits.value)
  {
    if !OccursAtIgnoreCase(s, "juz", p) then None
    else
      var a := SkipWhile(s, p + 3, IsJsSpace);
      var b := if a < |s| && (s[a] == '-' || s[a] == '\U{2013}' || s[a] == ':') then a + 1 else a;
      var c := SkipWhile(s, b, IsJsSpace);
      var d := SkipWhile(s, c, IsAsciiDigit);
      if d == c then None else Some(s[c..d])
  }

  /** The leftmost juz match at or after `p`. */
  function FindJuz(s: string, p: nat): (digits: Option<string>)
    ensures digits.None? ==> forall i :: p <= i ==> JuzMatchAt(s, i).None?
    ensures digits.Some? ==> |digits.value| > 0 && AllAsciiDigits(digits.value)
    ensures digits.Some? ==> exists i :: p <= i && OccursAtIgnoreCase(s, "juz", i)
    ensures p < |s| && JuzMatchAt(s, p).Some? ==> digits == JuzMatchAt(s, p)
    decreases |s| - p
  {
    if p >= |s| then
      assert forall i :: p <= i ==> JuzMatchAt(s, i).None? by {
        forall i | p <= i ensures JuzMatchAt(s, i).None? {
          assert !OccursAtIgnoreCase(s, "juz", i);
        }
      }
      None
    else if JuzMatchAt(s, p).Some? then JuzMatchAt(s, p)
    else
      var r := FindJuz(s, p + 1);
      assert r.None? ==> forall i :: p <= i ==> JuzMatchAt(s, i).None? by {
        if r.None? {
          forall i | p <= i ensures JuzMatchAt(s, i).None? {
            if i > p { assert p + 1 <= i; }
          }
        }
      }
      r
  }

  /** When `i` is the leftmost position from `p` on where the juz pattern matches,
      `FindJuz` returns the match there. */
  lemma {:induction false} FindJuzLeftmost(s: string, p: nat, i: nat)
    requires p <= i < |s| && JuzMatchAt(s, i).Some?
    requires forall j :: p <= j < i ==> JuzMatchAt(s, j).None?
    ensures FindJuz(s, p) == JuzMatchAt(s, i)
    decreases i - p
  {
    if p < i {
      FindJuzStep(s, p);
      FindJuzLeftmost(s, p + 1, i);
    }
  }

  /** Where the pattern does not match at `p`, the search goes on from `p + 1`. */
  lemma FindJuzStep(s: string, p: nat)
    requires p < |s| && JuzMatchAt(s, p).None?
    ensures FindJuz(s, p) == FindJuz(s, p + 1)
  {
  }

  /** The surah number (absent when no header matched), its cleaned name and the juz number. */
  datatype Header = Header(surahNumber: Option<nat>, surahName: string, juzNumber: Option<nat>)

  /** The name group: from its start up to the next newline or `*`. */
  function NameAt(s: string, q: nat): (name: string)
    requires q <= |s|
    ensures forall c :: c in name ==> IsNameChar(c)
  {
    s[q..SkipWhile(s, q, IsNameChar)]
  }

  /** `Number(digits)` for a run of ASCII digits. */
  function AsciiValue(d: string): (n: nat)
    requires AllAsciiDigits(d)
  {
    assert AllDigits(d) by { assert forall i :: 0 <= i < |d| ==> IsAsciiDigit(d[i]); }
    DigitsValue(d)
  }

  /** `extractHeader`. */
  function ExtractHeader(text: string): (h: Header)
    ensures (forall i :: !OccursAtIgnoreCase(text, "surah", i)) ==> h.surahNumber.None? && h.surahName == ""
    ensures (forall i :: !OccursAtIgnoreCase(text, "juz", i)) ==> h.juzNumber.None?
    ensures IsCleanContent(h.surahName)
  {
    var surah := FindSurah(text, 0);
    var juz := FindJuz(text, 0);
    assert CleanContent("") == "" by { CleanContentFixesClean(""); }
    Header(
      match surah case Some(m) => Some(AsciiValue(m.digits)) case None => None,
      match surah case Some(m) => CleanContent(NameAt(text, m.nameStart)) case None => "",
      match juz case Some(d) => Some(AsciiValue(d)) case None => None)
  }

  lemma LowerSurah()
    ensures LowerStr("Surah") == "surah" && LowerStr("No") == "no" && LowerStr("surah") == "surah"
    ensures LowerStr("no") == "no" && LowerStr("Juz") == "juz" && LowerStr("juz") == "juz"
  {
  }

  /** The text of a canonical header line. */
  function CanonicalHeader(n: nat, name: string): string {
    "Surah No. " + NatToString(n) + ", " + name
  }

  /** After digits ending at `d`, a `, ` followed by a name character starts the name
      right after the blank. */
  lemma NameStartAfterComma(s: string, d: nat)
    requires d + 2 < |s| && s[d] == ',' && s[d + 1] == ' '
    requires IsNameChar(s[d + 2]) && !IsJsSpace(s[d + 2])
    ensures NameStart(s, d) == Some(d + 2)
  {
    SkipWhileEnds(s, d, d, IsJsSpace);
    SkipWhileEnds(s, d + 1, d + 2, IsJsSpace);
    assert RightmostNameStart(s, d + 1, d + 2) == Some(d + 2);
  }

  /** The fixed part of `Surah No. `: the keywords match and each blank is a run of one. */
  lemma SurahPrefix(s: string)
    requires 10 < |s| && s[..10] == "Surah No. " && IsAsciiDigit(s[10])
    ensures OccursAtIgnoreCase(s, "surah", 0) && OccursAtIgnoreCase(s, "no", 6) && s[8] == '.'
    ensures SkipWhile(s, 5, IsJsSpace) == 6 && SkipWhile(s, 9, IsJsSpace) == 10
  {
    LowerSurah();
    var h := s[..10];
    assert s[0..5] == h[0..5] == "Surah";
    assert s[6..8] == h[6..8] == "No";
    assert s[5] == h[5] == ' ' && s[6] == h[6] == 'N';
    assert s[8] == h[8] && s[9] == h[9] == ' ';
    SkipWhileEnds(s, 5, 6, IsJsSpace);
    SkipWhileEnds(s, 9, 10, IsJsSpace);
  }

  /** `Surah No. ` followed by a maximal run of digits matches with those digits, the name
      starting where `NameStart` puts it. */
  lemma SurahMatchAfterPrefix(s: string, d: nat, q: nat)
    requires 10 < d <= |s| && s[..10] == "Surah No. "
    requires forall k :: 10 <= k < d ==> IsAsciiDigit(s[k])
    requires d < |s| ==> !IsAsciiDigit(s[d])
    requires NameStart(s, d) == Some(q)
    ensures SurahMatchAt(s, 0) == Some(SurahHit(s[10..d], q))
  {
    SurahPrefix(s);
    SkipWhileEnds(s, 10, d, IsAsciiDigit);
  }

  /** `Surah No. `, digits up to `d`, then `, ` and a name character: the surah matches
      with those digits and the name starts after the blank. */
  lemma SurahMatchUsual(s: string, d: nat)
    requires 10 < d && d + 2 < |s| && s[..10] == "Surah No. "
    requires forall k :: 10 <= k < d ==> IsAsciiDigit(s[k])
    requires s[d] == ',' && s[d + 1] == ' '
    requires IsNameChar(s[d + 2]) && !IsJsSpace(s[d + 2])
    ensures SurahMatchAt(s, 0) == Some(SurahHit(s[10..d], d + 2))
  {
    NameStartAfterComma(s, d);
    SurahMatchAfterPrefix(s, d, d + 2);
  }

  /** Where the parts of `Surah No. DIGITS, NAME...` sit. */
  lemma CanonicalLayout(ds: string, name: string, rest: string)
    requires |ds| > 0 && AllAsciiDigits(ds) && |name| > 0
    ensures var s := "Surah No. " + ds + ", " + name + rest; var d := 10 + |ds|;
      d + 2 < |s| && s[..10] == "Surah No. " && s[10..d] == ds &&
      (forall k :: 10 <= k < d ==> IsAsciiDigit(s[k])) &&
      s[d] == ',' && s[d + 1] == ' ' && s[d + 2] == name[0]
  {
    var s := "Surah No. " + ds + ", " + name + rest;
    var d := 10 + |ds|;
    assert forall k :: 0 <= k < |ds| ==> s[10 + k] == ds[k];
    assert s[10..d] == ds;
  }

  lemma {:induction false} CanonicalSurahMatch(n: nat, name: string, rest: string)
    requires |name| > 0 && !IsJsSpace(name[0]) && name[0] != ','
    requires IsNameChar(name[0])
    ensures var s := CanonicalHeader(n, name) + rest;
      SurahMatchAt(s, 0) == Some(SurahHit(NatToString(n), 12 + |NatToString(n)|))
  {
    var ds := NatToString(n);
    CanonicalLayout(ds, name, rest);
    SurahMatchUsual(CanonicalHeader(n, name) + rest, 10 + |ds|);
  }

  lemma {:induction false} CanonicalName(n: nat, name: string, rest: string)
    requires forall c :: c in name ==> IsNameChar(c)
    requires |rest| == 0 || rest[0] == '\n'
    ensures var s := CanonicalHeader(n, name) + rest;
      NameAt(s, 12 + |NatToString(n)|) == name
  {
    var s := CanonicalHeader(n, name) + rest;
    var q := 12 + |NatToString(n)|;
    assert forall k :: 0 <= k < |name| ==> s[q + k] == name[k];
    if q + |name| < |s| {
      assert s[q + |name|] == rest[0];
    }
    SkipWhileEnds(s, q, q + |name|, IsNameChar);
  }

  /** A post that opens with `Surah No. N, NAME` (NAME on one line, free of `*`, and not
      starting with a blank or a comma) yields surah N and the cleaned NAME. */
  lemma ExtractHeaderCanonical(n: nat, name: string, rest: string)
    requires |name| > 0 && !IsJsSpace(name[0]) && name[0] != ','
    requires forall c :: c in name ==> IsNameChar(c)
    requires |rest| == 0 || rest[0] == '\n'
    ensures var h := ExtractHeader(CanonicalHeader(n, name) + rest);
      h.surahNumber == Some(n) && h.surahName == CleanContent(name)
  {
    var s := CanonicalHeader(n, name) + rest;
    var ds := NatToString(n);
    assert name[0] in name;
    CanonicalSurahMatch(n, name, rest);
    CanonicalName(n, name, rest);
    NatToStringValue(n);
    ExtractHeaderOfMatch(s, SurahHit(ds, 12 + |ds|));
  }

  /** A `surah` match at the very start decides the header's surah number and name. */
  lemma ExtractHeaderOfMatch(s: string, hit: SurahHit)
    requires SurahMatchAt(s, 0) == Some(hit)
    ensures ExtractHeader(s).surahNumber == Some(AsciiValue(hit.digits))
    ensures ExtractHeader(s).surahName == CleanContent(NameAt(s, hit.nameStart))
  {
    assert FindSurah(s, 0) == SurahMatchAt(s, 0);
  }

  /** A post that opens with `Juz N` has juz N. */
  lemma JuzCanonical(j: nat, rest: string)
    requires |rest| == 0 || !IsAsciiDigit(rest[0])
    ensures ExtractHeader("Juz " + NatToString(j) + rest).juzNumber == Some(j)
  {
    var ds := NatToString(j);
    var s := "Juz " + ds + rest;
    var d := 4 + |ds|;
    LowerSurah();
    assert s[0..3] == "Juz";
    assert OccursAtIgnoreCase(s, "juz", 0);
    assert s[3] == ' ' && s[4] == ds[0];
    SkipWhileEnds(s, 3, 4, IsJsSpace);
    SkipWhileEnds(s, 4, 4, IsJsSpace);
    assert forall k :: 0 <= k < |ds| ==> s[4 + k] == ds[k];
    if d < |s| { assert s[d] == rest[0]; }
    SkipWhileEnds(s, 4, d, IsAsciiDigit);
    assert s[4..d] == ds;
    assert JuzMatchAt(s, 0) == Some(ds);
    NatToStringValue(j);
  }
}
