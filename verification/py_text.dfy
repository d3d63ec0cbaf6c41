/**
 * The text helpers of the offline Telegram-export normaliser
 * (scripts/admin_sync.py): digit folding (`normalize_digits`), `clean_text`,
 * the comparison form `_norm_compare_text` and the choice of
 * `_pick_richer_text`. The `clean_block` of format_ayahs.py is the same
 * function as `clean_text`. Python's `len` counts code points, so lengths
 * here are plain sequence lengths.
 */
module PyText {
  import opened Base
  import opened Chars
  import opened Strings
  import ParserText

  /** `value or ""` for a value that is a string or `None`. */
  function OrEmpty(v: Option<string>): string {
    if v.Some? then v.value else ""
  }

  // ---------------------------------------------------------------------
  // normalize_digits
  // ---------------------------------------------------------------------

  /** A Persian or Arabic-Indic digit: the keys of `DIGIT_MAP`. */
  predicate IsEasternDigit(c: char) { IsPersianDigit(c) || IsArabicIndicDigit(c) }

  /** One lookup in `DIGIT_MAP`: an eastern digit becomes the ASCII digit of the same value,
      any other character stays. */
  function FoldDigit(c: char): (r: char)
    ensures !IsEasternDigit(r)
    ensures IsEasternDigit(c) ==> IsAsciiDigit(r) && DigitValue(r) == DigitValue(c)
    ensures !IsEasternDigit(c) ==> r == c
  {
    if IsEasternDigit(c) then DigitChar(DigitValue(c)) else c
  }

  /** `normalize_digits(value)`: `None` gives the empty string; otherwise the string with
      every eastern digit replaced by the ASCII digit of the same value, nothing else
      changed and the length kept. */
  function NormalizeDigits(v: Option<string>): (r: string)
    ensures v.None? ==> r == ""
    ensures |r| == |OrEmpty(v)|
    ensures forall i :: 0 <= i < |r| ==> !IsEasternDigit(r[i])
    ensures forall i :: 0 <= i < |r| && IsEasternDigit(OrEmpty(v)[i]) ==>
      IsAsciiDigit(r[i]) && DigitValue(r[i]) == DigitValue(OrEmpty(v)[i])
    ensures forall i :: 0 <= i < |r| && !IsEasternDigit(OrEmpty(v)[i]) ==> r[i] == OrEmpty(v)[i]
  {
    MapChars(OrEmpty(v), FoldDigit)
  }

  /** A run of digits of any script reads, after folding, as ASCII digits of the same
      decimal value: `int(normalize_digits(g))` is the number the digits spell. */
  lemma {:induction false} NormalizeDigitsValue(s: string)
    requires AllDigits(s)
    ensures AllAsciiDigits(NormalizeDigits(Some(s))) && AllDigits(NormalizeDigits(Some(s)))
    ensures DigitsValue(NormalizeDigits(Some(s))) == DigitsValue(s)
  {
    var r := NormalizeDigits(Some(s));
    if |s| > 0 {
      var n := |s| - 1;
      NormalizeDigitsValue(s[..n]);
      assert r[..n] == NormalizeDigits(Some(s[..n]));
      assert DigitValue(r[n]) == DigitValue(s[n]);
    }
  }

  /** Folding twice is folding once. */
  lemma NormalizeDigitsIdempotent(v: Option<string>)
    ensures NormalizeDigits(Some(NormalizeDigits(v))) == NormalizeDigits(v)
  {
  }

  // ---------------------------------------------------------------------
  // clean_text
  // ---------------------------------------------------------------------

  /** The shape `clean_text` produces: no carriage return, never three line feeds in a row,
      no surrounding whitespace. */
  predicate IsCleanText(s: string) {
    '\r' !in s && ParserText.NoTripleNewline(s) && IsTrimmed(s, IsPySpace)
  }

  /** Stripping a text keeps "no three line feeds in a row". */
  lemma StripKeepsNoTriple(w: string)
    requires ParserText.NoTripleNewline(w)
    ensures ParserText.NoTripleNewline(PyStrip(w))
  {
    var a := RunLength(w, IsPySpace);
    ParserText.CleanShapeSlice(w, a, a + |PyStrip(w)|);
  }

  /** `clean_text(value)` (and `clean_block`): line endings unified to `\n`, runs of three
      or more line feeds squeezed to two, then `strip()`. */
  function CleanText(v: string): (r: string)
    ensures IsCleanText(r)
    ensures forall c :: c in r ==> c in v || c == '\n'
  {
    var u := UnifyLineEnds(v);
    var w := ParserText.CollapseNewlines(u);
    ParserText.CollapseNewlinesNoTriple(u);
    StripKeepsNoTriple(w);
    PyStrip(w)
  }

  /** Clean text passes `clean_text` unchanged. */
  lemma CleanTextFixes(s: string)
    requires IsCleanText(s)
    ensures CleanText(s) == s
  {
    ParserText.CollapseNewlinesIdentity(s);
  }

  /** A second `clean_text` changes nothing. */
  lemma CleanTextIdempotent(v: string)
    ensures CleanText(CleanText(v)) == CleanText(v)
  {
    CleanTextFixes(CleanText(v));
  }

  // ---------------------------------------------------------------------
  // _norm_compare_text
  // ---------------------------------------------------------------------

  /** Every whitespace character is a plain space. */
  predicate PlainSpacesOnly(s: string) {
    forall i :: 0 <= i < |s| && IsPySpace(s[i]) ==> s[i] == ' '
  }

  /** The comparison form: single plain spaces, no surrounding whitespace, no upper-case
      ASCII letter. */
  predicate IsCompareForm(s: string) {
    IsTrimmed(s, IsPySpace) && NoAdjacent(s, IsPySpace) && PlainSpacesOnly(s) &&
    forall i :: 0 <= i < |s| ==> !IsAsciiUpper(s[i])
  }

  lemma CompareFormOfTrimmed(t: string)
    requires IsTrimmed(t, IsPySpace) && NoAdjacent(t, IsPySpace) && PlainSpacesOnly(t)
    ensures IsCompareForm(LowerStr(t))
  {
    var r := LowerStr(t);
    assert forall i :: 0 <= i < |r| ==> (IsPySpace(r[i]) <==> IsPySpace(t[i])) && (IsPySpace(t[i]) ==> r[i] == t[i]);
  }

  lemma SliceKeepsPlainSpaces(s: string, a: nat, b: nat)
    requires a <= b <= |s| && NoAdjacent(s, IsPySpace) && PlainSpacesOnly(s)
    ensures NoAdjacent(s[a..b], IsPySpace) && PlainSpacesOnly(s[a..b])
  {
    NoAdjacentSlice(s, IsPySpace, a, b);
    assert forall i :: 0 <= i < b - a ==> s[a..b][i] == s[a + i];
  }

  /** `_norm_compare_text(value)`: the cleaned text with whitespace runs turned into one
      space, stripped and lower-cased. */
  function NormCompareText(v: string): (r: string)
    ensures IsCompareForm(r)
  {
    var squashed := SquashRuns(CleanText(v), IsPySpace, ' ');
    SquashRunsOnlyRep(CleanText(v), IsPySpace, ' ');
    var trimmed := PyStrip(squashed);
    var a := RunLength(squashed, IsPySpace);
    SliceKeepsPlainSpaces(squashed, a, a + |trimmed|);
    CompareFormOfTrimmed(trimmed);
    LowerStr(trimmed)
  }

  /** Text already in comparison form compares as itself. */
  lemma NormCompareTextFixes(s: string)
    requires IsCompareForm(s)
    ensures NormCompareText(s) == s
  {
    CompareFormIsClean(s);
    CleanTextFixes(s);
    SquashRunsFixed(s, IsPySpace, ' ');
    CompareFormIsLower(s);
    NormCompareTextOfFixed(s);
  }

  /** A comparison form holds no upper-case letter, so lower-casing leaves it alone. */
  lemma CompareFormIsLower(s: string)
    requires IsCompareForm(s)
    ensures LowerStr(s) == s
  {
    assert forall i :: 0 <= i < |s| ==> LowerStr(s)[i] == s[i];
  }

  /** The steps of `_norm_compare_text` that all leave a text alone leave its comparison
      form equal to it. */
  lemma NormCompareTextOfFixed(s: string)
    requires CleanText(s) == s && SquashRuns(s, IsPySpace, ' ') == s
    requires IsTrimmed(s, IsPySpace) && LowerStr(s) == s
    ensures NormCompareText(s) == s
  {
  }

  /** A comparison form holds no line break, so it is clean text. */
  lemma CompareFormIsClean(s: string)
    requires IsCompareForm(s)
    ensures IsCleanText(s)
  {
    assert forall i :: 0 <= i < |s| ==> s[i] != '\r' && s[i] != '\n' by {
      assert forall i :: 0 <= i < |s| ==> IsPySpace(s[i]) ==> s[i] == ' ';
    }
  }

  /** The comparison form of a comparison form is itself. */
  lemma NormCompareTextIdempotent(v: string)
    ensures NormCompareText(NormCompareText(v)) == NormCompareText(v)
  {
    NormCompareTextFixes(NormCompareText(v));
  }

  // ---------------------------------------------------------------------
  // _pick_richer_text and the shared choice of _append_unique_tafseer
  // ---------------------------------------------------------------------

  /** One comparison form contains the other (`a_norm in b_norm or b_norm in a_norm`). */
  predicate Nested(a: string, b: string) {
    Contains(NormCompareText(a), NormCompareText(b)) || Contains(NormCompareText(b), NormCompareText(a))
  }

  /** `z`'s comparison form appears in `r`'s. */
  predicate Covers(r: string, z: string) {
    Contains(NormCompareText(r), NormCompareText(z))
  }

  /** `a if len(a) >= len(b) else b`. */
  function Longer(a: string, b: string): (r: string)
    ensures r == a || r == b
    ensures |r| >= |a| && |r| >= |b|
    ensures |a| == |b| ==> r == a
  {
    if |a| >= |b| then a else b
  }

  /** The steps `_pick_richer_text` and `_append_unique_tafseer` share: with an empty text
      the other; with equal comparison forms the longer (the first on ties); with one form
      inside the other the containing text. `None` when both are non-empty and neither
      form contains the other, where the two functions part ways. */
  function ChooseRicher(a: string, b: string): (r: Option<string>)
    ensures r.None? <==> a != "" && b != "" && !Nested(a, b)
    ensures r.Some? ==> r.value == a || r.value == b
    ensures a == "" ==> r == Some(b)
    ensures a != "" && b == "" ==> r == Some(a)
    ensures a != "" && b != "" && NormCompareText(a) == NormCompareText(b) ==> r == Some(Longer(a, b))
    ensures a != "" && b != "" && r.Some? ==> Covers(r.value, a) && Covers(r.value, b)
  {
    ContainsSelf(NormCompareText(a));
    ContainsSelf(NormCompareText(b));
    if a == "" then Some(b)
    else if b == "" then Some(a)
    else
      var an, bn := NormCompareText(a), NormCompareText(b);
      if an == bn then Some(Longer(a, b))
      else if Contains(bn, an) then Some(b)
      else if Contains(an, bn) then Some(a)
      else None
  }

  /** `_pick_richer_text(first, second)`: both texts cleaned, then the richer one. The
      result is one of the cleaned texts; an empty one yields the other; with nested
      comparison forms the result covers both; otherwise the longer, the first on ties. */
  function PickRicherText(first: string, second: string): (r: string)
    ensures r == CleanText(first) || r == CleanText(second)
    ensures CleanText(first) == "" ==> r == CleanText(second)
    ensures CleanText(second) == "" ==> r == CleanText(first)
    ensures CleanText(first) != "" && CleanText(second) != "" && Nested(CleanText(first), CleanText(second)) ==>
      Covers(r, CleanText(first)) && Covers(r, CleanText(second))
    ensures !Nested(CleanText(first), CleanText(second)) ==> r == Longer(CleanText(first), CleanText(second))
  {
    var a, b := CleanText(first), CleanText(second);
    match ChooseRicher(a, b)
    case Some(x) => x
    case None => Longer(a, b)
  }

  /** Picking between a text and itself gives the cleaned text. */
  lemma PickRicherTextSelf(v: string)
    ensures PickRicherText(v, v) == CleanText(v)
  {
  }

  /** Choosing between a text and itself keeps it. */
  lemma ChooseRicherSelf(a: string)
    ensures ChooseRicher(a, a) == Some(a)
  {
  }

  /** The choice is stable: choosing again between the chosen text and the first input
      keeps the chosen text. */
  lemma ChooseRicherStable(a: string, b: string)
    requires ChooseRicher(a, b).Some?
    ensures ChooseRicher(ChooseRicher(a, b).value, a) == ChooseRicher(a, b)
  {
    var r := ChooseRicher(a, b).value;
    if r == a {
      ChooseRicherSelf(a);
    } else if a != "" && b != "" {
      var an, bn := NormCompareText(a), NormCompareText(b);
      if an != bn {
        assert Contains(bn, an);
        if Contains(an, bn) {
          ContainsMutual(an, bn);
        }
      }
    }
  }

  /** Picking again between the picked text and the first input changes nothing. */
  lemma PickRicherTextStable(first: string, second: string)
    ensures PickRicherText(PickRicherText(first, second), first) == PickRicherText(first, second)
  {
    var a, b := CleanText(first), CleanText(second);
    var r := PickRicherText(first, second);
    CleanTextIdempotent(first);
    CleanTextIdempotent(second);
    assert CleanText(r) == r;
    if ChooseRicher(a, b).Some? {
      ChooseRicherStable(a, b);
    } else if r == a {
      ChooseRicherSelf(a);
    } else {
      assert !Nested(b, a);
    }
  }
}
