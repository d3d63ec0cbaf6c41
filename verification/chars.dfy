/**
 * Code-point classes used by the cleaners and scanners. A `char` is one
 * Unicode scalar value; the regular expressions of the system are restated
 * as predicates over these classes.
 */
module Chars {

  /** JavaScript `\s` and the set removed by `String.prototype.trim`:
      WhiteSpace (TAB, VT, FF, ZWNBSP, every Zs) and LineTerminator. */
  predicate IsJsSpace(c: char) {
    c == '\t' || c == '\n' || c == '\U{000B}' || c == '\U{000C}' || c == '\r' || c == ' '
    || c == '\U{00A0}' || c == '\U{1680}' || ('\U{2000}' <= c <= '\U{200A}')
    || c == '\U{2028}' || c == '\U{2029}' || c == '\U{202F}' || c == '\U{205F}'
    || c == '\U{3000}' || c == '\U{FEFF}'
  }

  /** Python `str.isspace` (also `\s` of a `str` pattern and `str.strip()`). */
  predicate IsPySpace(c: char) {
    ('\t' <= c <= '\r') || ('\U{001C}' <= c <= '\U{001F}') || c == ' '
    || c == '\U{0085}' || c == '\U{00A0}' || c == '\U{1680}' || ('\U{2000}' <= c <= '\U{200A}')
    || c == '\U{2028}' || c == '\U{2029}' || c == '\U{202F}' || c == '\U{205F}' || c == '\U{3000}'
  }

  /** JavaScript line terminators: what `.` does not match. */
  predicate IsJsLineTerminator(c: char) {
    c == '\n' || c == '\r' || c == '\U{2028}' || c == '\U{2029}'
  }

  /** `[ \t]` */
  predicate IsSpaceOrTab(c: char) {
    c == ' ' || c == '\t'
  }

  predicate IsAsciiUpper(c: char) { 'A' <= c <= 'Z' }

  predicate IsAsciiLower(c: char) { 'a' <= c <= 'z' }

  /** `[A-Za-z]` */
  predicate IsAsciiLetter(c: char) { IsAsciiUpper(c) || IsAsciiLower(c) }

  /** `[0-9]`, and JavaScript `\d` */
  predicate IsAsciiDigit(c: char) { '0' <= c <= '9' }

  /** `[A-Za-z0-9]` */
  predicate IsAsciiAlnum(c: char) { IsAsciiLetter(c) || IsAsciiDigit(c) }

  /** Eastern Arabic-Indic digits U+06F0..U+06F9. */
  predicate IsPersianDigit(c: char) { '\U{06F0}' <= c <= '\U{06F9}' }

  /** Arabic-Indic digits U+0660..U+0669. */
  predicate IsArabicIndicDigit(c: char) { '\U{0660}' <= c <= '\U{0669}' }

  /** `[0-9\u06f0-\u06f9\u0660-\u0669]` */
  predicate IsAnyDigit(c: char) {
    IsAsciiDigit(c) || IsPersianDigit(c) || IsArabicIndicDigit(c)
  }

  /** The value of a digit of `IsAnyDigit`. */
  function DigitValue(c: char): (d: nat)
    requires IsAnyDigit(c)
    ensures d < 10
  {
    if IsAsciiDigit(c) then c as int - '0' as int
    else if IsPersianDigit(c) then c as int - 0x06F0
    else c as int - 0x0660
  }

  /** `[\u0600-\u06FF]`: the Arabic block. */
  predicate IsArabic(c: char) { '\U{0600}' <= c <= '\U{06FF}' }

  /** `[\u{1F300}-\u{1FAFF}]`: the pictograph and emoji planes stripped by the cleaners. */
  predicate IsEmoji(c: char) { '\U{1F300}' <= c <= '\U{1FAFF}' }

  /** `[\u2600-\u27BF]`: miscellaneous symbols and dingbats. */
  predicate IsDingbat(c: char) { '\U{2600}' <= c <= '\U{27BF}' }

  /** `[\u200B-\u200D\uFEFF]`: zero-width characters and the byte-order mark. */
  predicate IsZeroWidth(c: char) { ('\U{200B}' <= c <= '\U{200D}') || c == '\U{FEFF}' }

  /** Curly double quotes `“` and `”`. */
  predicate IsCurlyDouble(c: char) { c == '\U{201C}' || c == '\U{201D}' }

  /** Curly single quotes `‘` and `’`. */
  predicate IsCurlySingle(c: char) { c == '\U{2018}' || c == '\U{2019}' }

  /** `[*_`~]`: markdown emphasis marks. */
  predicate IsMarkdownMark(c: char) { c == '*' || c == '_' || c == '`' || c == '~' }

  /** `\n`. */
  predicate IsNewline(c: char) { c == '\n' }

  /** `\r`. */
  predicate IsCR(c: char) { c == '\r' }

  /** The bullets, dashes and geometric glyphs stripped from the start of a line by the class
      `[\s\-\u2013\u2014\u2022\u25AA\u25FE\u25FC\u25C6\u25C7\u25CF\u25CB\u25B6\u25BA\u25A0\u25A1\u2726\u2727\u2605\u2606]`,
      whitespace included. */
  predicate IsLeadGlyph(c: char) {
    IsJsSpace(c) ||
    c == '-' || c == '\U{2013}' || c == '\U{2014}' || c == '\U{2022}' || c == '\U{25AA}' || c == '\U{25FE}' ||
    c == '\U{25FC}' || c == '\U{25C6}' || c == '\U{25C7}' || c == '\U{25CF}' || c == '\U{25CB}' || c == '\U{25B6}' ||
    c == '\U{25BA}' || c == '\U{25A0}' || c == '\U{25A1}' || c == '\U{2726}' || c == '\U{2727}' || c == '\U{2605}' ||
    c == '\U{2606}'
  }

  /** ASCII lower-casing, the model of `toLowerCase` and `str.lower`. */
  function Lower(c: char): (r: char)
    ensures !IsAsciiUpper(r)
    ensures IsAsciiLetter(c) <==> IsAsciiLetter(r)
    ensures !IsAsciiLetter(c) ==> r == c
  {
    if IsAsciiUpper(c) then (c as int + 32) as char else c
  }

  /** ASCII upper-casing, the model of `toUpperCase`. */
  function Upper(c: char): (r: char)
    ensures !IsAsciiLower(r)
    ensures IsAsciiLetter(c) <==> IsAsciiLetter(r)
    ensures !IsAsciiLetter(c) ==> r == c
  {
    if IsAsciiLower(c) then (c as int - 32) as char else c
  }

  /** Number of UTF-16 code units of one code point: JavaScript `.length` counts these. */
  function Utf16Units(c: char): (n: nat)
    ensures 1 <= n <= 2
  {
    if c as int > 0xFFFF then 2 else 1
  }
}
