/**
 * The post header codec of the community feed (src/screens/FeedScreen.js): the
 * colour and scale normalisers, `encodeStyledContent` and `parseStyledContent`
 * for the `[[post:...]]` marker in front of a post, the frame lookups and the
 * mention put in front of a reply. Numbers are exact reals: `Number` is modelled
 * on plain decimal text and `toFixed(2)` as rounding half up.
 */
module Feed {
  import opened Base
  import opened Chars
  import opened Strings

  // ---------------------------------------------------------------------
  // Defaults and clamp
  // ---------------------------------------------------------------------

  /** The style, frame, colour and scale of a post. */
  datatype PostMeta = PostMeta(styleKey: string, frameKey: string, textColor: string, textScale: real)

  /** `DEFAULT_POST_META`. */
  const DefaultMeta := PostMeta("serif", "plain", "#111111", 1.0)

  /** `clamp(n, min, max)`: `Math.max(min, Math.min(max, n))`. */
  function Clamp(n: real, lo: real, hi: real): (r: real)
    ensures lo <= hi ==> lo <= r <= hi
    ensures lo <= n <= hi ==> r == n
    ensures lo <= hi && n < lo ==> r == lo
    ensures lo <= hi && hi < n ==> r == hi
  {
    var m := if hi < n then hi else n;
    if lo > m then lo else m
  }

  // ---------------------------------------------------------------------
  // normalizeHexColor
  // ---------------------------------------------------------------------

  /** `[0-9a-f]` under the `i` flag. */
  predicate IsHexDigit(c: char) { IsAsciiDigit(c) || ('a' <= c <= 'f') || ('A' <= c <= 'F') }

  /** `/^#([0-9a-f]{3}|[0-9a-f]{6})$/i`. */
  predicate IsHexColorText(s: string) {
    (|s| == 4 || |s| == 7) && s[0] == '#' && forall i :: 1 <= i < |s| ==> IsHexDigit(s[i])
  }

  /** A colour as the feed stores it: `#` and six upper-case hex digits. */
  predicate IsStoredColor(s: string) {
    |s| == 7 && s[0] == '#' && forall i :: 1 <= i < 7 ==> IsHexDigit(s[i]) && !IsAsciiLower(s[i])
  }

  /** `normalizeHexColor(value)`, with the empty string standing for a missing or
      non-string value: the trimmed text when it is `#RGB` or `#RRGGBB`, with every
      digit of the short form doubled, upper-cased; otherwise `#111111`. */
  function NormalizeHexColor(value: string): (r: string)
    ensures IsStoredColor(r)
    ensures !IsHexColorText(JsTrim(value)) ==> r == DefaultMeta.textColor
    ensures var c := JsTrim(value);
      IsHexColorText(c) && |c| == 7 ==> forall i :: 0 <= i < 7 ==> r[i] == Upper(c[i])
    ensures var c := JsTrim(value);
      IsHexColorText(c) && |c| == 4 ==> forall i :: 1 <= i < 4 ==> r[2 * i - 1] == r[2 * i] == Upper(c[i])
  {
    if value == "" then DefaultMeta.textColor
    else
      var c := JsTrim(value);
      if !IsHexColorText(c) then DefaultMeta.textColor
      else if |c| == 4 then UpperStr(['#', c[1], c[1], c[2], c[2], c[3], c[3]])
      else UpperStr(c)
  }

  /** A stored colour is left as it is. */
  lemma NormalizeHexColorFixes(s: string)
    requires IsStoredColor(s)
    ensures NormalizeHexColor(s) == s
  {
    assert IsTrimmed(s, IsJsSpace);
    assert IsHexColorText(s);
    assert UpperStr(s) == s;
  }

  /** Normalising a colour twice is normalising it once. */
  lemma NormalizeHexColorIdempotent(value: string)
    ensures NormalizeHexColor(NormalizeHexColor(value)) == NormalizeHexColor(value)
  {
    NormalizeHexColorFixes(NormalizeHexColor(value));
  }

  // ---------------------------------------------------------------------
  // Number and toFixed(2)
  // ---------------------------------------------------------------------

  function Pow10(n: nat): (r: nat)
    ensures r >= 1
  {
    if n == 0 then 1 else 10 * Pow10(n - 1)
  }

  /** The value of a run of ASCII digits. */
  function AsciiValue(s: string): nat
    requires AllAsciiDigits(s)
  {
    if |s| == 0 then 0 else 10 * AsciiValue(s[..|s| - 1]) + (s[|s| - 1] as int - '0' as int)
  }

  /** The value of ASCII digits is their value as digits of any script. */
  lemma {:induction false} AsciiValueIsDigitsValue(s: string)
    requires AllAsciiDigits(s)
    ensures AllDigits(s) && AsciiValue(s) == DigitsValue(s)
  {
    if |s| > 0 {
      AsciiValueIsDigitsValue(s[..|s| - 1]);
    }
  }

  /** An unsigned decimal: digits, or digits, a point and digits, with at least one
      digit in all. */
  function UnsignedDecimal(u: string): (r: Option<real>)
    ensures r.Some? ==> r.value >= 0.0
  {
    var d := SkipWhile(u, 0, IsAsciiDigit);
    assert AllAsciiDigits(u[..d]);
    if d == |u| then (if d == 0 then None else Some(AsciiValue(u) as real))
    else if u[d] != '.' then None
    else
      var f := u[d + 1..];
      if !AllAsciiDigits(f) || (d == 0 && |f| == 0) then None
      else Some(AsciiValue(u[..d]) as real + Fraction(f))
  }

  /** The value of the digits after a decimal point. */
  function Fraction(f: string): (r: real)
    requires AllAsciiDigits(f)
    ensures r >= 0.0
  {
    (AsciiValue(f) as real) / (Pow10(|f|) as real)
  }

  /** `Number(s)` on decimal text: surrounding whitespace ignored, the empty string is 0,
      an optional sign and an unsigned decimal give its value; anything else is NaN
      (`None`). */
  function NumberOf(s: string): (r: Option<real>)
    ensures JsTrim(s) == "" ==> r == Some(0.0)
  {
    var t := JsTrim(s);
    if t == "" then Some(0.0)
    else if t[0] == '-' then
      match UnsignedDecimal(t[1..]) case Some(v) => Some(-v) case None => None
    else if t[0] == '+' then UnsignedDecimal(t[1..])
    else UnsignedDecimal(t)
  }

  /** `Number(x) || 1`: NaN and 0 become 1. */
  function OrOne(n: Option<real>): (r: real)
    ensures r != 0.0
    ensures n.Some? && n.value != 0.0 ==> r == n.value
  {
    if n.None? || n.value == 0.0 then 1.0 else n.value
  }

  /** The text scale as stored: `clamp(Number(x) || 1, 0.45, 1.6)`. */
  function ClampScale(n: Option<real>): (r: real)
    ensures 0.45 <= r <= 1.6
  {
    Clamp(OrOne(n), 0.45, 1.6)
  }

  /** The integer `toFixed(2)` rounds to, in hundredths: the nearest, the larger on a tie. */
  function Hundredths(x: real): (k: int) {
    (x * 100.0 + 0.5).Floor
  }

  /** `x.toFixed(2)` for a non-negative `x`. */
  function Fixed2(x: real): (s: string)
    requires x >= 0.0
  {
    var k := Hundredths(x);
    var h := k % 100;
    NatToString(k / 100) + "." + [DigitChar(h / 10), DigitChar(h % 10)]
  }

  /** `Number(x.toFixed(2))`: the scale rounded to hundredths. */
  function Rounded2(x: real): real {
    Hundredths(x) as real / 100.0
  }

  /** Digits, a point and digits read back as the whole part plus the fraction. */
  lemma UnsignedDecimalParts(a: string, f: string)
    requires |a| > 0 && AllAsciiDigits(a) && AllAsciiDigits(f)
    ensures UnsignedDecimal(a + "." + f) == Some(AsciiValue(a) as real + Fraction(f))
  {
    PointAfterDigits(a, f);
  }

  /** The digits in front of a point end at the point. */
  lemma PointAfterDigits(a: string, f: string)
    requires AllAsciiDigits(a)
    ensures var u := a + "." + f;
      SkipWhile(u, 0, IsAsciiDigit) == |a| < |u| && u[|a|] == '.' && u[..|a|] == a && u[|a| + 1..] == f
  {
    var u := a + "." + f;
    assert u[..|a|] == a;
    assert u[|a| + 1..] == f;
    SkipWhileEnds(u, 0, |a|, IsAsciiDigit);
  }

  /** Two digits read back as their value. */
  lemma TwoDigits(x: nat, y: nat)
    requires x < 10 && y < 10
    ensures AllAsciiDigits([DigitChar(x), DigitChar(y)]) && AsciiValue([DigitChar(x), DigitChar(y)]) == 10 * x + y
  {
    var f := [DigitChar(x), DigitChar(y)];
    assert f[..1] == [f[0]];
    assert f[..1][..0] == [];
    assert AsciiValue(f[..1]) == x;
  }

  /** Trimmed text starting with a digit is read as an unsigned decimal. */
  lemma NumberOfUnsigned(s: string)
    requires |s| > 0 && IsTrimmed(s, IsJsSpace) && IsAsciiDigit(s[0])
    ensures NumberOf(s) == UnsignedDecimal(s)
  {
  }

  /** Whole hundreds plus the hundredths left over make up the whole. */
  lemma HundredthsSplit(k: nat)
    ensures (k / 100) as real + ((k % 100) as real) / 100.0 == k as real / 100.0
  {
    var q := k / 100;
    var h := k % 100;
    assert k == 100 * q + h;
    assert k as real == 100.0 * (q as real) + h as real;
  }

  /** Two digits after the point are hundredths. */
  lemma TwoPlaces(f: string)
    requires |f| == 2 && AllAsciiDigits(f)
    ensures Fraction(f) == (AsciiValue(f) as real) / 100.0
  {
    assert Pow10(|f|) == 100;
  }

  /** Digits, a point and digits, as `Number` reads them. */
  lemma DecimalText(a: string, f: string)
    requires |a| > 0 && |f| > 0 && AllAsciiDigits(a) && AllAsciiDigits(f)
    ensures NumberOf(a + "." + f) == Some(AsciiValue(a) as real + Fraction(f))
  {
    DecimalTextTrimmed(a, f);
    NumberOfUnsigned(a + "." + f);
    UnsignedDecimalParts(a, f);
  }

  lemma DecimalTextTrimmed(a: string, f: string)
    requires |a| > 0 && |f| > 0 && AllAsciiDigits(a) && AllAsciiDigits(f)
    ensures var s := a + "." + f; |s| > 0 && IsTrimmed(s, IsJsSpace) && IsAsciiDigit(s[0])
  {
    var s := a + "." + f;
    assert s[0] == a[0] && s[|s| - 1] == f[|f| - 1];
  }

  /** A count of hundredths written with two places reads back as that many hundredths. */
  lemma HundredthsText(k: nat)
    ensures var h := k % 100;
      NumberOf(NatToString(k / 100) + "." + [DigitChar(h / 10), DigitChar(h % 10)]) == Some(k as real / 100.0)
  {
    var h := k % 100;
    var a := NatToString(k / 100);
    var f := [DigitChar(h / 10), DigitChar(h % 10)];
    TwoDigits(h / 10, h % 10);
    DecimalText(a, f);
    NatToStringValue(k / 100);
    AsciiValueIsDigitsValue(a);
    TwoPlaces(f);
    HundredthsSplit(k);
  }

  /** The text of a scale reads back as the scale rounded to hundredths. */
  lemma Fixed2ReadsBack(x: real)
    requires x >= 0.0
    ensures NumberOf(Fixed2(x)) == Some(Rounded2(x))
  {
    var k := Hundredths(x);
    assert k >= 0;
    var h := k % 100;
    assert Fixed2(x) == NatToString(k / 100) + "." + [DigitChar(h / 10), DigitChar(h % 10)];
    HundredthsText(k);
  }

  // ---------------------------------------------------------------------
  // getFrame and getFrameTextLayout
  // ---------------------------------------------------------------------

  /** The numbers of the frame pictures of `FRAME_OPTIONS`, after `plain`. */
  const FrameNumbers: seq<nat> := [
    1, 3, 4, 5, 6, 8, 10, 11, 12, 13, 14, 15, 16, 17, 20, 21, 22, 23, 24, 25, 26, 27, 29, 30, 31, 33, 35
  ]

  /** `s.padStart(3, '0')`. */
  function PadStart3(s: string): (r: string)
    ensures |s| <= 3 ==> |r| == 3
    decreases 3 - |s|
  {
    if |s| >= 3 then s else PadStart3("0" + s)
  }

  /** The key of frame picture `n`: `frame` and the number in three digits. */
  function FrameKey(n: nat): string {
    "frame" + PadStart3(NatToString(n))
  }

  /** A key of `FRAME_OPTIONS`: `plain`, or `frame` and three digits naming a picture. */
  predicate IsFrameKey(k: string) {
    k == "plain" ||
    (|k| == 8 && k[..5] == "frame" && AllAsciiDigits(k[5..]) && AsciiValue(k[5..]) in FrameNumbers)
  }

  /** `/^frame(\d{1,2})$/` on the lower-cased, trimmed key: its digits. */
  function LegacyDigits(raw: string): (d: Option<string>)
    ensures d.Some? ==> 1 <= |d.value| <= 2 && AllAsciiDigits(d.value) && raw == "frame" + d.value
  {
    if 6 <= |raw| <= 7 && raw[..5] == "frame" && AllAsciiDigits(raw[5..]) then
      assert raw == "frame" + raw[5..];
      Some(raw[5..])
    else None
  }

  /** `getFrame(frameKey)`, as the key of the option found, the empty string standing for
      a missing key: the key lower-cased and trimmed; `frameN` with one or two digits
      names picture N; a key that is not an option gives the first option, `plain`. */
  function GetFrame(frameKey: string): (r: string)
    ensures IsFrameKey(r)
  {
    var raw := JsTrim(LowerStr(frameKey));
    match LegacyDigits(raw)
    case Some(d) =>
      var normalized := FrameKey(AsciiValue(d));
      if IsFrameKey(normalized) then normalized else "plain"
    case None => if IsFrameKey(raw) then raw else "plain"
  }

  lemma {:induction false} NatToStringShort(n: nat)
    requires n < 1000
    ensures |NatToString(n)| <= 3
  {
    if n >= 10 {
      NatToStringShort(n / 10);
    }
  }

  /** A leading zero does not change the value of a digit string. */
  lemma {:induction false} LeadingZeroValue(s: string)
    requires AllAsciiDigits(s)
    ensures AllAsciiDigits("0" + s) && AsciiValue("0" + s) == AsciiValue(s)
    decreases |s|
  {
    var z := "0" + s;
    if |s| > 0 {
      assert z[..|z| - 1] == "0" + s[..|s| - 1];
      LeadingZeroValue(s[..|s| - 1]);
    }
  }

  lemma {:induction false} PadStart3Value(s: string)
    requires AllAsciiDigits(s)
    ensures AllAsciiDigits(PadStart3(s)) && AsciiValue(PadStart3(s)) == AsciiValue(s)
    decreases 3 - |s|
  {
    if |s| < 3 {
      LeadingZeroValue(s);
      PadStart3Value("0" + s);
    }
  }

  /** The key of picture `n` names `n`, so it is an option exactly when `n` is one of
      the pictures. */
  lemma FrameKeyNames(n: nat)
    requires n < 1000
    ensures |FrameKey(n)| == 8 && FrameKey(n)[..5] == "frame"
    ensures AllAsciiDigits(FrameKey(n)[5..]) && AsciiValue(FrameKey(n)[5..]) == n
    ensures IsFrameKey(FrameKey(n)) <==> n in FrameNumbers
  {
    NatToStringShort(n);
    NatToStringValue(n);
    var d := NatToString(n);
    AsciiValueIsDigitsValue(d);
    PadStart3Value(d);
    assert FrameKey(n)[5..] == PadStart3(d);
  }

  /** The value of `n` digits is below `10^n`. */
  lemma {:induction false} AsciiValueBound(s: string)
    requires AllAsciiDigits(s)
    ensures AsciiValue(s) < Pow10(|s|)
  {
    if |s| > 0 {
      AsciiValueBound(s[..|s| - 1]);
    }
  }

  /** Option keys have no upper-case letter and no surrounding blanks. */
  lemma FrameKeyPlain(k: string)
    requires IsFrameKey(k)
    ensures JsTrim(LowerStr(k)) == k && LegacyDigits(k).None?
  {
    if k != "plain" {
      assert forall i :: 0 <= i < 5 ==> k[i] == "frame"[i];
      assert forall i :: 5 <= i < 8 ==> k[5..][i - 5] == k[i];
    }
    assert forall i :: 0 <= i < |k| ==> Lower(k[i]) == k[i];
    assert LowerStr(k) == k;
    assert IsTrimmed(k, IsJsSpace);
  }

  /** An option's own key finds it. */
  lemma GetFrameOfKey(k: string)
    requires IsFrameKey(k)
    ensures GetFrame(k) == k
  {
    FrameKeyPlain(k);
  }

  /** Lower-casing `frame` in any case and digits and blanks after it. */
  lemma LowerLegacy(pre: string, d: string, post: string)
    requires AllAsciiDigits(d) && LowerStr(pre) == "frame"
    requires forall i :: 0 <= i < |post| ==> IsJsSpace(post[i])
    ensures LowerStr(pre + d + post) == "frame" + d + post
  {
    var k := pre + d + post;
    var m := "frame" + d + post;
    forall i | 0 <= i < |k|
      ensures Lower(k[i]) == m[i]
    {
      if i < 5 {
        assert k[i] == pre[i] && LowerStr(pre)[i] == m[i];
      } else if i < 5 + |d| {
        assert k[i] == d[i - 5] == m[i];
      } else {
        assert k[i] == post[i - 5 - |d|] == m[i];
      }
    }
  }

  /** The key lower-cased and trimmed. */
  lemma LegacyRaw(pre: string, d: string, post: string)
    requires 1 <= |d| && AllAsciiDigits(d)
    requires LowerStr(pre) == "frame"
    requires forall i :: 0 <= i < |post| ==> IsJsSpace(post[i])
    ensures JsTrim(LowerStr(pre + d + post)) == "frame" + d
  {
    LowerLegacy(pre, d, post);
    TrimOfPadded("frame" + d, post);
  }

  lemma LegacyOfDigits(d: string)
    requires 1 <= |d| <= 2 && AllAsciiDigits(d)
    ensures LegacyDigits("frame" + d) == Some(d)
  {
    var raw := "frame" + d;
    assert raw[5..] == d && raw[..5] == "frame";
  }

  /** `frameN` with one or two digits, in any case and with blanks after it, finds
      picture N when there is one and `plain` otherwise. */
  lemma GetFrameLegacy(pre: string, d: string, post: string)
    requires 1 <= |d| <= 2 && AllAsciiDigits(d)
    requires LowerStr(pre) == "frame"
    requires forall i :: 0 <= i < |post| ==> IsJsSpace(post[i])
    ensures GetFrame(pre + d + post) == if AsciiValue(d) in FrameNumbers then FrameKey(AsciiValue(d)) else "plain"
  {
    LegacyRaw(pre, d, post);
    LegacyOfDigits(d);
    AsciiValueBound(d);
    assert Pow10(1) == 10 && Pow10(2) == 100;
    FrameKeyNames(AsciiValue(d));
  }

  /** Blanks after a text whose last character is not blank are trimmed away. */
  lemma {:induction false} TrailOfPadded(s: string, post: string)
    requires |s| > 0 && !IsJsSpace(s[|s| - 1])
    requires forall i :: 0 <= i < |post| ==> IsJsSpace(post[i])
    ensures TrailLength(s + post, IsJsSpace) == |post|
    decreases |post|
  {
    var t := s + post;
    if |post| > 0 {
      assert t[..|t| - 1] == s + post[..|post| - 1];
      TrailOfPadded(s, post[..|post| - 1]);
    } else {
      assert t == s;
    }
  }

  /** Trailing blanks after a text that starts and ends with something else are trimmed
      away. */
  lemma TrimOfPadded(s: string, post: string)
    requires |s| > 0 && !IsJsSpace(s[0]) && !IsJsSpace(s[|s| - 1])
    requires forall i :: 0 <= i < |post| ==> IsJsSpace(post[i])
    ensures JsTrim(s + post) == s
  {
    var t := s + post;
    TrailOfPadded(s, post);
    assert RunLength(t, IsJsSpace) == 0;
    assert t[0..|s|] == s;
  }

  /** What `getFrameTextLayout` returns. */
  datatype TextLayout = TextLayout(widthPct: int, heightPct: int, padH: int, padV: int, circle: bool, maxLines: int)

  /** The frames with a round text area. */
  predicate IsCircleFrame(n: nat) { n == 10 || n == 11 || n == 12 || n == 26 || n == 27 || n == 29 }

  /** The frames with a narrower text area. */
  predicate IsNarrowFrame(n: nat) { 7 <= n <= 9 || 18 <= n <= 21 }

  /** `/^frame(\d{1,3})$/` on a key, as a number, 0 when it does not match. */
  function FrameNumber(key: string): (n: nat)
    ensures n > 0 ==> 6 <= |key| <= 8 && key[..5] == "frame"
  {
    if 6 <= |key| <= 8 && key[..5] == "frame" && AllAsciiDigits(key[5..]) then AsciiValue(key[5..]) else 0
  }

  /** `getFrameTextLayout(frameKey)`, the empty string standing for a missing key. */
  function FrameTextLayout(frameKey: string): (r: TextLayout)
    ensures r.widthPct == r.heightPct && r.padH == r.padV
    ensures r.maxLines == 12 || r.maxLines == 14 || r.maxLines == 16 || r.maxLines == 18
    ensures var key := LowerStr(if frameKey == "" then "plain" else frameKey);
      r.circle <==> IsCircleFrame(FrameNumber(key))
    ensures var key := LowerStr(if frameKey == "" then "plain" else frameKey);
      key == "plain" <==> r.maxLines == 18
  {
    var key := LowerStr(if frameKey == "" then "plain" else frameKey);
    var n := FrameNumber(key);
    if key == "plain" then TextLayout(90, 90, 26, 26, false, 18)
    else if IsCircleFrame(n) then TextLayout(74, 74, 12, 12, true, 12)
    else if IsNarrowFrame(n) then TextLayout(82, 82, 18, 18, false, 14)
    else TextLayout(86, 86, 22, 22, false, 16)
  }

  /** Of the frames a post can show, exactly the pictures 10, 11, 12, 26, 27 and 29 get a
      round text area. */
  lemma FrameLayoutOfOption(k: string)
    requires IsFrameKey(k)
    ensures FrameTextLayout(k).circle <==> k != "plain" && IsCircleFrame(AsciiValue(k[5..]))
  {
    assert LowerStr(k) == k;
  }

  // ---------------------------------------------------------------------
  // The mention of sendCommentOrReply
  // ---------------------------------------------------------------------

  /** `s.toLowerCase().startsWith(p.toLowerCase())`. */
  predicate StartsWithIgnoreCase(s: string, p: string) {
    LowerStr(p) <= LowerStr(s)
  }

  /** The text `sendCommentOrReply` sends, the empty name standing for no reply target:
      nothing for a blank input; otherwise the trimmed input, with `@name ` put in front
      of a reply that does not already start with `@name` in any case. */
  function ReplyText(input: string, replyToName: string): (r: Option<string>)
    ensures r.None? <==> JsTrim(input) == ""
    ensures r.Some? && replyToName != "" ==> StartsWithIgnoreCase(r.value, "@" + replyToName)
    ensures r.Some? && (replyToName == "" || StartsWithIgnoreCase(JsTrim(input), "@" + replyToName)) ==>
      r.value == JsTrim(input)
    ensures r.Some? ==> JsTrim(input) <= r.value || r.value == "@" + replyToName + " " + JsTrim(input)
  {
    var text := JsTrim(input);
    if text == "" then None
    else if replyToName == "" then Some(text)
    else
      var mention := "@" + replyToName;
      if StartsWithIgnoreCase(text, mention) then Some(text)
      else
        assert LowerStr(mention + " " + text) == LowerStr(mention) + LowerStr(" " + text);
        Some(mention + " " + text)
  }

  /** Sending the sent text again sends it unchanged: the mention is never doubled. */
  lemma ReplyTextIdempotent(input: string, replyToName: string)
    requires ReplyText(input, replyToName).Some?
    ensures ReplyText(ReplyText(input, replyToName).value, replyToName) == ReplyText(input, replyToName)
  {
    var text := JsTrim(input);
    var r := ReplyText(input, replyToName).value;
    assert IsTrimmed(text, IsJsSpace);
    if r != text {
      assert r == "@" + replyToName + " " + text;
      assert r[0] == '@' && r[|r| - 1] == text[|text| - 1];
    }
    assert IsTrimmed(r, IsJsSpace);
    assert JsTrim(r) == r;
  }
}
