/**
 * Cutting a post into ayah blocks at its `Aayat No. N` (or `N-M`) marker
 * lines, and turning a marker label into the list of ayah numbers it covers.
 * The marker regex `/(?:^|\n)[^\n]*Aayat\s*No\.?\s*([0-9]+(?:\s*[-–]\s*[0-9]+)?)[^\n]*\n?/gim`
 * is modelled by a scanner that makes the same choices as its backtracking:
 * the `[^\n]*` in front of the keyword is greedy, so on a line with several
 * keywords the rightmost one that is followed by a label wins.
 */
module ParserMarkers {
  import opened Base
  import opened Chars
  import opened Strings
  import opened Seqs

  /** A character after which a multiline `^` matches. */
  predicate IsLineTerminator(c: char) {
    c == '\n' || c == '\r' || c == '\U{2028}' || c == '\U{2029}'
  }

  /** The two range dashes, `-` and `–`. */
  predicate IsRangeDash(c: char) { c == '-' || c == '\U{2013}' }

  predicate NotNewline(c: char) { c != '\n' }

  /** The end of the line that contains `q`: the next `\n`, or the end of the text. */
  function LineEnd(s: string, q: nat): (e: nat)
    requires q <= |s|
    ensures q <= e <= |s| && (e < |s| ==> s[e] == '\n')
    ensures forall k :: q <= k < e ==> s[k] != '\n'
  {
    SkipWhile(s, q, NotNewline)
  }

  lemma LowerKeywords()
    ensures LowerStr("aayat") == "aayat" && LowerStr("Aayat") == "aayat"
    ensures LowerStr("no") == "no" && LowerStr("No") == "no"
  {
  }

  /** The optional `\s*[-–]\s*[0-9]+` after the first number `d..e`: the label's bounds,
      extended over the range part when there is one. */
  function RangeTail(s: string, d: nat, e: nat): (r: (nat, nat))
    requires d < e <= |s|
    ensures r.0 == d && e <= r.1 <= |s|
  {
    var f := SkipWhile(s, e, IsJsSpace);
    if f < |s| && IsRangeDash(s[f]) then
      var g := SkipWhile(s, f + 1, IsJsSpace);
      var h := SkipWhile(s, g, IsAsciiDigit);
      if h == g then (d, e) else (d, h)
    else (d, e)
  }

  /** `\s*([0-9]+(?:\s*[-–]\s*[0-9]+)?)` from `c`. */
  function NumberAfter(s: string, c: nat): (r: Option<(nat, nat)>)
    requires c <= |s|
    ensures r.Some? ==> c <= r.value.0 < r.value.1 <= |s| && IsAsciiDigit(s[r.value.0])
  {
    var d := SkipWhile(s, c, IsJsSpace);
    var e := SkipWhile(s, d, IsAsciiDigit);
    if e == d then None else Some(RangeTail(s, d, e))
  }

  /** `\s*No\.?` and the label, read from `a` (just after the keyword): the label's bounds.
      A `.` after `No` is always taken: leaving it out cannot help the rest match. */
  function LabelAfter(s: string, a: nat): (r: Option<(nat, nat)>)
    requires a <= |s|
    ensures r.Some? ==> a < r.value.0 < r.value.1 <= |s| && IsAsciiDigit(s[r.value.0])
  {
    var b := SkipWhile(s, a, IsJsSpace);
    if !OccursAtIgnoreCase(s, "no", b) then None
    else NumberAfter(s, if b + 2 < |s| && s[b + 2] == '.' then b + 3 else b + 2)
  }

  /** One match of the marker regex: where it starts, where its keyword is, the bounds of
      the captured label and where the match ends. */
  datatype Hit = Hit(index: nat, keyword: nat, labelStart: nat, labelEnd: nat, end: nat)

  /** A hit is consistent with the text: the keyword lies inside the match, before the label. */
  predicate WellPlaced(s: string, h: Hit) {
    h.index <= h.keyword && h.keyword + 5 < h.labelStart < h.labelEnd <= h.end <= |s| &&
    IsAsciiDigit(s[h.labelStart])
  }

  /** `Aayat` at `a`, followed by a label. */
  predicate IsMarkerKeyword(s: string, a: nat) {
    OccursAtIgnoreCase(s, "aayat", a) && LabelAfter(s, a + 5).Some?
  }

  /** The keyword test as a function value, for the backward scan. */
  function KeywordTest(s: string): nat -> bool {
    (a: nat) => IsMarkerKeyword(s, a)
  }

  /** The hit whose keyword is at `a`: the match runs on to the end of the label's line
      and takes its newline. */
  function HitAt(s: string, index: nat, a: nat): (h: Hit)
    requires index <= a && a + 5 <= |s| && LabelAfter(s, a + 5).Some?
    ensures WellPlaced(s, h) && h.index == index && h.keyword == a
  {
    var (ls, le) := LabelAfter(s, a + 5).value;
    var t := LineEnd(s, le);
    Hit(index, a, ls, le, if t < |s| then t + 1 else t)
  }

  /** `[^\n]*Aayat…[^\n]*\n?` from `q`: the keyword is the rightmost usable one on `q`'s line. */
  function MarkerFrom(s: string, index: nat, q: nat): (h: Option<Hit>)
    requires index <= q <= |s|
    ensures h.Some? ==> h.value.index == index && WellPlaced(s, h.value)
    ensures h.Some? ==> q <= h.value.keyword && IsMarkerKeyword(s, h.value.keyword)
  {
    match RightmostWhere(KeywordTest(s), q, LineEnd(s, q))
    case None => None
    case Some(a) =>
      assert IsMarkerKeyword(s, a);
      Some(HitAt(s, index, a))
  }

  /** The marker regex tried at `p`: first with `^` (at a line start), then with `\n`. */
  function MatchAt(s: string, p: nat): (h: Option<Hit>)
    ensures h.Some? ==> h.value.index == p && WellPlaced(s, h.value)
    ensures h.Some? ==> IsMarkerKeyword(s, h.value.keyword)
  {
    if p > |s| then None
    else
      var first := if p == 0 || IsLineTerminator(s[p - 1]) then MarkerFrom(s, p, p) else None;
      if first.Some? then first
      else if p < |s| && s[p] == '\n' then MarkerFrom(s, p, p + 1)
      else None
  }

  /** The match test as a function value, for the forward scan. */
  function MatchTest(s: string): nat -> Option<Hit> {
    (k: nat) => MatchAt(s, k)
  }

  /** The leftmost match starting at or after `p`. */
  function FirstMatch(s: string, p: nat): (h: Option<Hit>)
    ensures h.Some? ==> p <= h.value.index < |s| && MatchAt(s, h.value.index) == h
  {
    match FirstSome(MatchTest(s), p, |s|)
    case None => None
    case Some((k, h)) =>
      assert MatchAt(s, k) == Some(h);
      Some(h)
  }

  /** Nothing matches before the first match. */
  lemma FirstMatchLeftmost(s: string, p: nat, k: nat)
    requires p <= k < |s|
    requires FirstMatch(s, p).None? || k < FirstMatch(s, p).value.index
    ensures MatchAt(s, k).None?
  {
    assert MatchTest(s)(k) == MatchAt(s, k);
  }

  /** Where nothing matches, the search finds nothing. */
  lemma FirstMatchNone(s: string, p: nat)
    requires forall k :: p <= k < |s| ==> MatchAt(s, k).None?
    ensures FirstMatch(s, p).None?
  {
    var r := FirstSome(MatchTest(s), p, |s|);
    if r.Some? {
      assert MatchTest(s)(r.value.0) == MatchAt(s, r.value.0);
    }
  }

  /** The hits are well placed and each ends before the next begins. */
  predicate Chained(s: string, hs: seq<Hit>) {
    |hs| == 0 ||
    (WellPlaced(s, hs[0]) && (|hs| > 1 ==> hs[0].end <= hs[1].index) && Chained(s, hs[1..]))
  }

  /** `text.matchAll(marker)`: each search resumes where the previous match ended. */
  function AllMatches(s: string, p: nat): (hs: seq<Hit>)
    ensures Chained(s, hs)
    ensures |hs| > 0 ==> p <= hs[0].index && FirstMatch(s, p) == Some(hs[0])
    ensures |hs| == 0 <==> FirstMatch(s, p).None?
    decreases |s| - p
  {
    match FirstMatch(s, p)
    case None => []
    case Some(h) =>
      var rest := AllMatches(s, h.end);
      assert ([h] + rest)[1..] == rest;
      [h] + rest
  }

  /** A piece of the post: the marker's label and the text up to the next marker. */
  datatype Block = Block(marker: string, body: string)

  /** One block per hit: the label, and the text from the end of the hit to the next hit. */
  function BlocksOf(s: string, hs: seq<Hit>): (bs: seq<Block>)
    requires Chained(s, hs)
    ensures |bs| == |hs|
    ensures forall i :: 0 <= i < |bs| ==> |bs[i].marker| > 0 && IsAsciiDigit(bs[i].marker[0])
  {
    if |hs| == 0 then []
    else
      var h := hs[0];
      var tail := hs[1..];
      assert Chained(s, tail);
      assert |tail| > 0 ==> WellPlaced(s, tail[0]);
      var next := if |hs| > 1 then hs[1].index else |s|;
      assert s[h.labelStart..h.labelEnd][0] == s[h.labelStart];
      [Block(s[h.labelStart..h.labelEnd], s[h.end..next])] + BlocksOf(s, hs[1..])
  }

  /** `splitAyahBlocks`: one block per marker match, labelled with the marker's number or
      range; a text without the keyword has no blocks. */
  function SplitAyahBlocks(text: string): (bs: seq<Block>)
    ensures |bs| == |AllMatches(text, 0)|
    ensures (forall a :: !OccursAtIgnoreCase(text, "aayat", a)) ==> bs == []
    ensures forall i :: 0 <= i < |bs| ==> |bs[i].marker| > 0 && IsAsciiDigit(bs[i].marker[0])
  {
    var hs := AllMatches(text, 0);
    assert |hs| > 0 ==> IsMarkerKeyword(text, hs[0].keyword);
    BlocksOf(text, hs)
  }

  /** The matches after the first are the matches from the end of the first. */
  lemma AllMatchesShift(s: string, p: nat, i: nat)
    requires 0 < i < |AllMatches(s, p)|
    ensures |AllMatches(s, AllMatches(s, p)[0].end)| == |AllMatches(s, p)| - 1
    ensures AllMatches(s, AllMatches(s, p)[0].end)[i - 1] == AllMatches(s, p)[i]
  {
    var hs := AllMatches(s, p);
    assert hs[1..] == AllMatches(s, hs[0].end);
  }

  /** Searching again from the end of a match finds the next match, or nothing after the
      last one. */
  lemma {:induction false} AllMatchesNext(s: string, p: nat, i: nat)
    requires i < |AllMatches(s, p)|
    ensures i + 1 < |AllMatches(s, p)| ==> FirstMatch(s, AllMatches(s, p)[i].end) == Some(AllMatches(s, p)[i + 1])
    ensures i + 1 == |AllMatches(s, p)| ==> FirstMatch(s, AllMatches(s, p)[i].end).None?
    decreases |s| - p
  {
    var hs := AllMatches(s, p);
    var q := hs[0].end;
    assert hs[1..] == AllMatches(s, q);
    if i > 0 {
      AllMatchesShift(s, p, i);
      if i + 1 < |hs| {
        AllMatchesShift(s, p, i + 1);
      }
      assert p < q by {
        assert WellPlaced(s, hs[0]);
      }
      AllMatchesNext(s, q, i - 1);
    }
  }

  /** No marker starts inside a block body: every position from the end of one match up to
      the next match (or the end of the text) fails to match. */
  lemma AllMatchesGaps(s: string, p: nat, i: nat, k: nat)
    requires i < |AllMatches(s, p)|
    requires AllMatches(s, p)[i].end <= k < |s|
    requires i + 1 < |AllMatches(s, p)| ==> k < AllMatches(s, p)[i + 1].index
    ensures MatchAt(s, k).None?
  {
    AllMatchesNext(s, p, i);
    FirstMatchLeftmost(s, AllMatches(s, p)[i].end, k);
  }

  /** Lower-casing sends only `a` and `A` to `a`. */
  lemma LowerIsA(c: char)
    ensures Lower(c) == 'a' <==> c == 'a' || c == 'A'
  {
  }

  /** A keyword occurrence starts with two letters `a`, in either case. */
  lemma NotKeyword(s: string, a: nat)
    requires a + 1 < |s| ==> !(s[a] in "aA" && s[a + 1] in "aA")
    ensures !OccursAtIgnoreCase(s, "aayat", a)
  {
    if OccursAtIgnoreCase(s, "aayat", a) {
      assert LowerStr(s[a..a + 5])[0] == 'a' && LowerStr(s[a..a + 5])[1] == 'a';
      LowerIsA(s[a]);
      LowerIsA(s[a + 1]);
    }
  }

  /** A keyword occurrence inside the tail `s[m..]` is one in that tail. */
  lemma KeywordInTail(s: string, m: nat, a: nat)
    requires m <= a && m <= |s| && OccursAtIgnoreCase(s, "aayat", a)
    ensures OccursAtIgnoreCase(s[m..], "aayat", a - m)
  {
    assert s[m..][a - m..a - m + 5] == s[a..a + 5];
  }

  /** The text of a one-ayah post body: `Aayat No. N`, a newline, then the body. */
  function MarkerLine(n: nat): string {
    "Aayat No. " + NatToString(n) + "\n"
  }

  /** The characters of a marker line followed by a body. */
  lemma MarkerLineShape(n: nat, body: string)
    ensures var s := MarkerLine(n) + body; var ds := NatToString(n); var e := 10 + |ds|;
      e < |s| && s[..10] == "Aayat No. " && s[10..e] == ds && s[e] == '\n' && s[e + 1..] == body &&
      s[e + 1..|s|] == body
  {
  }

  /** After `No. ` the label is the number, ending at the newline. */
  lemma MarkerLineNumber(n: nat, body: string)
    requires |body| == 0 || (!IsJsSpace(body[0]) && !IsRangeDash(body[0]))
    ensures var e: nat := 10 + |NatToString(n)|;
      e < |MarkerLine(n) + body| && NumberAfter(MarkerLine(n) + body, 9) == Some((10, e))
  {
    var ds := NatToString(n);
    var s := MarkerLine(n) + body;
    var e := 10 + |ds|;
    MarkerLineShape(n, body);
    assert s[9] == s[..10][9];
    assert forall k :: 10 <= k < e ==> s[k] == s[10..e][k - 10];
    SkipWhileEnds(s, 9, 10, IsJsSpace);
    SkipWhileEnds(s, 10, e, IsAsciiDigit);
    if |body| > 0 {
      assert s[e + 1] == s[e + 1..][0];
    }
    SkipWhileEnds(s, e, e + 1, IsJsSpace);
  }

  /** The label of `Aayat No. N` followed by a newline and a body that does not start with a
      blank or a dash. */
  lemma MarkerLineLabel(n: nat, body: string)
    requires |body| == 0 || (!IsJsSpace(body[0]) && !IsRangeDash(body[0]))
    ensures var s := MarkerLine(n) + body; var e: nat := 10 + |NatToString(n)|;
      e < |s| && s[e] == '\n' && LabelAfter(s, 5) == Some((10, e))
  {
    var s := MarkerLine(n) + body;
    MarkerLineShape(n, body);
    MarkerLineNumber(n, body);
    LowerKeywords();
    assert s[5..10] == " No. ";
    assert s[6..8] == "No";
    SkipWhileEnds(s, 5, 6, IsJsSpace);
  }

  /** On the marker line only the keyword at 0 can be a keyword. */
  lemma {:induction false} MarkerLineOneKeyword(n: nat, body: string, a: nat)
    requires 0 < a <= 10 + |NatToString(n)|
    ensures !OccursAtIgnoreCase(MarkerLine(n) + body, "aayat", a)
  {
    var ds := NatToString(n);
    var s := MarkerLine(n) + body;
    assert s[..10] == "Aayat No. ";
    assert forall k :: 0 <= k < |ds| ==> s[10 + k] == ds[k];
    if a == 1 || a == 3 {
      assert s[a + 1] == s[..10][a + 1];
    } else if a < 10 {
      assert s[a] == s[..10][a];
    } else if a < 10 + |ds| {
      assert s[a] == ds[a - 10];
    } else {
      assert s[a] == '\n';
    }
    NotKeyword(s, a);
  }

  /** The keyword at 0 of a marker line is followed by its label. */
  lemma MarkerLineKeyword(n: nat, body: string)
    requires |body| == 0 || (!IsJsSpace(body[0]) && !IsRangeDash(body[0]))
    ensures IsMarkerKeyword(MarkerLine(n) + body, 0)
  {
    var s := MarkerLine(n) + body;
    MarkerLineLabel(n, body);
    MarkerLineShape(n, body);
    LowerKeywords();
    assert s[0..5] == s[..10][0..5];
  }

  /** The rightmost usable keyword on the marker line is the one at 0. */
  lemma MarkerLineRightmost(n: nat, body: string)
    requires |body| == 0 || (!IsJsSpace(body[0]) && !IsRangeDash(body[0]))
    ensures var s := MarkerLine(n) + body;
      LineEnd(s, 0) == 10 + |NatToString(n)| && RightmostWhere(KeywordTest(s), 0, LineEnd(s, 0)) == Some(0)
  {
    var s := MarkerLine(n) + body;
    var e := 10 + |NatToString(n)|;
    MarkerLineShape(n, body);
    assert forall k :: 0 <= k < 10 ==> s[k] == s[..10][k];
    assert forall k :: 10 <= k < e ==> s[k] == s[10..e][k - 10];
    SkipWhileEnds(s, 0, e, NotNewline);
    MarkerLineKeyword(n, body);
    assert KeywordTest(s)(0);
    forall b | 0 < b <= e ensures !KeywordTest(s)(b) {
      MarkerLineOneKeyword(n, body, b);
    }
  }

  /** The hit of a marker line: the match at 0 takes the whole line and its newline. */
  lemma SingleMarkerMatch(n: nat, body: string)
    requires |body| == 0 || (!IsJsSpace(body[0]) && !IsRangeDash(body[0]))
    ensures var e := 10 + |NatToString(n)|;
      MatchAt(MarkerLine(n) + body, 0) == Some(Hit(0, 0, 10, e, e + 1))
  {
    var s := MarkerLine(n) + body;
    var e := 10 + |NatToString(n)|;
    MarkerLineLabel(n, body);
    MarkerLineRightmost(n, body);
    MarkerLineShape(n, body);
    SkipWhileEnds(s, e, e, NotNewline);
  }

  /** After the marker line of a body without the keyword nothing matches. */
  lemma SingleMarkerRest(n: nat, body: string)
    requires forall a :: !OccursAtIgnoreCase(body, "aayat", a)
    ensures var e := 10 + |NatToString(n)|;
      e + 1 <= |MarkerLine(n) + body| && FirstMatch(MarkerLine(n) + body, e + 1).None?
  {
    var s := MarkerLine(n) + body;
    var e := 10 + |NatToString(n)|;
    MarkerLineShape(n, body);
    forall k | e + 1 <= k < |s| ensures MatchAt(s, k).None? {
      if MatchAt(s, k).Some? {
        var kw := MatchAt(s, k).value.keyword;
        KeywordInTail(s, e + 1, kw);
      }
    }
    FirstMatchNone(s, e + 1);
  }

  /** A match at 0 with nothing after it is the only match. */
  lemma AllMatchesOne(s: string, h: Hit)
    requires MatchAt(s, 0) == Some(h)
    requires FirstMatch(s, h.end).None?
    ensures AllMatches(s, 0) == [h]
  {
    assert MatchTest(s)(0) == Some(h);
    assert FirstSome(MatchTest(s), 0, |s|) == Some((0, h));
  }

  /** One hit gives one block: its label and everything after it. */
  lemma SingleBlock(s: string, h: Hit)
    requires AllMatches(s, 0) == [h]
    ensures SplitAyahBlocks(s) == [Block(s[h.labelStart..h.labelEnd], s[h.end..|s|])]
  {
    assert Chained(s, [h]);
    assert [h][1..] == [];
  }

  /** A post made of one marker line `Aayat No. N` and a body without the keyword is one
      block, labelled `N`, whose body is the rest of the text. */
  lemma SplitSingleMarker(n: nat, body: string)
    requires |body| == 0 || (!IsJsSpace(body[0]) && !IsRangeDash(body[0]))
    requires forall a :: !OccursAtIgnoreCase(body, "aayat", a)
    ensures SplitAyahBlocks(MarkerLine(n) + body) == [Block(NatToString(n), body)]
  {
    var s := MarkerLine(n) + body;
    var e := 10 + |NatToString(n)|;
    var h := Hit(0, 0, 10, e, e + 1);
    SingleMarkerMatch(n, body);
    SingleMarkerRest(n, body);
    AllMatchesOne(s, h);
    MarkerLineShape(n, body);
    SingleBlock(s, h);
  }

  // ---------------------------------------------------------------------
  // parseAyahRange
  // ---------------------------------------------------------------------

  /** `start, start + 1, ..., end`; empty when `end < start`. */
  function Range(start: nat, end: nat): (r: seq<nat>)
    ensures |r| == if end < start then 0 else end - start + 1
    ensures forall i :: 0 <= i < |r| ==> r[i] == start + i
    decreases if end < start then 0 else end - start + 1
  {
    if end < start then [] else [start] + Range(start + 1, end)
  }

  /** `Number` of a run of ASCII digits. */
  function DigitRunValue(s: string, a: nat, b: nat): nat
    requires a <= b <= |s|
    requires forall k :: a <= k < b ==> IsAsciiDigit(s[k])
  {
    assert AllDigits(s[a..b]) by {
      assert forall k :: 0 <= k < b - a ==> s[a..b][k] == s[a + k];
    }
    DigitsValue(s[a..b])
  }

  /** `marker[a..b]` is a non-empty run of ASCII digits. */
  predicate DigitRun(marker: string, a: nat, b: nat) {
    a < b <= |marker| && forall k :: a <= k < b ==> IsAsciiDigit(marker[k])
  }

  /** Where the two numbers of a label matching `/^\s*(\d+)(?:\s*[-–]\s*(\d+))?\s*$/`
      sit, as `(a, e, g, h)` with the first in `[a, e)` and the second in `[g, h)`; the
      second is the first when the label holds one number; nothing when the label does
      not match. */
  function RangeDigits(marker: string): (d: Option<(nat, nat, nat, nat)>)
    ensures d.Some? ==> DigitRun(marker, d.value.0, d.value.1) && DigitRun(marker, d.value.2, d.value.3)
    ensures (forall k :: 0 <= k < |marker| ==> !IsAsciiDigit(marker[k])) ==> d.None?
  {
    var a := SkipWhile(marker, 0, IsJsSpace);
    var e := SkipWhile(marker, a, IsAsciiDigit);
    if e == a then None
    else
      var f := SkipWhile(marker, e, IsJsSpace);
      if f == |marker| then Some((a, e, a, e))
      else if IsRangeDash(marker[f]) then
        var g := SkipWhile(marker, f + 1, IsJsSpace);
        var h := SkipWhile(marker, g, IsAsciiDigit);
        if h == g || SkipWhile(marker, h, IsJsSpace) != |marker| then None
        else Some((a, e, g, h))
      else None
  }

  /** `parseAyahRange`: the numbers from the first to the second; nothing when the label
      does not match or the range runs backwards. */
  function ParseAyahRange(marker: string): (r: seq<nat>)
    ensures forall i :: 0 <= i < |r| ==> r[i] == r[0] + i
    ensures (forall k :: 0 <= k < |marker| ==> !IsAsciiDigit(marker[k])) ==> r == []
  {
    match RangeDigits(marker)
    case None => []
    case Some((a, e, g, h)) => Range(DigitRunValue(marker, a, e), DigitRunValue(marker, g, h))
  }

  /** A single number is a one-ayah range. */
  lemma ParseAyahRangeSingle(n: nat)
    ensures ParseAyahRange(NatToString(n)) == [n]
  {
    var s := NatToString(n);
    SkipWhileEnds(s, 0, 0, IsJsSpace);
    SkipWhileEnds(s, 0, |s|, IsAsciiDigit);
    SkipWhileEnds(s, |s|, |s|, IsJsSpace);
    NatToStringValue(n);
    assert s[0..|s|] == s;
  }

  /** Where the scans of `A-B` stop. */
  lemma PairScans(x: string, y: string)
    requires |x| > 0 && |y| > 0
    requires forall k :: 0 <= k < |x| ==> IsAsciiDigit(x[k])
    requires forall k :: 0 <= k < |y| ==> IsAsciiDigit(y[k])
    ensures var s := x + "-" + y;
      SkipWhile(s, 0, IsJsSpace) == 0 && SkipWhile(s, 0, IsAsciiDigit) == |x| &&
      SkipWhile(s, |x|, IsJsSpace) == |x| && IsRangeDash(s[|x|]) &&
      SkipWhile(s, |x| + 1, IsJsSpace) == |x| + 1 && SkipWhile(s, |x| + 1, IsAsciiDigit) == |s| &&
      SkipWhile(s, |s|, IsJsSpace) == |s| && s[0..|x|] == x && s[|x| + 1..|s|] == y
  {
    var s := x + "-" + y;
    var e := |x|;
    assert forall k :: 0 <= k < e ==> s[k] == x[k];
    assert forall k :: 0 <= k < |y| ==> s[e + 1 + k] == y[k];
    assert s[e] == '-';
    SkipWhileEnds(s, 0, 0, IsJsSpace);
    SkipWhileEnds(s, 0, e, IsAsciiDigit);
    SkipWhileEnds(s, e, e, IsJsSpace);
    SkipWhileEnds(s, e + 1, e + 1, IsJsSpace);
    SkipWhileEnds(s, e + 1, |s|, IsAsciiDigit);
    SkipWhileEnds(s, |s|, |s|, IsJsSpace);
  }

  /** `A-B` covers `A` through `B`, and nothing when `B < A`. */
  lemma ParseAyahRangePair(a: nat, b: nat)
    ensures ParseAyahRange(NatToString(a) + "-" + NatToString(b)) == Range(a, b)
  {
    var x, y := NatToString(a), NatToString(b);
    NatToStringValue(a);
    NatToStringValue(b);
    PairScans(x, y);
  }

  /** `m[i..j]` is made only of JavaScript `\s` characters. */
  predicate BlankSpan(m: string, i: nat, j: nat) {
    i <= j <= |m| && forall k :: i <= k < j ==> IsJsSpace(m[k])
  }

  /** The label matches `^\s*(\d+)\s*$` with the number in `m[a..e]`. */
  predicate SingleMatch(m: string, a: nat, e: nat) {
    DigitRun(m, a, e) && BlankSpan(m, 0, a) && BlankSpan(m, e, |m|)
  }

  /** The label matches `^\s*(\d+)\s*[-–]\s*(\d+)\s*$` with the numbers in `m[a..e]`
      and `m[g..h]` and the dash at `f`. */
  predicate PairMatch(m: string, a: nat, e: nat, f: nat, g: nat, h: nat) {
    DigitRun(m, a, e) && e <= f < g && DigitRun(m, g, h) &&
    BlankSpan(m, 0, a) && BlankSpan(m, e, f) && IsRangeDash(m[f]) &&
    BlankSpan(m, f + 1, g) && BlankSpan(m, h, |m|)
  }

  /** A label of one number, blanks allowed around it, is that one ayah. */
  lemma ParseAyahRangeOfSingle(m: string, a: nat, e: nat)
    requires SingleMatch(m, a, e)
    ensures ParseAyahRange(m) == [DigitRunValue(m, a, e)]
  {
    SkipWhileEnds(m, 0, a, IsJsSpace);
    SkipWhileEnds(m, a, e, IsAsciiDigit);
    SkipWhileEnds(m, e, |m|, IsJsSpace);
    assert RangeDigits(m) == Some((a, e, a, e));
  }

  /** A label of two numbers joined by a hyphen or an en dash, blanks allowed around
      each part, covers the first number through the second, and nothing when the
      second is smaller. */
  lemma ParseAyahRangeOfPair(m: string, a: nat, e: nat, f: nat, g: nat, h: nat)
    requires PairMatch(m, a, e, f, g, h)
    ensures ParseAyahRange(m) == Range(DigitRunValue(m, a, e), DigitRunValue(m, g, h))
  {
    PairMatchScans(m, a, e, f, g, h);
    RangeDigitsAt(m, a, e, f, g, h);
  }

  /** Where the scans of `parseAyahRange` stop on a two-number label. */
  lemma PairMatchScans(m: string, a: nat, e: nat, f: nat, g: nat, h: nat)
    requires PairMatch(m, a, e, f, g, h)
    ensures SkipWhile(m, 0, IsJsSpace) == a && SkipWhile(m, a, IsAsciiDigit) == e
    ensures SkipWhile(m, e, IsJsSpace) == f && SkipWhile(m, f + 1, IsJsSpace) == g
    ensures SkipWhile(m, g, IsAsciiDigit) == h && SkipWhile(m, h, IsJsSpace) == |m|
  {
    BlankThenDigits(m, 0, a, e);
    SkipWhileEnds(m, e, f, IsJsSpace);
    BlankThenDigits(m, f + 1, g, h);
    SkipWhileEnds(m, h, |m|, IsJsSpace);
  }

  /** Where the scans stop on blanks in `m[i..a]` followed by the digit run `m[a..e]`. */
  lemma BlankThenDigits(m: string, i: nat, a: nat, e: nat)
    requires BlankSpan(m, i, a) && DigitRun(m, a, e)
    requires e < |m| ==> !IsAsciiDigit(m[e])
    ensures SkipWhile(m, i, IsJsSpace) == a && SkipWhile(m, a, IsAsciiDigit) == e
  {
    SkipWhileEnds(m, i, a, IsJsSpace);
    SkipWhileEnds(m, a, e, IsAsciiDigit);
  }

  /** Where the numbers sit once the scans of a two-number label are known. */
  lemma RangeDigitsAt(m: string, a: nat, e: nat, f: nat, g: nat, h: nat)
    requires a < e <= f < g < h <= |m|
    requires SkipWhile(m, 0, IsJsSpace) == a && SkipWhile(m, a, IsAsciiDigit) == e
    requires SkipWhile(m, e, IsJsSpace) == f && IsRangeDash(m[f])
    requires SkipWhile(m, f + 1, IsJsSpace) == g && SkipWhile(m, g, IsAsciiDigit) == h
    requires SkipWhile(m, h, IsJsSpace) == |m|
    ensures RangeDigits(m) == Some((a, e, g, h))
  {
    assert e != a && f != |m| && h != g;
  }

  /** Conversely, a label that matches neither form gives no ayahs. */
  lemma ParseAyahRangeForms(m: string)
    ensures ParseAyahRange(m) != [] ==>
      (exists a, e :: SingleMatch(m, a, e)) || (exists a, e, f, g, h :: PairMatch(m, a, e, f, g, h))
  {
    var a := SkipWhile(m, 0, IsJsSpace);
    var e := SkipWhile(m, a, IsAsciiDigit);
    var f := SkipWhile(m, e, IsJsSpace);
    if ParseAyahRange(m) != [] {
      if f == |m| {
        assert SingleMatch(m, a, e);
      } else {
        var g := SkipWhile(m, f + 1, IsJsSpace);
        var h := SkipWhile(m, g, IsAsciiDigit);
        assert PairMatch(m, a, e, f, g, h);
      }
    }
  }
}
