/**
 * String operations shared by the JavaScript and Python sources: trimming,
 * substring search, split/join, first-occurrence replacement, decimal
 * rendering and parsing, and the run-collapsing replacements that regular
 * expressions such as `/\s+/g` and `/[ \t]{2,}/g` perform.
 */
module Strings {
  import opened Chars
  import opened Base

  // ---------------------------------------------------------------------
  // Search
  // ---------------------------------------------------------------------

  /** `p` occurs in `s` starting at index `i`. */
  predicate OccursAt(s: string, p: string, i: int) {
    0 <= i && i + |p| <= |s| && s[i..i + |p|] == p
  }

  /** `s.includes(p)` in JavaScript, `p in s` in Python. */
  function Contains(s: string, p: string): (b: bool)
    ensures b <==> exists i :: OccursAt(s, p, i)
    decreases |s|
  {
    if p <= s then
      assert OccursAt(s, p, 0);
      true
    else if |s| == 0 then
      assert forall i :: !OccursAt(s, p, i);
      false
    else
      var b := Contains(s[1..], p);
      assert forall i :: OccursAt(s[1..], p, i) <==> OccursAt(s, p, i + 1) by {
        forall i ensures OccursAt(s[1..], p, i) <==> OccursAt(s, p, i + 1) {
          if 0 <= i && i + |p| <= |s| - 1 {
            assert s[1..][i..i + |p|] == s[i + 1..i + 1 + |p|];
          }
        }
      }
      assert !OccursAt(s, p, 0);
      assert (exists i :: OccursAt(s, p, i)) ==> exists i :: OccursAt(s[1..], p, i) by {
        if exists i :: OccursAt(s, p, i) {
          var i :| OccursAt(s, p, i);
          assert i >= 1;
          assert OccursAt(s[1..], p, i - 1);
        }
      }
      b
  }

  lemma ContainsLength(s: string, p: string)
    requires Contains(s, p)
    ensures |p| <= |s|
  {
    var i :| OccursAt(s, p, i);
  }

  /** Two texts that contain each other are equal. */
  lemma ContainsMutual(s: string, p: string)
    requires Contains(s, p) && Contains(p, s)
    ensures s == p
  {
    ContainsLength(s, p);
    ContainsLength(p, s);
    var i :| OccursAt(s, p, i);
    assert s[0..|p|] == s;
  }

  /** A text that contains a longer query contains every part of it. */
  lemma ContainsTransitive(s: string, q: string, p: string)
    requires Contains(s, q) && Contains(q, p)
    ensures Contains(s, p)
  {
    var i :| OccursAt(s, q, i);
    var j :| OccursAt(q, p, j);
    forall k | 0 <= k < |p| ensures s[i + j + k] == p[k] {
      assert s[i..i + |q|][j + k] == q[j + k];
      assert q[j..j + |p|][k] == q[j + k];
    }
    assert s[i + j..i + j + |p|] == p;
    assert OccursAt(s, p, i + j);
  }

  /** The index of the first occurrence of `p` in `s` at or after `from`. */
  function IndexOfFrom(s: string, p: string, from: nat): (r: Option<nat>)
    ensures r.Some? ==> from <= r.value && OccursAt(s, p, r.value)
    ensures r.Some? ==> forall j :: from <= j < r.value ==> !OccursAt(s, p, j)
    ensures r.None? ==> forall j :: from <= j ==> !OccursAt(s, p, j)
    decreases |s| - from
  {
    if from + |p| > |s| then None
    else if s[from..from + |p|] == p then Some(from)
    else IndexOfFrom(s, p, from + 1)
  }

  /** The index of the first occurrence of `p` in `s`. */
  function IndexOf(s: string, p: string): (r: Option<nat>)
    ensures r.Some? ==> OccursAt(s, p, r.value) && forall j :: 0 <= j < r.value ==> !OccursAt(s, p, j)
    ensures r.None? ==> forall j :: !OccursAt(s, p, j)
  {
    IndexOfFrom(s, p, 0)
  }

  /** Python `s.replace(old, new, 1)` and JavaScript `s.replace(old, new)` with a string pattern:
      the first occurrence of `pat` is replaced by `rep`; an empty `pat` inserts `rep` at the front. */
  function ReplaceFirst(s: string, pat: string, rep: string): (r: string)
    ensures !Contains(s, pat) ==> r == s
    ensures pat <= s ==> r == rep + s[|pat|..]
  {
    match IndexOf(s, pat)
    case None => s
    case Some(i) =>
      assert OccursAt(s, pat, i);
      s[..i] + rep + s[i + |pat|..]
  }

  /** The index of the first `c` in `s`. */
  function IndexOfChar(s: string, c: char): (i: nat)
    requires c in s
    ensures i < |s| && s[i] == c && c !in s[..i]
  {
    if s[0] == c then 0 else 1 + IndexOfChar(s[1..], c)
  }

  // ---------------------------------------------------------------------
  // Character classes over whole strings
  // ---------------------------------------------------------------------

  /** Every character of `s` satisfies `p`. */
  predicate All(s: string, p: char -> bool) {
    forall i :: 0 <= i < |s| ==> p(s[i])
  }

  /** A string built only from characters of `s` and the character `extra` keeps a class
      that `s` and `extra` are in. */
  lemma AllFromChars(s: string, t: string, p: char -> bool, extra: char)
    requires All(s, p) && p(extra)
    requires forall c :: c in t ==> c in s || c == extra
    ensures All(t, p)
  {
    forall i | 0 <= i < |t| ensures p(t[i]) {
      assert t[i] in t;
    }
  }

  // ---------------------------------------------------------------------
  // Character maps and filters
  // ---------------------------------------------------------------------

  /** Applies `f` to every character. */
  function MapChars(s: string, f: char -> char): (r: string)
    ensures |r| == |s| && forall i :: 0 <= i < |s| ==> r[i] == f(s[i])
  {
    seq(|s|, i requires 0 <= i < |s| => f(s[i]))
  }

  /** `.replace(/\r\n/g, '\n')` / `.replace("\r\n", "\n")`. */
  function UnifyCRLF(s: string): (r: string)
    ensures forall c :: c in r ==> c in s
    ensures '\r' !in s ==> r == s
    decreases |s|
  {
    if |s| == 0 then []
    else if |s| >= 2 && s[0] == '\r' && s[1] == '\n' then "\n" + UnifyCRLF(s[2..])
    else [s[0]] + UnifyCRLF(s[1..])
  }

  /** `.replace(/\r/g, '\n')`, one character at a time. */
  function CRToLF(c: char): (r: char)
    ensures r != '\r'
  {
    if c == '\r' then '\n' else c
  }

  /** Every line ending (`\r\n`, then a lone `\r`) becomes `\n`: the first two steps of the
      cleaners of both scripts and of the display cleaner. */
  function UnifyLineEnds(s: string): (r: string)
    ensures '\r' !in r
    ensures forall c :: c in r ==> c in s || c == '\n'
    ensures '\r' !in s ==> r == s
  {
    UnifyLineEndsChars(s);
    MapChars(UnifyCRLF(s), CRToLF)
  }

  lemma UnifyLineEndsChars(s: string)
    ensures forall c :: c in MapChars(UnifyCRLF(s), CRToLF) ==> c in s || c == '\n'
    ensures '\r' !in s ==> MapChars(UnifyCRLF(s), CRToLF) == s
  {
    var u := UnifyCRLF(s);
    var r := MapChars(u, CRToLF);
    forall c | c in r ensures c in s || c == '\n' {
      var i :| 0 <= i < |r| && r[i] == c;
      assert u[i] in u;
    }
    if '\r' !in s {
      assert forall i :: 0 <= i < |u| ==> u[i] != '\r' by {
        assert forall i :: 0 <= i < |u| ==> u[i] in u;
      }
    }
  }

  /** Removes every character for which `drop` holds (`.replace(/[...]/g, '')`). */
  function RemoveWhere(s: string, drop: char -> bool): (r: string)
    ensures forall i :: 0 <= i < |r| ==> !drop(r[i])
    ensures forall c :: c in r ==> c in s
    ensures (forall i :: 0 <= i < |s| ==> !drop(s[i])) ==> r == s
    ensures |r| <= |s|
  {
    if |s| == 0 then []
    else if drop(s[0]) then RemoveWhere(s[1..], drop)
    else [s[0]] + RemoveWhere(s[1..], drop)
  }

  /** ASCII lower-casing of a whole string. */
  function LowerStr(s: string): (r: string)
    ensures |r| == |s| && forall i :: 0 <= i < |s| ==> r[i] == Lower(s[i])
  {
    MapChars(s, Lower)
  }

  /** ASCII upper-casing of a whole string. */
  function UpperStr(s: string): (r: string)
    ensures |r| == |s| && forall i :: 0 <= i < |s| ==> r[i] == Upper(s[i])
  {
    MapChars(s, Upper)
  }

  lemma LowerStrIdempotent(s: string)
    ensures LowerStr(LowerStr(s)) == LowerStr(s)
  {
  }

  /** `p` occurs in `s` at `i`, ignoring ASCII case (a regular expression's `i` flag). */
  predicate OccursAtIgnoreCase(s: string, p: string, i: int) {
    0 <= i && i + |p| <= |s| && LowerStr(s[i..i + |p|]) == LowerStr(p)
  }

  /** JavaScript `.length`: the number of UTF-16 code units. */
  function Utf16Length(s: string): (n: nat)
    ensures |s| <= n <= 2 * |s|
  {
    if |s| == 0 then 0 else Utf16Units(s[0]) + Utf16Length(s[1..])
  }

  // ---------------------------------------------------------------------
  // Trimming
  // ---------------------------------------------------------------------

  /** Length of the longest suffix of `s` whose characters satisfy `p`. */
  function TrailLength(s: string, p: char -> bool): (k: nat)
    ensures k <= |s|
    ensures forall i :: |s| - k <= i < |s| ==> p(s[i])
    ensures k < |s| ==> !p(s[|s| - 1 - k])
  {
    if |s| > 0 && p(s[|s| - 1]) then 1 + TrailLength(s[..|s| - 1], p) else 0
  }

  /** Drops the leading characters satisfying `p`. */
  function TrimLeft(s: string, p: char -> bool): (r: string)
    ensures |r| > 0 ==> !p(r[0])
    ensures |s| > 0 && !p(s[0]) ==> r == s
    ensures forall c :: c in r ==> c in s
  {
    s[RunLength(s, p)..]
  }

  /** Neither end of `s` satisfies `p`. */
  predicate IsTrimmed(s: string, p: char -> bool) {
    |s| == 0 || (!p(s[0]) && !p(s[|s| - 1]))
  }

  /** Drops the characters satisfying `p` from both ends. The result is the slice of `s`
      that starts after the leading run. */
  function Trim(s: string, p: char -> bool): (r: string)
    ensures IsTrimmed(r, p)
    ensures RunLength(s, p) + |r| <= |s| && r == s[RunLength(s, p)..RunLength(s, p) + |r|]
    ensures IsTrimmed(s, p) ==> r == s
    ensures forall c :: c in r ==> c in s
  {
    var a := RunLength(s, p);
    if a == |s| then []
    else
      var b := |s| - TrailLength(s, p);
      assert a < b;
      s[a..b]
  }

  /** JavaScript `String.prototype.trim`. */
  function JsTrim(s: string): (r: string)
    ensures IsTrimmed(r, IsJsSpace) && |r| <= |s|
    ensures forall c :: c in r ==> c in s
    ensures IsTrimmed(s, IsJsSpace) ==> r == s
  {
    Trim(s, IsJsSpace)
  }

  /** Python `str.strip()` with no argument. */
  function PyStrip(s: string): (r: string)
    ensures IsTrimmed(r, IsPySpace) && |r| <= |s|
    ensures forall c :: c in r ==> c in s
    ensures IsTrimmed(s, IsPySpace) ==> r == s
  {
    Trim(s, IsPySpace)
  }

  /** Python `str.rstrip()` with no argument. */
  function PyRStrip(s: string): (r: string)
    ensures |r| <= |s| && r == s[..|r|]
    ensures |r| > 0 ==> !IsPySpace(r[|r| - 1])
  {
    s[..|s| - TrailLength(s, IsPySpace)]
  }

  /** Stripping both ends after stripping the right end is stripping both ends. */
  lemma StripAfterRStrip(s: string)
    ensures PyStrip(PyRStrip(s)) == PyStrip(s)
  {
    var t := PyRStrip(s);
    var a := RunLength(s, IsPySpace);
    if a < |t| {
      RunLengthPrefix(s, |t|, IsPySpace);
      assert TrailLength(t, IsPySpace) == 0;
    } else {
      RunLengthPrefix(s, |t|, IsPySpace);
      assert RunLength(t, IsPySpace) == |t|;
    }
  }

  /** The leading run of a prefix is the leading run of the whole, cut at the prefix. */
  lemma {:induction false} RunLengthPrefix(s: string, n: nat, p: char -> bool)
    requires n <= |s|
    ensures RunLength(s[..n], p) == if RunLength(s, p) < n then RunLength(s, p) else n
  {
    if n > 0 && p(s[0]) {
      RunLengthPrefix(s[1..], n - 1, p);
      assert s[..n][1..] == s[1..][..n - 1];
    }
  }

  /** Python `str.strip(chars)`. */
  function PyStripChars(s: string, chars: set<char>): (r: string)
    ensures |r| == 0 || (r[0] !in chars && r[|r| - 1] !in chars)
    ensures forall c :: c in r ==> c in s
  {
    Trim(s, c => c in chars)
  }

  // ---------------------------------------------------------------------
  // Runs of a character class
  // ---------------------------------------------------------------------

  /** Length of the longest prefix of `s` whose characters satisfy `p`. */
  function RunLength(s: string, p: char -> bool): (k: nat)
    ensures k <= |s|
    ensures forall i :: 0 <= i < k ==> p(s[i])
    ensures k < |s| ==> !p(s[k])
  {
    if |s| > 0 && p(s[0]) then 1 + RunLength(s[1..], p) else 0
  }

  /** A slice of the appended part of `a + t` is the same slice of `t`. */
  lemma AppendSlice(a: string, t: string, i: nat, j: nat)
    requires i <= j <= |t|
    ensures (a + t)[|a| + i..|a| + j] == t[i..j]
  {
  }

  /** A slice of the middle part of `a + t + b` is the same slice of `t`. */
  lemma MiddleSlice(a: string, t: string, b: string, i: nat, j: nat)
    requires i <= j <= |t|
    ensures (a + t + b)[|a| + i..|a| + j] == t[i..j]
  {
    AppendSlice(a, t, i, j);
    assert (a + t + b)[|a| + i..|a| + j] == (a + t)[|a| + i..|a| + j];
  }

  /** The end of the run of `p`-characters that starts at `i`. */
  function SkipWhile(s: string, i: nat, p: char -> bool): (j: nat)
    requires i <= |s|
    ensures i <= j <= |s|
    ensures forall k :: i <= k < j ==> p(s[k])
    ensures j < |s| ==> !p(s[j])
    decreases |s| - i
  {
    if i < |s| && p(s[i]) then SkipWhile(s, i + 1, p) else i
  }

  lemma SkipWhileEnds(s: string, i: nat, j: nat, p: char -> bool)
    requires i <= j <= |s|
    requires forall k :: i <= k < j ==> p(s[k])
    requires j < |s| ==> !p(s[j])
    ensures SkipWhile(s, i, p) == j
  {
  }

  /** No two adjacent characters both satisfy `p`. */
  predicate NoAdjacent(s: string, p: char -> bool) {
    forall i :: 0 <= i < |s| - 1 ==> !(p(s[i]) && p(s[i + 1]))
  }

  /** `.replace(/[class]+/g, rep)`: every maximal run of `p`-characters becomes `rep`. */
  function SquashRuns(s: string, p: char -> bool, rep: char): (r: string)
    ensures forall c :: c in r ==> c in s || c == rep
    ensures !p(rep) ==> forall i :: 0 <= i < |r| ==> !p(r[i])
    ensures p(rep) ==> NoAdjacent(r, p)
    ensures (forall i :: 0 <= i < |s| ==> !p(s[i])) ==> r == s
    ensures |r| > 0 && p(r[0]) ==> |s| > 0 && p(s[0])
    ensures |r| <= |s|
    ensures |s| > 0 && !p(s[0]) ==> |r| > 0 && r[0] == s[0]
    decreases |s|
  {
    if |s| == 0 then []
    else if p(s[0]) then
      var k := RunLength(s, p);
      [rep] + SquashRuns(s[k..], p, rep)
    else
      [s[0]] + SquashRuns(s[1..], p, rep)
  }

  /** Text built from a squeezed text and the replacement has no character of the
      squeezed class, when the replacement is not in it. */
  lemma SquashRunsAvoids(s: string, p: char -> bool, rep: char, t: string)
    requires !p(rep)
    requires forall c :: c in t ==> c in SquashRuns(s, p, rep) || c == rep
    ensures forall i :: 0 <= i < |t| ==> !p(t[i])
  {
    var r := SquashRuns(s, p, rep);
    forall i | 0 <= i < |t| ensures !p(t[i]) {
      if t[i] != rep {
        assert t[i] in t;
        var j :| 0 <= j < |r| && r[j] == t[i];
      }
    }
  }

  /** `.replace(/[class]{2,}/g, rep)`: every maximal run of two or more `p`-characters becomes `rep`. */
  function ShrinkLongRuns(s: string, p: char -> bool, rep: char): (r: string)
    requires p(rep)
    ensures forall c :: c in r ==> c in s || c == rep
    ensures NoAdjacent(r, p)
    ensures |r| > 0 && p(r[0]) ==> |s| > 0 && p(s[0])
    ensures |s| > 0 && !p(s[0]) ==> |r| > 0 && r[0] == s[0]
    ensures NoAdjacent(s, p) ==> r == s
    ensures |r| <= |s|
    decreases |s|
  {
    if |s| == 0 then []
    else if p(s[0]) then
      var k := RunLength(s, p);
      NoAdjacentSliceHelper(s, p, k);
      assert k >= 2 ==> p(s[0]) && p(s[1]);
      assert NoAdjacent(s, p) ==> k == 1;
      assert s == s[..k] + s[k..];
      (if k >= 2 then [rep] else s[..k]) + ShrinkLongRuns(s[k..], p, rep)
    else
      [s[0]] + ShrinkLongRuns(s[1..], p, rep)
  }

  lemma NoAdjacentSliceHelper(s: string, p: char -> bool, k: nat)
    requires k <= |s|
    ensures NoAdjacent(s, p) ==> NoAdjacent(s[k..], p)
  {
    if NoAdjacent(s, p) {
      NoAdjacentSlice(s, p, k, |s|);
      assert s[k..|s|] == s[k..];
    }
  }

  lemma NoAdjacentSlice(s: string, p: char -> bool, a: nat, b: nat)
    requires a <= b <= |s| && NoAdjacent(s, p)
    ensures NoAdjacent(s[a..b], p)
  {
    forall i | 0 <= i < b - a - 1 ensures !(p(s[a..b][i]) && p(s[a..b][i + 1])) {
      assert s[a..b][i] == s[a + i] && s[a..b][i + 1] == s[a + i + 1];
    }
  }

  // ---------------------------------------------------------------------
  // Split and join
  // ---------------------------------------------------------------------

  /** `parts.join(sep)` / `sep.join(parts)`. */
  function Join(parts: seq<string>, sep: string): string {
    if |parts| == 0 then ""
    else if |parts| == 1 then parts[0]
    else parts[0] + sep + Join(parts[1..], sep)
  }

  /** Joining one more part appends it after the separator. */
  lemma {:induction false} JoinSnoc(parts: seq<string>, sep: string, x: string)
    ensures Join(parts + [x], sep) == if |parts| == 0 then x else Join(parts, sep) + sep + x
  {
    if |parts| > 1 {
      JoinSnoc(parts[1..], sep, x);
      assert (parts + [x])[1..] == parts[1..] + [x];
    }
  }

  /** Joining two non-empty lists is joining each and putting the separator between. */
  lemma {:induction false} JoinAppend(xs: seq<string>, ys: seq<string>, sep: string)
    requires |xs| > 0 && |ys| > 0
    ensures Join(xs + ys, sep) == Join(xs, sep) + sep + Join(ys, sep)
  {
    if |xs| > 1 {
      JoinAppend(xs[1..], ys, sep);
      assert (xs + ys)[1..] == xs[1..] + ys;
    } else {
      assert (xs + ys)[1..] == ys;
    }
  }

  /** Every character of a joined text comes from a part or from the separator. */
  lemma {:induction false} JoinChars(parts: seq<string>, sep: string, c: char)
    requires c in Join(parts, sep)
    ensures c in sep || exists i :: 0 <= i < |parts| && c in parts[i]
  {
    if |parts| > 1 {
      if c !in parts[0] && c !in sep {
        JoinChars(parts[1..], sep, c);
        var i :| 0 <= i < |parts[1..]| && c in parts[1..][i];
        assert c in parts[i + 1];
      }
    }
  }

  /** Every character of a part is in the joined text. */
  lemma {:induction false} JoinHasParts(parts: seq<string>, sep: string, i: nat, c: char)
    requires i < |parts| && c in parts[i]
    ensures c in Join(parts, sep)
  {
    if i > 0 {
      JoinHasParts(parts[1..], sep, i - 1, c);
    }
  }

  /** Every part occurs in the joined text. */
  lemma {:induction false} JoinContainsPart(parts: seq<string>, sep: string, i: nat)
    requires i < |parts|
    ensures Contains(Join(parts, sep), parts[i])
  {
    var s := Join(parts, sep);
    if |parts| == 1 {
      assert OccursAt(s, parts[0], 0);
    } else if i == 0 {
      assert s[..|parts[0]|] == parts[0];
      assert OccursAt(s, parts[0], 0);
    } else {
      var rest := Join(parts[1..], sep);
      JoinContainsPart(parts[1..], sep, i - 1);
      assert s[|parts[0]| + |sep|..] == rest;
      assert OccursAt(s, rest, |parts[0]| + |sep|);
      ContainsTransitive(s, rest, parts[i]);
    }
  }

  /** The trimmed text occurs in the text. */
  lemma TrimContained(s: string, p: char -> bool)
    ensures Contains(s, Trim(s, p))
  {
    var a := RunLength(s, p);
    assert OccursAt(s, Trim(s, p), a);
  }

  /** The stripped text occurs in the text. */
  lemma PyStripContained(s: string)
    ensures Contains(s, PyStrip(s))
  {
    TrimContained(s, IsPySpace);
  }

  /** What `Trim` drops from either end satisfies `p`. */
  lemma TrimOutside(s: string, p: char -> bool)
    ensures forall i :: 0 <= i < RunLength(s, p) ==> p(s[i])
    ensures forall i :: RunLength(s, p) + |Trim(s, p)| <= i < |s| ==> p(s[i])
  {
    var a := RunLength(s, p);
    if a < |s| {
      assert |Trim(s, p)| == |s| - TrailLength(s, p) - a;
    }
  }

  /** Joining non-empty parts that contain no separator, with that separator, gives a
      text where the parts can be read back by splitting. */
  lemma {:induction false} SplitJoin(parts: seq<string>, sep: char)
    requires |parts| >= 1 && forall i :: 0 <= i < |parts| ==> sep !in parts[i]
    ensures Split(Join(parts, [sep]), sep) == parts
  {
    var s := Join(parts, [sep]);
    if |parts| > 1 {
      var rest := Join(parts[1..], [sep]);
      assert s == parts[0] + [sep] + rest;
      assert s[..|parts[0]|] == parts[0];
      assert sep in s by { assert s[|parts[0]|] == sep; }
      var i := IndexOfChar(s, sep);
      assert i == |parts[0]|;
      assert s[i + 1..] == rest;
      SplitJoin(parts[1..], sep);
    }
  }

  /** Parts with no two adjacent `p` characters, joined by a separator that is not `p`,
      have none either. */
  lemma {:induction false} JoinNoAdjacent(parts: seq<string>, sep: char, p: char -> bool)
    requires !p(sep) && forall i :: 0 <= i < |parts| ==> NoAdjacent(parts[i], p)
    ensures NoAdjacent(Join(parts, [sep]), p)
  {
    if |parts| > 1 {
      JoinNoAdjacent(parts[1..], sep, p);
      var head, rest := parts[0], Join(parts[1..], [sep]);
      var s := head + [sep] + rest;
      assert NoAdjacent(head, p);
      forall i | 0 <= i < |s| - 1 ensures !(p(s[i]) && p(s[i + 1])) {
        if i < |head| - 1 {
          assert s[i] == head[i] && s[i + 1] == head[i + 1];
        } else if i > |head| {
          assert s[i] == rest[i - |head| - 1] && s[i + 1] == rest[i - |head|];
        }
      }
    }
  }

  /** Parts that are all in a class, joined by a separator in the class, give a text in
      the class. */
  lemma {:induction false} JoinAll(parts: seq<string>, sep: string, p: char -> bool)
    requires All(sep, p) && forall i :: 0 <= i < |parts| ==> All(parts[i], p)
    ensures All(Join(parts, sep), p)
  {
    if |parts| > 1 {
      JoinAll(parts[1..], sep, p);
      var head, rest := parts[0], Join(parts[1..], sep);
      var s := head + sep + rest;
      assert All(head, p);
      forall i | 0 <= i < |s| ensures p(s[i]) {
        if i < |head| {
          assert s[i] == head[i];
        } else if i < |head| + |sep| {
          assert s[i] == sep[i - |head|];
        } else {
          assert s[i] == rest[i - |head| - |sep|];
        }
      }
    }
  }

  /** Each part of a joined text in a class is in the class. */
  lemma PartAll(parts: seq<string>, sep: string, p: char -> bool, k: nat)
    requires k < |parts| && All(Join(parts, sep), p)
    ensures All(parts[k], p)
  {
    forall i | 0 <= i < |parts[k]| ensures p(parts[k][i]) {
      JoinHasParts(parts, sep, k, parts[k][i]);
    }
  }

  /** Non-empty parts, each free of adjacent `p` characters and not starting or ending with
      one, joined by a one-character separator: no two `p` characters are adjacent,
      whatever the separator. */
  lemma {:induction false} JoinNoAdjacentAround(parts: seq<string>, sep: char, p: char -> bool)
    requires forall i :: 0 <= i < |parts| ==>
      |parts[i]| > 0 && IsTrimmed(parts[i], p) && NoAdjacent(parts[i], p)
    ensures NoAdjacent(Join(parts, [sep]), p)
  {
    if |parts| > 1 {
      JoinNoAdjacentAround(parts[1..], sep, p);
      var head, rest := parts[0], Join(parts[1..], [sep]);
      var s := head + [sep] + rest;
      assert |parts[1]| > 0 && IsTrimmed(parts[1], p);
      JoinTrimmed(parts[1..], [sep], p);
      assert NoAdjacent(head, p) && IsTrimmed(head, p);
      forall i | 0 <= i < |s| - 1 ensures !(p(s[i]) && p(s[i + 1])) {
        if i < |head| - 1 {
          assert s[i] == head[i] && s[i + 1] == head[i + 1];
        } else if i == |head| - 1 {
          assert s[i] == head[|head| - 1];
        } else if i == |head| {
          assert s[i + 1] == rest[0];
        } else {
          assert s[i] == rest[i - |head| - 1] && s[i + 1] == rest[i - |head|];
        }
      }
    }
  }

  /** Non-empty trimmed parts joined: the text is trimmed and opens with the first part's
      first character. */
  lemma {:induction false} JoinTrimmed(parts: seq<string>, sep: string, p: char -> bool)
    requires forall i :: 0 <= i < |parts| ==> |parts[i]| > 0 && IsTrimmed(parts[i], p)
    ensures IsTrimmed(Join(parts, sep), p)
    ensures |parts| > 0 ==> |Join(parts, sep)| > 0 && Join(parts, sep)[0] == parts[0][0]
  {
    if |parts| > 1 {
      JoinTrimmed(parts[1..], sep, p);
      var head, rest := parts[0], Join(parts[1..], sep);
      var s := head + sep + rest;
      assert s[0] == head[0];
      assert |parts[1]| > 0;
      assert s[|s| - 1] == rest[|rest| - 1];
    }
  }

  /** Non-empty parts without the separator, none starting with a `q` character, joined:
      no line of the text (a stretch after the start or a separator) starts with one. */
  lemma {:induction false} JoinStarts(parts: seq<string>, sep: char, q: char -> bool)
    requires forall i :: 0 <= i < |parts| ==> |parts[i]| > 0 && sep !in parts[i] && !q(parts[i][0])
    ensures forall i :: 0 <= i < |Join(parts, [sep])| && (i == 0 || Join(parts, [sep])[i - 1] == sep) ==>
      !q(Join(parts, [sep])[i])
  {
    if |parts| > 1 {
      JoinStarts(parts[1..], sep, q);
      var head, rest := parts[0], Join(parts[1..], [sep]);
      var s := head + [sep] + rest;
      assert Join(parts, [sep]) == s;
      assert |parts[1]| > 0;
      JoinTrimmed(parts[1..], [sep], IsNoChar);
      forall j | 0 <= j < |head| ensures s[j] != sep {
        assert s[j] == head[j] && head[j] in head;
      }
      forall i | 0 <= i < |s| && (i == 0 || s[i - 1] == sep) ensures !q(s[i]) {
        if i > |head| + 1 {
          assert s[i] == rest[i - |head| - 1] && s[i - 1] == rest[i - |head| - 2];
        } else if i == |head| + 1 {
          assert s[i] == rest[0];
        }
      }
    } else if |parts| == 1 {
      var s := Join(parts, [sep]);
      assert s == parts[0];
      forall j | 0 <= j < |s| ensures s[j] != sep {
        assert s[j] in parts[0];
      }
    }
  }

  /** The empty character class. */
  predicate IsNoChar(c: char) { false }

  /** `s.split(sep)` for a one-character separator (JavaScript and Python agree). */
  function Split(s: string, sep: char): (parts: seq<string>)
    ensures |parts| >= 1
    ensures forall i :: 0 <= i < |parts| ==> sep !in parts[i]
    ensures Join(parts, [sep]) == s
    decreases |s|
  {
    if sep !in s then [s]
    else
      var i := IndexOfChar(s, sep);
      var rest := Split(s[i + 1..], sep);
      assert s == s[..i] + [sep] + s[i + 1..];
      [s[..i]] + rest
  }

  // ---------------------------------------------------------------------
  // Decimal numbers
  // ---------------------------------------------------------------------

  /** Every character is an ASCII digit. */
  predicate AllAsciiDigits(s: string) {
    forall i :: 0 <= i < |s| ==> IsAsciiDigit(s[i])
  }

  /** Every character is a digit of `IsAnyDigit`. */
  predicate AllDigits(s: string) {
    forall i :: 0 <= i < |s| ==> IsAnyDigit(s[i])
  }

  /** A span of digits read as a group is a non-empty digit string. */
  lemma DigitSpan(s: string, d0: nat, d1: nat)
    requires d0 < d1 <= |s| && forall k :: d0 <= k < d1 ==> IsAnyDigit(s[k])
    ensures |s[d0..d1]| > 0 && AllDigits(s[d0..d1])
  {
    var g := s[d0..d1];
    assert forall k :: 0 <= k < |g| ==> g[k] == s[d0 + k];
  }

  /** The decimal value of a digit string (Python `int`, JavaScript `Number` on digits). */
  function DigitsValue(s: string): nat
    requires AllDigits(s)
  {
    if |s| == 0 then 0 else 10 * DigitsValue(s[..|s| - 1]) + DigitValue(s[|s| - 1])
  }

  /** The character of a digit value. */
  function DigitChar(d: nat): (c: char)
    requires d < 10
    ensures IsAsciiDigit(c) && DigitValue(c) == d
  {
    ('0' as int + d) as char
  }

  /** `String(n)` / `str(n)` for a natural number. */
  function NatToString(n: nat): (s: string)
    ensures |s| >= 1 && AllAsciiDigits(s)
    ensures |s| > 1 ==> s[0] != '0'
  {
    if n < 10 then [DigitChar(n)] else NatToString(n / 10) + [DigitChar(n % 10)]
  }

  lemma {:induction false} NatToStringValue(n: nat)
    ensures AllDigits(NatToString(n)) && DigitsValue(NatToString(n)) == n
  {
    var s := NatToString(n);
    if n >= 10 {
      NatToStringValue(n / 10);
      assert s[..|s| - 1] == NatToString(n / 10);
    }
  }

  /** Decimal rendering of an integer, with a leading `-` when negative. */
  function IntToString(i: int): (s: string)
    ensures |s| >= 1
  {
    if i < 0 then "-" + NatToString(-i) else NatToString(i)
  }
  // ---------------------------------------------------------------------
  // Facts about the run-collapsing replacement
  // ---------------------------------------------------------------------

  /** Every string contains itself. */
  lemma ContainsSelf(s: string)
    ensures Contains(s, s)
  {
    assert OccursAt(s, s, 0);
  }

  /** After `SquashRuns`, the only `p`-character left is `rep`. */
  lemma {:induction false} SquashRunsOnlyRep(s: string, p: char -> bool, rep: char)
    ensures forall i :: 0 <= i < |SquashRuns(s, p, rep)| && p(SquashRuns(s, p, rep)[i]) ==> SquashRuns(s, p, rep)[i] == rep
    decreases |s|
  {
    if |s| > 0 {
      if p(s[0]) {
        SquashRunsOnlyRep(s[RunLength(s, p)..], p, rep);
      } else {
        SquashRunsOnlyRep(s[1..], p, rep);
      }
    }
  }

  /** `SquashRuns` keeps a last character that is not in the class. */
  lemma {:induction false} SquashRunsLast(s: string, p: char -> bool, rep: char)
    requires |s| > 0 && !p(s[|s| - 1])
    ensures |SquashRuns(s, p, rep)| > 0 && SquashRuns(s, p, rep)[|SquashRuns(s, p, rep)| - 1] == s[|s| - 1]
    decreases |s|
  {
    var r := SquashRuns(s, p, rep);
    if p(s[0]) {
      var k := RunLength(s, p);
      assert k < |s|;
      SquashRunsLast(s[k..], p, rep);
    } else if |s| > 1 {
      SquashRunsLast(s[1..], p, rep);
    }
  }

  /** A string whose class characters are all `rep`, never two in a row, is left alone. */
  lemma {:induction false} SquashRunsFixed(s: string, p: char -> bool, rep: char)
    requires NoAdjacent(s, p)
    requires forall i :: 0 <= i < |s| && p(s[i]) ==> s[i] == rep
    ensures SquashRuns(s, p, rep) == s
    decreases |s|
  {
    if |s| > 0 {
      NoAdjacentSliceHelper(s, p, 1);
      if p(s[0]) {
        assert |s| > 1 ==> !p(s[1]);
        assert RunLength(s, p) == 1;
      }
      SquashRunsFixed(s[1..], p, rep);
      assert s == [s[0]] + s[1..];
    }
  }
}
