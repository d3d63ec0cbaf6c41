/**
 * The commentary re-flow of the offline normaliser (scripts/admin_sync.py):
 * `normalize_tafseer_flow`, which glues the wrapped lines of a Telegram post
 * back into paragraphs, and `_append_unique_tafseer`, which combines the
 * commentaries of two parses of one verse.
 */
module SyncFlow {
  import opened Base
  import opened Chars
  import opened Strings
  import opened PyText
  import ParserText

  /** The two patterns of `normalize_tafseer_flow` built from emoji classes, Unicode
      digits, word boundaries and case folding, given as tests on a stripped line:
      `bullet_start.match(line)` and `continuation_marker.search(line)`. */
  datatype FlowRules = FlowRules(bulletStart: string -> bool, continuation: string -> bool)

  /** `[.!?۔؟:;]`: the marks that may follow a closing bracket. */
  predicate IsEndMark(c: char) {
    c == '.' || c == '!' || c == '?' || c == '\U{06D4}' || c == '\U{061F}' || c == ':' || c == ';'
  }

  /** `[\)\]\}]` */
  predicate IsCloser(c: char) { c == ')' || c == ']' || c == '}' }

  /** `sentence_end.search(prev)` on a line without line feeds: it ends with a mark of
      `[.!?۔؟:;*]`, or with a closing bracket, possibly followed by one mark. */
  predicate SentenceEnd(s: string) {
    |s| > 0 &&
    (IsEndMark(s[|s| - 1]) || s[|s| - 1] == '*' || IsCloser(s[|s| - 1]) ||
     (|s| >= 2 && IsCloser(s[|s| - 2]) && IsEndMark(s[|s| - 1])))
  }

  /** `protected_line.match(line)` on a stripped line: it starts with 📖 or 📚, or with
      `{` and has a `}` later, or starts with `[` or `(` and ends, after at least one more
      character, with `]` or `)`. */
  predicate ProtectedLine(line: string) {
    |line| > 0 &&
    (line[0] == '\U{1F4D6}' || line[0] == '\U{1F4DA}' ||
     (line[0] == '{' && '}' in line[1..]) ||
     ((line[0] == '[' || line[0] == '(') && |line| >= 2 && (line[|line| - 1] == ']' || line[|line| - 1] == ')')))
  }

  /** The loop state: the finished paragraphs and the one pending paragraph, if any (the
      list `current` never holds more than one element). */
  datatype Flow = Flow(paragraphs: seq<string>, current: Option<string>)

  /** `flush_current()`: the pending paragraph, stripped, joins the finished ones. */
  function Flush(f: Flow): Flow {
    match f.current
    case None => f
    case Some(p) => Flow(f.paragraphs + [PyStrip(p)], None)
  }

  /** A line is kept when, stripped, it is neither blank nor a continuation marker. */
  predicate Kept(rules: FlowRules, line: string) {
    line != "" && !rules.continuation(line)
  }

  /** One pass of the loop over a raw line. A blank line or a continuation marker closes
      the pending paragraph and is dropped. Otherwise the stripped line opens a paragraph
      when there is none, when it starts a bullet or a protected line, or when the pending
      paragraph ends a sentence; else it is glued to the pending paragraph with a space. */
  function Step(rules: FlowRules, f: Flow, raw: string): Flow {
    var line := PyStrip(raw);
    if !Kept(rules, line) then Flush(f)
    else if f.current.None? then Flow(f.paragraphs, Some(line))
    else
      var prev := PyStrip(f.current.value);
      if rules.bulletStart(line) || ProtectedLine(line) || SentenceEnd(prev) then
        Flow(Flush(f).paragraphs, Some(line))
      else
        Flow(f.paragraphs, Some(PyStrip(prev + " " + line)))
  }

  /** The loop over the raw lines. */
  function FlowLines(rules: FlowRules, raws: seq<string>): Flow {
    if |raws| == 0 then Flow([], None)
    else Step(rules, FlowLines(rules, raws[..|raws| - 1]), raws[|raws| - 1])
  }

  /** `[line.rstrip() for line in text.split("\n")]`. */
  function RawLines(text: string): (raws: seq<string>)
    ensures |raws| == |Split(text, '\n')|
    ensures forall i :: 0 <= i < |raws| ==> raws[i] == PyRStrip(Split(text, '\n')[i])
  {
    var parts := Split(text, '\n');
    seq(|parts|, i requires 0 <= i < |parts| => PyRStrip(parts[i]))
  }

  /** The paragraphs `normalize_tafseer_flow` builds from a cleaned text. */
  function Paragraphs(rules: FlowRules, text: string): seq<string> {
    Flush(FlowLines(rules, RawLines(text))).paragraphs
  }

  /** `normalize_tafseer_flow(value)`: the cleaned text re-flowed into paragraphs, joined
      by blank lines and cleaned once more. */
  function NormalizeTafseerFlow(rules: FlowRules, value: string): (r: string)
    ensures IsCleanText(r)
  {
    var text := CleanText(value);
    if text == "" then "" else CleanText(Join(Paragraphs(rules, text), "\n\n"))
  }

  // ---------------------------------------------------------------------
  // Facts about the re-flow
  // ---------------------------------------------------------------------

  /** A paragraph: a non-empty stripped single line. */
  predicate IsParagraph(p: string) {
    p != "" && '\n' !in p && '\r' !in p && IsTrimmed(p, IsPySpace)
  }

  /** The finished paragraphs and the pending one. */
  function Pieces(f: Flow): seq<string> {
    f.paragraphs + (if f.current.Some? then [f.current.value] else [])
  }

  /** The kept lines, stripped, in order. */
  function KeptLines(rules: FlowRules, raws: seq<string>): (r: seq<string>)
    ensures |r| <= |raws|
  {
    if |raws| == 0 then []
    else
      var line := PyStrip(raws[|raws| - 1]);
      KeptLines(rules, raws[..|raws| - 1]) + (if Kept(rules, line) then [line] else [])
  }

  /** Joining non-empty parts gives the empty text only for no parts. */
  lemma {:induction false} JoinEmpty(parts: seq<string>, sep: string)
    requires forall i :: 0 <= i < |parts| ==> parts[i] != ""
    ensures Join(parts, sep) == "" <==> |parts| == 0
  {
    if |parts| > 1 {
      assert |Join(parts, sep)| >= |parts[0]|;
    }
  }

  /** Gluing a line onto the pending paragraph keeps the space-joined text. */
  lemma GlueJoin(ps: seq<string>, prev: string, line: string)
    ensures Join(ps + [prev + " " + line], " ") == Join(ps + [prev] + [line], " ")
  {
    JoinSnoc(ps, " ", prev + " " + line);
    JoinSnoc(ps + [prev], " ", line);
    JoinSnoc(ps, " ", prev);
  }

  /** The loop invariant: every piece is a paragraph, every kept line is non-empty, and
      the pieces joined by spaces are the kept lines joined by spaces. */
  predicate Inv(f: Flow, kept: seq<string>) {
    (forall i :: 0 <= i < |Pieces(f)| ==> IsParagraph(Pieces(f)[i])) &&
    (forall i :: 0 <= i < |kept| ==> kept[i] != "") &&
    Join(Pieces(f), " ") == Join(kept, " ")
  }

  /** The state after any prefix keeps the invariant with the kept lines of that prefix. */
  lemma {:induction false} FlowInvariant(rules: FlowRules, raws: seq<string>)
    requires forall i :: 0 <= i < |raws| ==> '\n' !in raws[i] && '\r' !in raws[i]
    ensures Inv(FlowLines(rules, raws), KeptLines(rules, raws))
  {
    if |raws| > 0 {
      var n := |raws| - 1;
      FlowInvariant(rules, raws[..n]);
      StepInvariant(rules, FlowLines(rules, raws[..n]), KeptLines(rules, raws[..n]), raws[n]);
    }
  }

  /** Flushing changes no piece. */
  lemma FlushPieces(f: Flow)
    requires forall i :: 0 <= i < |Pieces(f)| ==> IsParagraph(Pieces(f)[i])
    ensures Pieces(Flush(f)) == Pieces(f) && Flush(f).paragraphs == Pieces(f)
  {
    if f.current.Some? {
      assert IsParagraph(Pieces(f)[|Pieces(f)| - 1]);
    }
  }

  /** A new piece for a new kept line keeps the invariant. */
  lemma InvAppend(f: Flow, kept: seq<string>, line: string, g: Flow)
    requires Inv(f, kept) && IsParagraph(line) && Pieces(g) == Pieces(f) + [line]
    ensures Inv(g, kept + [line])
  {
    var ps := Pieces(f);
    JoinEmpty(ps, " ");
    JoinEmpty(kept, " ");
    JoinSnoc(ps, " ", line);
    JoinSnoc(kept, " ", line);
  }

  /** Gluing a kept line onto the pending piece keeps the invariant. */
  lemma InvGlue(f: Flow, kept: seq<string>, line: string, g: Flow)
    requires Inv(f, kept) && IsParagraph(line) && f.current.Some?
    requires IsParagraph(f.current.value + " " + line)
    requires Pieces(g) == f.paragraphs + [f.current.value + " " + line]
    ensures Inv(g, kept + [line])
  {
    var prev := f.current.value;
    var ps := Pieces(f);
    assert ps == f.paragraphs + [prev];
    GlueJoin(f.paragraphs, prev, line);
    assert ps + [line] == f.paragraphs + [prev] + [line];
    JoinEmpty(ps, " ");
    JoinEmpty(kept, " ");
    JoinSnoc(ps, " ", line);
    JoinSnoc(kept, " ", line);
    forall i | 0 <= i < |Pieces(g)| ensures IsParagraph(Pieces(g)[i]) {
      if i < |f.paragraphs| {
        assert Pieces(g)[i] == ps[i];
      }
    }
  }

  /** One step keeps the invariant. */
  lemma StepInvariant(rules: FlowRules, f: Flow, kept: seq<string>, raw: string)
    requires '\n' !in raw && '\r' !in raw && Inv(f, kept)
    ensures var line := PyStrip(raw);
      Inv(Step(rules, f, raw), kept + (if Kept(rules, line) then [line] else []))
  {
    var line := PyStrip(raw);
    var g := Step(rules, f, raw);
    FlushPieces(f);
    if !Kept(rules, line) {
      assert kept + [] == kept;
    } else {
      assert IsParagraph(line);
      if f.current.None? {
        InvAppend(f, kept, line, g);
      } else {
        var prev := f.current.value;
        assert prev == Pieces(f)[|Pieces(f)| - 1];
        assert PyStrip(prev) == prev;
        if rules.bulletStart(line) || ProtectedLine(line) || SentenceEnd(prev) {
          InvAppend(f, kept, line, g);
        } else {
          GlueParagraph(prev, line);
          InvGlue(f, kept, line, g);
        }
      }
    }
  }

  /** Two paragraphs glued with a space make a paragraph that stripping leaves alone. */
  lemma GlueParagraph(prev: string, line: string)
    requires IsParagraph(prev) && IsParagraph(line)
    ensures IsParagraph(prev + " " + line) && PyStrip(prev + " " + line) == prev + " " + line
  {
    var glued := prev + " " + line;
    assert IsTrimmed(glued, IsPySpace);
    assert '\n' !in glued && '\r' !in glued;
  }

  /** Lines that strip to the same text keep the same lines. */
  lemma {:induction false} KeptLinesSameStrip(rules: FlowRules, xs: seq<string>, ys: seq<string>)
    requires |xs| == |ys| && forall i :: 0 <= i < |xs| ==> PyStrip(xs[i]) == PyStrip(ys[i])
    ensures KeptLines(rules, xs) == KeptLines(rules, ys)
  {
    if |xs| > 0 {
      var n := |xs| - 1;
      KeptLinesSameStrip(rules, xs[..n], ys[..n]);
    }
  }

  /** `rstrip` before `strip` changes no stripped line. */
  lemma KeptLinesRStrip(rules: FlowRules, text: string, n: nat)
    requires n <= |Split(text, '\n')|
    ensures KeptLines(rules, RawLines(text)[..n]) == KeptLines(rules, Split(text, '\n')[..n])
  {
    var xs, ys := RawLines(text)[..n], Split(text, '\n')[..n];
    forall i | 0 <= i < n ensures PyStrip(xs[i]) == PyStrip(ys[i]) {
      StripAfterRStrip(ys[i]);
    }
    KeptLinesSameStrip(rules, xs, ys);
  }

  /** The raw lines of a text without carriage returns are single lines without them. */
  lemma RawLinesSingle(text: string)
    requires '\r' !in text
    ensures forall i :: 0 <= i < |RawLines(text)| ==> '\n' !in RawLines(text)[i] && '\r' !in RawLines(text)[i]
  {
    var parts := Split(text, '\n');
    forall i | 0 <= i < |parts| ensures '\n' !in PyRStrip(parts[i]) && '\r' !in PyRStrip(parts[i]) {
      LineChars(parts, i);
    }
  }

  lemma LineChars(parts: seq<string>, i: nat)
    requires i < |parts| && '\r' !in Join(parts, "\n") && '\n' !in parts[i]
    ensures '\n' !in PyRStrip(parts[i]) && '\r' !in PyRStrip(parts[i])
  {
    var p := parts[i];
    var r := PyRStrip(p);
    assert r == p[..|r|];
    assert forall c :: c in r ==> c in p;
    forall c | c in p ensures c != '\r' {
      JoinHasParts(parts, "\n", i, c);
    }
  }

  /** The re-flow only regroups lines: each paragraph is a non-empty stripped single line,
      and the paragraphs joined by spaces are the text's stripped lines, without the blank
      lines and the continuation markers, joined by spaces. */
  lemma ParagraphsKeepLines(rules: FlowRules, text: string)
    requires '\r' !in text
    ensures forall i :: 0 <= i < |Paragraphs(rules, text)| ==> IsParagraph(Paragraphs(rules, text)[i])
    ensures Join(Paragraphs(rules, text), " ") == Join(KeptLines(rules, Split(text, '\n')), " ")
  {
    var parts := Split(text, '\n');
    var raws := RawLines(text);
    RawLinesSingle(text);
    FlowInvariant(rules, raws);
    FlushPieces(FlowLines(rules, raws));
    KeptLinesRStrip(rules, text, |parts|);
    assert raws[..|parts|] == raws && parts[..|parts|] == parts;
  }

  /** Two texts without three line feeds in a row, neither of which ends (resp. starts)
      with a line feed, joined by a blank line, have none either. */
  lemma ConcatBlankLine(a: string, b: string)
    requires a != "" && b != "" && a[|a| - 1] != '\n' && b[0] != '\n'
    requires ParserText.NoTripleNewline(a) && ParserText.NoTripleNewline(b)
    ensures ParserText.NoTripleNewline(a + "\n\n" + b)
  {
    var s := a + "\n\n" + b;
    var h := |a|;
    forall i | 0 <= i < |s| - 2 ensures !(s[i] == '\n' && s[i + 1] == '\n' && s[i + 2] == '\n') {
      if i + 2 < h {
        assert s[i] == a[i] && s[i + 1] == a[i + 1] && s[i + 2] == a[i + 2];
      } else if i < h {
        assert s[h - 1] == a[h - 1];
      } else if i <= h + 1 {
        assert s[h + 2] == b[0];
      } else {
        assert s[i] == b[i - h - 2] && s[i + 1] == b[i - h - 1] && s[i + 2] == b[i - h];
      }
    }
  }

  /** Non-empty single-line parts joined by a blank line never have three line feeds in
      a row. */
  lemma {:induction false} JoinParagraphsNoTriple(parts: seq<string>)
    requires forall i :: 0 <= i < |parts| ==> parts[i] != "" && '\n' !in parts[i]
    ensures ParserText.NoTripleNewline(Join(parts, "\n\n"))
    ensures |parts| > 0 ==> Join(parts, "\n\n")[0] == parts[0][0]
  {
    if |parts| > 1 {
      JoinParagraphsNoTriple(parts[1..]);
      var head, rest := parts[0], Join(parts[1..], "\n\n");
      assert rest[0] == parts[1][0] && rest[0] != '\n' by {
        assert parts[1][0] in parts[1];
      }
      assert head[|head| - 1] in head;
      assert forall i :: 0 <= i < |head| ==> head[i] in head;
      ConcatBlankLine(head, rest);
    }
  }

  /** A character other than a carriage return. */
  predicate NotCR(c: char) { c != '\r' }

  /** Paragraphs joined by blank lines are already clean. */
  lemma JoinParagraphsClean(parts: seq<string>)
    requires forall i :: 0 <= i < |parts| ==> IsParagraph(parts[i])
    ensures IsCleanText(Join(parts, "\n\n"))
  {
    JoinParagraphsNoTriple(parts);
    JoinTrimmed(parts, "\n\n", IsPySpace);
    forall i | 0 <= i < |parts| ensures All(parts[i], NotCR) {
      assert forall j :: 0 <= j < |parts[i]| ==> parts[i][j] in parts[i];
    }
    JoinAll(parts, "\n\n", NotCR);
    var s := Join(parts, "\n\n");
    assert '\r' !in s by {
      assert forall j :: 0 <= j < |s| ==> NotCR(s[j]);
    }
  }

  /** The final `clean_text` of `normalize_tafseer_flow` changes nothing: the result is the
      paragraphs joined by blank lines, and its non-blank lines are the paragraphs. */
  lemma NormalizeTafseerFlowIsJoin(rules: FlowRules, value: string)
    ensures NormalizeTafseerFlow(rules, value) == Join(Paragraphs(rules, CleanText(value)), "\n\n")
    ensures forall i :: 0 <= i < |Paragraphs(rules, CleanText(value))| ==> IsParagraph(Paragraphs(rules, CleanText(value))[i])
  {
    var text := CleanText(value);
    var ps := Paragraphs(rules, text);
    ParagraphsKeepLines(rules, text);
    if text == "" {
      ParagraphsOfEmpty(rules);
    } else {
      JoinParagraphsClean(ps);
      CleanTextFixes(Join(ps, "\n\n"));
    }
  }

  /** An empty text has no paragraphs. */
  lemma ParagraphsOfEmpty(rules: FlowRules)
    ensures Paragraphs(rules, "") == []
  {
    assert Split("", '\n') == [""];
    assert RawLines("") == [""];
    assert FlowLines(rules, RawLines("")) == Step(rules, Flow([], None), "");
  }

  /** `normalize_tafseer_flow` keeps every kept line of the cleaned text, in order: joined
      by spaces, its paragraphs are the kept lines joined by spaces. */
  lemma NormalizeTafseerFlowKeepsLines(rules: FlowRules, value: string)
    ensures Join(Paragraphs(rules, CleanText(value)), " ") == Join(KeptLines(rules, Split(CleanText(value), '\n')), " ")
  {
    ParagraphsKeepLines(rules, CleanText(value));
  }

  // ---------------------------------------------------------------------
  // _append_unique_tafseer
  // ---------------------------------------------------------------------

  /** `_append_unique_tafseer(existing, new, same_source)`: both commentaries re-flowed,
      then the choice `_pick_richer_text` also makes; when neither comparison form contains
      the other, a duplicate parse of the same post keeps the longer commentary and
      different posts get both bodies joined by a blank line and re-flowed. */
  function AppendUniqueTafseer(rules: FlowRules, existing: string, incoming: string, sameSource: bool): (r: string)
    ensures var a, b := NormalizeTafseerFlow(rules, existing), NormalizeTafseerFlow(rules, incoming);
      (sameSource ==> r == a || r == b) &&
      (a == "" ==> r == b) && (b == "" ==> r == a) &&
      (a != "" && b != "" && Nested(a, b) ==> (r == a || r == b) && Covers(r, a) && Covers(r, b)) &&
      (a != "" && b != "" && !Nested(a, b) && sameSource ==> r == Longer(a, b)) &&
      (a != "" && b != "" && !Nested(a, b) && !sameSource ==> r == NormalizeTafseerFlow(rules, a + "\n\n" + b))
  {
    var a, b := NormalizeTafseerFlow(rules, existing), NormalizeTafseerFlow(rules, incoming);
    match ChooseRicher(a, b)
    case Some(x) => x
    case None => if sameSource then Longer(a, b) else NormalizeTafseerFlow(rules, a + "\n\n" + b)
  }

  /** Two clean non-empty texts joined by a blank line are clean. */
  lemma ConcatClean(a: string, b: string)
    requires IsCleanText(a) && IsCleanText(b) && a != "" && b != ""
    ensures IsCleanText(a + "\n\n" + b)
  {
    ConcatBlankLine(a, b);
  }

  /** Splitting texts joined by a blank line gives the lines of the first, an empty line
      and the lines of the second. */
  lemma SplitBlankLine(a: string, b: string)
    ensures Split(a + "\n\n" + b, '\n') == Split(a, '\n') + [""] + Split(b, '\n')
  {
    var pa, pb := Split(a, '\n'), Split(b, '\n');
    JoinAppend(pa, [""], "\n");
    JoinAppend(pa + [""], pb, "\n");
    var parts := pa + [""] + pb;
    assert Join(parts, "\n") == a + "\n\n" + b;
    forall i | 0 <= i < |parts| ensures '\n' !in parts[i] {
      if i < |pa| {
        assert parts[i] == pa[i];
      } else if i > |pa| {
        assert parts[i] == pb[i - |pa| - 1];
      }
    }
    SplitJoin(parts, '\n');
  }

  /** The kept lines of two line lists are the kept lines of each, in order. */
  lemma {:induction false} KeptLinesAppend(rules: FlowRules, xs: seq<string>, ys: seq<string>)
    ensures KeptLines(rules, xs + ys) == KeptLines(rules, xs) + KeptLines(rules, ys)
  {
    if |ys| > 0 {
      var n := |ys| - 1;
      KeptLinesAppend(rules, xs, ys[..n]);
      assert (xs + ys)[..|xs + ys| - 1] == xs + ys[..n];
    } else {
      assert xs + ys == xs;
    }
  }

  /** When `_append_unique_tafseer` joins two commentaries, nothing of either is lost: the
      result's paragraphs, joined by spaces, are the kept lines of the first commentary
      followed by those of the second. */
  lemma AppendUniqueKeepsBoth(rules: FlowRules, existing: string, incoming: string)
    requires var a, b := NormalizeTafseerFlow(rules, existing), NormalizeTafseerFlow(rules, incoming);
      a != "" && b != "" && !Nested(a, b)
    ensures var a, b := NormalizeTafseerFlow(rules, existing), NormalizeTafseerFlow(rules, incoming);
      var r := AppendUniqueTafseer(rules, existing, incoming, false);
      r == Join(Paragraphs(rules, a + "\n\n" + b), "\n\n") &&
      Join(Paragraphs(rules, a + "\n\n" + b), " ") ==
        Join(KeptLines(rules, Split(a, '\n')) + KeptLines(rules, Split(b, '\n')), " ")
  {
    var a, b := NormalizeTafseerFlow(rules, existing), NormalizeTafseerFlow(rules, incoming);
    var c := a + "\n\n" + b;
    ConcatClean(a, b);
    CleanTextFixes(c);
    NormalizeTafseerFlowIsJoin(rules, c);
    ParagraphsKeepLines(rules, c);
    KeptLinesBlankLine(rules, a, b);
  }

  /** The kept lines of two texts joined by a blank line are those of each, in order. */
  lemma KeptLinesBlankLine(rules: FlowRules, a: string, b: string)
    ensures KeptLines(rules, Split(a + "\n\n" + b, '\n')) == KeptLines(rules, Split(a, '\n')) + KeptLines(rules, Split(b, '\n'))
  {
    var pa, pb := Split(a, '\n'), Split(b, '\n');
    SplitBlankLine(a, b);
    KeptLinesAppend(rules, pa + [""], pb);
    KeptLinesAppend(rules, pa, [""]);
    KeptLinesBlank(rules);
    assert KeptLines(rules, pa) + [] == KeptLines(rules, pa);
  }

  lemma KeptLinesBlank(rules: FlowRules)
    ensures KeptLines(rules, [""]) == []
  {
    assert [""][..0] == [];
  }
}
