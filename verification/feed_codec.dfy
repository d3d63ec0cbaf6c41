/**
 * The `[[post:...]]` header a community post carries in front of its text
 * (src/screens/FeedScreen.js): `encodeStyledContent` packs the style, frame,
 * colour and scale into it and `parseStyledContent` reads them back, also
 * accepting the older `[[style:name]]` form.
 */
module FeedCodec {
  import opened Base
  import opened Chars
  import opened Strings
  import opened Feed

  // ---------------------------------------------------------------------
  // The marker /^\[\[(post|style):([^\]]+)\]\]\n?/i
  // ---------------------------------------------------------------------

  /** `[^\]]`. */
  predicate NotCloseBracket(c: char) { c != ']' }

  /** The two groups of a marker match and the whole text it matched. */
  datatype Marker = Marker(kind: string, packed: string, whole: string)

  /** `post|style` under the `i` flag. */
  predicate IsMarkerKind(kind: string) {
    LowerStr(kind) == "post" || LowerStr(kind) == "style"
  }

  /** The text of a marker with the given groups, with or without the newline after it. */
  function MarkerText(kind: string, packed: string, newline: bool): string {
    "[[" + kind + ":" + packed + "]]" + (if newline then "\n" else "")
  }

  /** A newline at `i`, which the optional `\n?` then takes. */
  predicate NewlineAt(text: string, i: nat) {
    i < |text| && text[i] == '\n'
  }

  /** The end of the kind group when `post` or `style`, in any case, starts at 2; 0
      otherwise. */
  function KindEnd(text: string): (k: nat)
    ensures k == 0 || ((k == 6 || k == 7) && k <= |text| && IsMarkerKind(text[2..k]))
  {
    if |text| >= 6 && LowerStr(text[2..6]) == "post" then 6
    else if |text| >= 7 && LowerStr(text[2..7]) == "style" then 7
    else 0
  }

  /** The end of the whole match, after `]]` at `q` and the newline after it if any. */
  function WholeEnd(text: string, q: nat): nat {
    if NewlineAt(text, q + 2) then q + 3 else q + 2
  }

  /** The match of the marker at the start of `text`, if any. The second group runs up
      to the first `]`, which must be the first of `]]`. */
  function MarkerAt(text: string): (r: Option<Marker>)
    ensures r.Some? ==> IsMarkerKind(r.value.kind) && |r.value.packed| > 0 && ']' !in r.value.packed
    ensures r.Some? ==> (r.value.whole <= text &&
      r.value.whole == MarkerText(r.value.kind, r.value.packed,
        NewlineAt(text, |MarkerText(r.value.kind, r.value.packed, false)|)))
  {
    if |text| < 2 || text[..2] != "[[" then None
    else
      var k := KindEnd(text);
      if k == 0 || k >= |text| || text[k] != ':' then None
      else
        var q := SkipWhile(text, k + 1, NotCloseBracket);
        if q == k + 1 || q + 1 >= |text| || text[q + 1] != ']' then None
        else
          MarkerShape(text, k, q);
          Some(Marker(text[2..k], text[k + 1..q], text[..WholeEnd(text, q)]))
  }

  /** The pieces `MarkerAt` cuts out make up a marker text. */
  lemma MarkerShape(text: string, k: nat, q: nat)
    requires 2 <= k < q && q + 1 < |text| && text[..2] == "[[" && text[k] == ':'
    requires text[q] == ']' && text[q + 1] == ']'
    requires forall i :: k + 1 <= i < q ==> NotCloseBracket(text[i])
    ensures var kind := text[2..k]; var packed := text[k + 1..q];
      ']' !in packed && |MarkerText(kind, packed, false)| == q + 2 &&
      text[..WholeEnd(text, q)] == MarkerText(kind, packed, NewlineAt(text, q + 2))
  {
    var kind := text[2..k];
    var packed := text[k + 1..q];
    assert forall i :: 0 <= i < |packed| ==> packed[i] == text[k + 1 + i];
    assert text[..q + 2] == MarkerText(kind, packed, false);
    if NewlineAt(text, q + 2) {
      assert text[..q + 3] == text[..q + 2] + "\n";
    }
  }

  /** The kind group starts at 2 and is recognised whatever its case. */
  lemma KindAt(kind: string, tail: string)
    requires IsMarkerKind(kind)
    ensures var t := "[[" + kind + tail;
      |t| >= 2 && t[..2] == "[[" && KindEnd(t) == 2 + |kind| && t[2..2 + |kind|] == kind
  {
    var t := "[[" + kind + tail;
    assert t[2..2 + |kind|] == kind;
    if LowerStr(kind) == "style" {
      assert t[2..7] == kind;
      assert LowerStr(t[2..6])[0] == Lower(kind[0]) == 's';
    }
  }

  /** The `packed` group ends at its first `]`. */
  lemma PackedEnds(text: string, from: nat, packed: string, tail: string)
    requires |packed| > 0 && ']' !in packed && from <= |text|
    requires text == text[..from] + packed + "]" + tail
    ensures SkipWhile(text, from, NotCloseBracket) == from + |packed|
  {
    assert forall i :: from <= i < from + |packed| ==> text[i] == packed[i - from];
    assert text[from + |packed|] == ']';
    SkipWhileEnds(text, from, from + |packed|, NotCloseBracket);
  }

  /** A marker in front of any text is found, with the newline after it when there is
      one. With the ensures of `MarkerAt` this pins the match down completely. */
  lemma MarkerOfPrefix(kind: string, packed: string, rest: string)
    requires IsMarkerKind(kind) && |packed| > 0 && ']' !in packed
    ensures MarkerAt(MarkerText(kind, packed, false) + rest) ==
      Some(Marker(kind, packed, MarkerText(kind, packed, NewlineAt(rest, 0))))
  {
    var text := MarkerText(kind, packed, false) + rest;
    var k := 2 + |kind|;
    var q := k + 1 + |packed|;
    MarkerLayout(kind, packed, rest);
    MarkerAtFound(text, k, q);
    MarkerShape(text, k, q);
  }

  /** Where the parts of a marker in front of a text sit. */
  lemma MarkerLayout(kind: string, packed: string, rest: string)
    requires IsMarkerKind(kind) && |packed| > 0 && ']' !in packed
    ensures var text := MarkerText(kind, packed, false) + rest;
      var k := 2 + |kind|; var q := k + 1 + |packed|;
      q + 1 < |text| && text[..2] == "[[" && KindEnd(text) == k && text[k] == ':' &&
      SkipWhile(text, k + 1, NotCloseBracket) == q && text[q + 1] == ']' &&
      text[2..k] == kind && text[k + 1..q] == packed && NewlineAt(text, q + 2) == NewlineAt(rest, 0)
  {
    var text := MarkerText(kind, packed, false) + rest;
    var tail := ":" + packed + "]]" + rest;
    assert text == "[[" + kind + tail;
    KindAt(kind, tail);
    PackedLayout(text, 2 + |kind|, packed, rest);
  }

  /** Where the `packed` group and the closing brackets sit after the colon at `k`. */
  lemma PackedLayout(text: string, k: nat, packed: string, rest: string)
    requires |packed| > 0 && ']' !in packed && k < |text|
    requires text[k..] == ":" + packed + "]]" + rest
    ensures var q := k + 1 + |packed|;
      q + 1 < |text| && text[k] == ':' && SkipWhile(text, k + 1, NotCloseBracket) == q &&
      text[q + 1] == ']' && text[k + 1..q] == packed && NewlineAt(text, q + 2) == NewlineAt(rest, 0)
  {
    var t := text[k..];
    var q := k + 1 + |packed|;
    assert text[k] == t[0] == ':';
    assert text == text[..k + 1] + packed + "]" + ("]" + rest) by {
      assert t == [':'] + packed + "]" + ("]" + rest);
      assert text == text[..k] + t;
    }
    PackedEnds(text, k + 1, packed, "]" + rest);
    assert text[q + 1] == t[q + 1 - k] == ']';
    assert text[k + 1..q] == t[1..1 + |packed|] == packed;
    assert text[q + 2..] == t[q + 2 - k..] == rest;
  }

  /** The checks of `MarkerAt` passing, it returns the groups they delimit. */
  lemma MarkerAtFound(text: string, k: nat, q: nat)
    requires k + 1 < q && q + 1 < |text| && text[..2] == "[[" && KindEnd(text) == k && text[k] == ':'
    requires SkipWhile(text, k + 1, NotCloseBracket) == q && text[q + 1] == ']'
    ensures MarkerAt(text) == Some(Marker(text[2..k], text[k + 1..q], text[..WholeEnd(text, q)]))
  {
  }

  // ---------------------------------------------------------------------
  // The chunks of the `packed` group
  // ---------------------------------------------------------------------

  /** `[;|]`. */
  predicate IsChunkSep(c: char) { c == ';' || c == '|' }

  predicate NotChunkSep(c: char) { !IsChunkSep(c) }

  /** `packed.split(/[;|]/)`. */
  function SplitChunks(s: string): (parts: seq<string>)
    ensures |parts| >= 1
    ensures forall i :: 0 <= i < |parts| ==> forall c :: c in parts[i] ==> !IsChunkSep(c)
    decreases |s|
  {
    var i := SkipWhile(s, 0, NotChunkSep);
    assert forall c :: c in s[..i] ==> !IsChunkSep(c);
    if i == |s| then [s] else [s[..i]] + SplitChunks(s[i + 1..])
  }

  /** Splitting parts joined by `;` gives the parts back when none holds a separator. */
  lemma {:induction false} SplitChunksJoin(parts: seq<string>)
    requires |parts| >= 1 && forall i :: 0 <= i < |parts| ==> forall c :: c in parts[i] ==> !IsChunkSep(c)
    ensures SplitChunks(Join(parts, ";")) == parts
  {
    var s := Join(parts, ";");
    if |parts| == 1 {
      SkipWhileEnds(s, 0, |s|, NotChunkSep);
    } else {
      SplitChunksJoin(parts[1..]);
      SplitFirstChunk(parts[0], Join(parts[1..], ";"));
    }
  }

  /** A first chunk without a separator, then `;`, splits off in front of the rest. */
  lemma SplitFirstChunk(p: string, rest: string)
    requires forall c :: c in p ==> !IsChunkSep(c)
    ensures SplitChunks(p + ";" + rest) == [p] + SplitChunks(rest)
  {
    var s := p + ";" + rest;
    assert forall i :: 0 <= i < |p| ==> s[i] == p[i] && s[i] in p;
    SkipWhileEnds(s, 0, |p|, NotChunkSep);
    assert s[..|p|] == p && s[|p| + 1..] == rest;
  }

  /** `.map((x) => x.trim()).filter(Boolean)`. */
  function TrimNonEmpty(parts: seq<string>): (r: seq<string>)
    ensures |r| <= |parts|
    ensures forall i :: 0 <= i < |r| ==> r[i] != "" && IsTrimmed(r[i], IsJsSpace)
  {
    if |parts| == 0 then []
    else
      var c := JsTrim(parts[0]);
      (if c == "" then [] else [c]) + TrimNonEmpty(parts[1..])
  }

  /** Parts that are already trimmed and non-empty are kept as they are. */
  lemma {:induction false} TrimNonEmptyKeeps(parts: seq<string>)
    requires forall i :: 0 <= i < |parts| ==> parts[i] != "" && IsTrimmed(parts[i], IsJsSpace)
    ensures TrimNonEmpty(parts) == parts
  {
    if |parts| > 0 {
      TrimNonEmptyKeeps(parts[1..]);
    }
  }

  /** The chunks of a packed group. */
  function Chunks(packed: string): seq<string> {
    TrimNonEmpty(SplitChunks(packed))
  }

  // ---------------------------------------------------------------------
  // Applying the chunks
  // ---------------------------------------------------------------------

  /** The key of a chunk: the text before its first `=`, trimmed and lower-cased. */
  function KeyOf(chunk: string): string
    requires '=' in chunk
  {
    LowerStr(JsTrim(chunk[..IndexOfChar(chunk, '=')]))
  }

  /** The value of a chunk: the text after its first `=`, trimmed. */
  function ValueOf(chunk: string): string
    requires '=' in chunk
  {
    JsTrim(chunk[IndexOfChar(chunk, '=') + 1..])
  }

  /** `const [rawK, ...rest] = chunk.split('=')` with the key trimmed and lower-cased and
      `rest.join('=')` trimmed are the key and the value of the chunk. */
  lemma KeyValueIsSplitJoin(chunk: string)
    requires '=' in chunk
    ensures var parts := Split(chunk, '=');
      LowerStr(JsTrim(parts[0])) == KeyOf(chunk) && JsTrim(Join(parts[1..], "=")) == ValueOf(chunk)
  {
    var i := IndexOfChar(chunk, '=');
    assert Split(chunk, '=') == [chunk[..i]] + Split(chunk[i + 1..], '=');
  }

  /** A `key=value` chunk: a blank value or an unknown key changes nothing. */
  function SetField(meta: PostMeta, key: string, value: string): (r: PostMeta)
    ensures r.textColor != meta.textColor ==> IsStoredColor(r.textColor)
    ensures r.textScale != meta.textScale ==> 0.45 <= r.textScale <= 1.6
    ensures r == meta || r == meta.(styleKey := r.styleKey) || r == meta.(frameKey := r.frameKey) ||
      r == meta.(textColor := r.textColor) || r == meta.(textScale := r.textScale)
  {
    if value == "" then meta
    else if key == "style" then meta.(styleKey := LowerStr(value))
    else if key == "frame" then meta.(frameKey := LowerStr(value))
    else if key == "color" then meta.(textColor := NormalizeHexColor(value))
    else if key == "scale" then meta.(textScale := ClampScale(NumberOf(value)))
    else meta
  }

  /** One turn of the loop over the chunks. A chunk without `=` names the style, but only
      while the style is blank or still the default. */
  function ApplyChunk(meta: PostMeta, chunk: string): (r: PostMeta)
    ensures r.textColor != meta.textColor ==> IsStoredColor(r.textColor)
    ensures r.textScale != meta.textScale ==> 0.45 <= r.textScale <= 1.6
    ensures r == meta || r == meta.(styleKey := r.styleKey) || r == meta.(frameKey := r.frameKey) ||
      r == meta.(textColor := r.textColor) || r == meta.(textScale := r.textScale)
  {
    if '=' !in chunk then
      if meta.styleKey == "" || meta.styleKey == DefaultMeta.styleKey then meta.(styleKey := LowerStr(chunk))
      else meta
    else
      SetField(meta, KeyOf(chunk), ValueOf(chunk))
  }

  /** The loop over the chunks, in order. */
  function ApplyChunks(meta: PostMeta, chunks: seq<string>): (r: PostMeta)
    ensures IsStoredColor(meta.textColor) ==> IsStoredColor(r.textColor)
    ensures 0.45 <= meta.textScale <= 1.6 ==> 0.45 <= r.textScale <= 1.6
    decreases |chunks|
  {
    if |chunks| == 0 then meta else ApplyChunks(ApplyChunk(meta, chunks[0]), chunks[1..])
  }

  /** The four `key=` prefixes the feed writes. */
  predicate IsMetaName(name: string) {
    name == "style=" || name == "frame=" || name == "color=" || name == "scale="
  }

  /** The first `c` found where it first occurs. */
  lemma {:induction false} IndexOfCharAt(s: string, c: char, i: nat)
    requires i < |s| && s[i] == c && c !in s[..i]
    ensures IndexOfChar(s, c) == i
  {
    if i > 0 {
      assert s[0] in s[..i];
      assert s[1..][..i - 1] == s[..i][1..];
      IndexOfCharAt(s[1..], c, i - 1);
    }
  }

  /** A chunk `key=value` with a meta key splits into the key and the value. */
  lemma AssignmentOfPair(name: string, value: string)
    requires IsMetaName(name) && IsTrimmed(value, IsJsSpace)
    ensures '=' in name + value && KeyOf(name + value) == name[..5] && ValueOf(name + value) == value
  {
    var chunk := name + value;
    var key := name[..5];
    assert chunk[..5] == key && chunk[5] == '=' && chunk[6..] == value;
    IndexOfCharAt(chunk, '=', 5);
    assert IsTrimmed(key, IsJsSpace) && LowerStr(key) == key;
  }

  /** A `key=value` chunk with a meta key sets that field to the value. */
  lemma ApplyAssignment(meta: PostMeta, name: string, value: string)
    requires IsMetaName(name) && IsTrimmed(value, IsJsSpace)
    ensures ApplyChunk(meta, name + value) == SetField(meta, name[..5], value)
  {
    AssignmentOfPair(name, value);
  }

  /** A known key with a value sets its field. */
  lemma SetKnownField(meta: PostMeta, key: string, value: string)
    requires value != ""
    ensures key == "style" ==> SetField(meta, key, value) == meta.(styleKey := LowerStr(value))
    ensures key == "frame" ==> SetField(meta, key, value) == meta.(frameKey := LowerStr(value))
    ensures key == "color" ==> SetField(meta, key, value) == meta.(textColor := NormalizeHexColor(value))
    ensures key == "scale" ==> SetField(meta, key, value) == meta.(textScale := ClampScale(NumberOf(value)))
  {
    KeysDistinct();
  }

  /** `style=value` sets the style to the value lower-cased. */
  lemma ApplyStyle(meta: PostMeta, value: string)
    requires value != "" && IsTrimmed(value, IsJsSpace)
    ensures ApplyChunk(meta, "style=" + value) == meta.(styleKey := LowerStr(value))
  {
    ApplyAssignment(meta, "style=", value);
    assert "style="[..5] == "style";
    SetKnownField(meta, "style", value);
  }

  /** `frame=value` sets the frame to the value lower-cased. */
  lemma ApplyFrame(meta: PostMeta, value: string)
    requires value != "" && IsTrimmed(value, IsJsSpace)
    ensures ApplyChunk(meta, "frame=" + value) == meta.(frameKey := LowerStr(value))
  {
    ApplyAssignment(meta, "frame=", value);
    assert "frame="[..5] == "frame";
    SetKnownField(meta, "frame", value);
  }

  /** `color=value` sets the colour to the value normalised. */
  lemma ApplyColor(meta: PostMeta, value: string)
    requires value != "" && IsTrimmed(value, IsJsSpace)
    ensures ApplyChunk(meta, "color=" + value) == meta.(textColor := NormalizeHexColor(value))
  {
    ApplyAssignment(meta, "color=", value);
    assert "color="[..5] == "color";
    SetKnownField(meta, "color", value);
  }

  /** `scale=value` sets the scale to the value read as a number and clamped. */
  lemma ApplyScale(meta: PostMeta, value: string)
    requires value != "" && IsTrimmed(value, IsJsSpace)
    ensures ApplyChunk(meta, "scale=" + value) == meta.(textScale := ClampScale(NumberOf(value)))
  {
    ApplyAssignment(meta, "scale=", value);
    assert "scale="[..5] == "scale";
    SetKnownField(meta, "scale", value);
  }

  /** The four keys differ. */
  lemma KeysDistinct()
    ensures "scale" != "style" && "scale" != "frame" && "scale" != "color"
    ensures "color" != "style" && "color" != "frame" && "frame" != "style"
  {
    assert "scale"[1] != "style"[1] && "scale"[0] != "frame"[0] && "scale"[0] != "color"[0];
    assert "color"[0] != "style"[0] && "color"[0] != "frame"[0] && "frame"[0] != "style"[0];
  }

  // ---------------------------------------------------------------------
  // parseStyledContent
  // ---------------------------------------------------------------------

  /** What `parseStyledContent` returns: the meta and the text of the post. */
  datatype Styled = Styled(meta: PostMeta, text: string)

  /** `/[=;|]/.test(packed)`. */
  predicate HasAssignment(packed: string) {
    '=' in packed || ';' in packed || '|' in packed
  }

  /** `parseStyledContent(raw)`, the empty string standing for a missing post: without a
      marker, the defaults and the whole text; with one, the text after the marker and
      the meta it packs. A `style` marker without `=`, `;` or `|` names the style alone
      (lower-cased, `serif` when blank); any other marker is read chunk by chunk. */
  function ParseStyledContent(raw: string): (r: Styled)
    ensures IsStoredColor(r.meta.textColor) && 0.45 <= r.meta.textScale <= 1.6
    ensures MarkerAt(raw).None? ==> r == Styled(DefaultMeta, raw)
  {
    Styled(ParsedMeta(raw), ParsedText(raw))
  }

  /** The text part of `parseStyledContent`: `text.replace(match[0], '')`, and the whole
      text when there is no marker. */
  function ParsedText(raw: string): (r: string)
    ensures MarkerAt(raw).None? ==> r == raw
    ensures MarkerAt(raw).Some? ==> raw == MarkerAt(raw).value.whole + r
  {
    match MarkerAt(raw)
    case None => raw
    case Some(m) =>
      ReplacePrefix(raw, m.whole);
      ReplaceFirst(raw, m.whole, "")
  }

  /** Replacing a prefix by nothing leaves the rest. */
  lemma ReplacePrefix(s: string, pat: string)
    requires pat <= s
    ensures s == pat + ReplaceFirst(s, pat, "")
  {
    var r := ReplaceFirst(s, pat, "");
    assert r == "" + s[|pat|..];
    assert "" + s[|pat|..] == s[|pat|..];
  }

  /** The meta part of `parseStyledContent`. */
  function ParsedMeta(raw: string): (r: PostMeta)
    ensures IsStoredColor(r.textColor) && 0.45 <= r.textScale <= 1.6
    ensures MarkerAt(raw).None? ==> r == DefaultMeta
  {
    DefaultMetaStored();
    match MarkerAt(raw)
    case None => DefaultMeta
    case Some(m) => MarkerMeta(m)
  }

  /** The meta a marker packs. */
  function MarkerMeta(m: Marker): (r: PostMeta)
    ensures IsStoredColor(r.textColor) && 0.45 <= r.textScale <= 1.6
  {
    DefaultMetaStored();
    var markerType := LowerStr(m.kind);
    var packed := JsTrim(m.packed);
    if markerType == "style" && !HasAssignment(packed) then
      var style := LowerStr(packed);
      DefaultMeta.(styleKey := if style == "" then DefaultMeta.styleKey else style)
    else
      ApplyChunks(DefaultMeta, Chunks(packed))
  }

  lemma DefaultMetaStored()
    ensures IsStoredColor(DefaultMeta.textColor) && 0.45 <= DefaultMeta.textScale <= 1.6
  {
  }

  /** A text that does not start with a marker is shown as it is, in the default look. */
  lemma ParseUnmarked(raw: string)
    requires !("[[" <= raw)
    ensures ParseStyledContent(raw) == Styled(DefaultMeta, raw)
  {
    if |raw| >= 2 {
      assert raw[..2] != "[[";
    }
  }

  /** The older `[[style:name]]` marker names the style, lower-cased, and nothing else. */
  lemma ParseLegacyStyle(kind: string, name: string, rest: string)
    requires LowerStr(kind) == "style" && name != "" && IsTrimmed(name, IsJsSpace)
    requires ']' !in name && !HasAssignment(name)
    ensures ParseStyledContent(MarkerText(kind, name, false) + rest) ==
      Styled(DefaultMeta.(styleKey := LowerStr(name)), if NewlineAt(rest, 0) then rest[1..] else rest)
  {
    var raw := MarkerText(kind, name, false) + rest;
    var t := if NewlineAt(rest, 0) then rest[1..] else rest;
    var whole := MarkerText(kind, name, NewlineAt(rest, 0));
    MarkerOfPrefix(kind, name, rest);
    LegacyMarkerMeta(kind, name, whole);
    MarkerTextSplit(kind, name, rest);
    ParseStyledOfMarker(raw, Marker(kind, name, whole), t);
  }

  /** The newline after a marker belongs to the marker's whole match. */
  lemma MarkerTextSplit(kind: string, packed: string, rest: string)
    ensures MarkerText(kind, packed, false) + rest ==
      MarkerText(kind, packed, NewlineAt(rest, 0)) + (if NewlineAt(rest, 0) then rest[1..] else rest)
  {
    if NewlineAt(rest, 0) {
      assert rest == "\n" + rest[1..];
    }
  }

  /** A text that opens with a marker parses to the marker's meta and what follows it. */
  lemma ParseStyledOfMarker(raw: string, m: Marker, t: string)
    requires MarkerAt(raw) == Some(m) && raw == m.whole + t
    ensures ParseStyledContent(raw) == Styled(MarkerMeta(m), t)
  {
    PrefixCancel(m.whole, ParsedText(raw), t);
  }

  /** A `style` marker without an assignment names the style and nothing else. */
  lemma LegacyMarkerMeta(kind: string, name: string, whole: string)
    requires LowerStr(kind) == "style" && name != "" && IsTrimmed(name, IsJsSpace)
    requires !HasAssignment(name)
    ensures MarkerMeta(Marker(kind, name, whole)) == DefaultMeta.(styleKey := LowerStr(name))
  {
  }

  /** The same prefix in front of two texts leaves them equal only when they are. */
  lemma PrefixCancel(w: string, a: string, b: string)
    requires w + a == w + b
    ensures a == b
  {
    assert a == (w + a)[|w|..];
    assert b == (w + b)[|w|..];
  }

  // ---------------------------------------------------------------------
  // encodeStyledContent
  // ---------------------------------------------------------------------

  /** The meta handed to `encodeStyledContent`: the empty string stands for a missing
      or blank key or colour, `None` for a scale `Number` reads as NaN. */
  datatype MetaInput = MetaInput(styleKey: string, frameKey: string, textColor: string, textScale: Option<real>)

  /** The `safeMeta` of `encodeStyledContent`: defaults for missing keys, keys
      lower-cased, the colour normalised and the scale clamped. */
  function SafeMeta(m: MetaInput): (r: PostMeta)
    ensures IsStoredColor(r.textColor) && 0.45 <= r.textScale <= 1.6
    ensures r.styleKey != "" && r.frameKey != ""
    ensures m.styleKey != "" ==> r.styleKey == LowerStr(m.styleKey)
    ensures m.frameKey != "" ==> r.frameKey == LowerStr(m.frameKey)
  {
    PostMeta(
      LowerStr(if m.styleKey == "" then DefaultMeta.styleKey else m.styleKey),
      LowerStr(if m.frameKey == "" then DefaultMeta.frameKey else m.frameKey),
      NormalizeHexColor(m.textColor),
      ClampScale(m.textScale))
  }

  /** The chunks `encodeStyledContent` packs, in order. */
  function PackedChunks(s: PostMeta): (r: seq<string>)
    requires s.textScale >= 0.0
    ensures |r| == 4
  {
    ["style=" + s.styleKey, "frame=" + s.frameKey, "color=" + s.textColor, "scale=" + Fixed2(s.textScale)]
  }

  /** `encodeStyledContent(meta, text)`: a `post` marker with the `packed` chunks joined by
      `;`, a newline, then the text. */
  function EncodeStyledContent(m: MetaInput, text: string): (r: string)
    ensures "[[post:" <= r && |r| > |text| && r[|r| - |text|..] == text
  {
    var packed := Join(PackedChunks(SafeMeta(m)), ";");
    PostMarkerShape(packed, text);
    MarkerText("post", packed, true) + text
  }

  /** A `post` marker put in front of a text starts the result and leaves the text at
      its end. */
  lemma PostMarkerShape(packed: string, text: string)
    ensures var r := MarkerText("post", packed, true) + text;
      "[[post:" <= r && |r| > |text| && r[|r| - |text|..] == text
  {
    var w := MarkerText("post", packed, true);
    assert w == "[[post:" + (packed + "]]\n");
    var r := w + text;
    assert r[..7] == "[[post:";
    assert r[|w|..] == text;
  }

  // ---------------------------------------------------------------------
  // The round trip
  // ---------------------------------------------------------------------

  /** A key the encoder can write and the parser reads back: no blanks at either end, no
      `]` (it would end the marker) and no `;` or `|` (they would split the chunk). */
  predicate SafeKey(k: string) {
    IsTrimmed(k, IsJsSpace) && forall i :: 0 <= i < |k| ==> k[i] != ']' && !IsChunkSep(k[i])
  }

  /** Lower-casing keeps a key safe. */
  lemma LowerSafeKey(k: string)
    requires SafeKey(k)
    ensures SafeKey(LowerStr(k))
  {
    var l := LowerStr(k);
    if |k| > 0 {
      assert l[0] == Lower(k[0]) && l[|l| - 1] == Lower(k[|k| - 1]);
    }
  }

  /** A key of lower-case letters and digits is safe. */
  lemma AlnumKeySafe(k: string)
    requires forall i :: 0 <= i < |k| ==> IsAsciiLower(k[i]) || IsAsciiDigit(k[i])
    ensures SafeKey(k) && LowerStr(k) == k
  {
  }

  /** The keys of `POST_STYLES`. */
  const PostStyleKeys: seq<string> :=
    ["serif", "mono", "quote", "classic", "cursive", "poster", "airy", "neon", "caps", "minimal"]

  /** Every style of `POST_STYLES` is a safe key. */
  lemma StyleKeysSafe(i: nat)
    requires i < |PostStyleKeys|
    ensures SafeKey(PostStyleKeys[i])
  {
    var k := PostStyleKeys[i];
    assert forall j :: 0 <= j < |k| ==> IsAsciiLower(k[j]);
    AlnumKeySafe(k);
  }

  /** Every frame of `FRAME_OPTIONS` is a safe key. */
  lemma FrameKeysSafe(k: string)
    requires IsFrameKey(k)
    ensures SafeKey(k)
  {
    if k != "plain" {
      assert forall i :: 0 <= i < 5 ==> k[i] == "frame"[i];
      assert forall i :: 5 <= i < 8 ==> k[5..][i - 5] == k[i];
    }
    AlnumKeySafe(k);
  }

  /** The scale read back from its text, which is already inside the clamp. */
  lemma ScaleReadsBack(x: real)
    requires 0.45 <= x <= 1.6
    ensures ClampScale(NumberOf(Fixed2(x))) == Rounded2(x)
  {
    Fixed2ReadsBack(x);
    var k := Hundredths(x);
    assert 45 <= k <= 160;
  }

  /** The characters of a scale's text. */
  lemma Fixed2Chars(x: real)
    requires x >= 0.0
    ensures var f := Fixed2(x); |f| > 0 && IsAsciiDigit(f[|f| - 1]) && forall c :: c in f ==> c == '.' || IsAsciiDigit(c)
  {
    var f := Fixed2(x);
    var k := Hundredths(x);
    var h := k % 100;
    var a := NatToString(k / 100);
    var d := [DigitChar(h / 10), DigitChar(h % 10)];
    assert f == a + "." + d;
    forall c | c in f ensures c == '.' || IsAsciiDigit(c) {
      var i :| 0 <= i < |f| && f[i] == c;
      if i < |a| { assert f[i] == a[i]; } else if i > |a| { assert f[i] == d[i - |a| - 1]; }
    }
  }

  /** A chunk `name=value` with a safe non-empty value. */
  predicate SafeChunk(chunk: string) {
    chunk != "" && IsTrimmed(chunk, IsJsSpace) && forall c :: c in chunk ==> c != ']' && !IsChunkSep(c)
  }

  /** `name=` in front of a safe non-empty value makes a safe chunk. */
  lemma PairSafe(name: string, value: string)
    requires |name| == 6 && forall i :: 0 <= i < 6 ==> IsAsciiLower(name[i]) || name[i] == '='
    requires SafeKey(value) && value != ""
    ensures SafeChunk(name + value)
  {
    var chunk := name + value;
    assert chunk[0] == name[0] && chunk[|chunk| - 1] == value[|value| - 1];
    forall c | c in chunk ensures c != ']' && !IsChunkSep(c) {
      var j :| 0 <= j < |chunk| && chunk[j] == c;
      if j >= 6 { assert c == value[j - 6]; } else { assert c == name[j]; }
    }
  }

  /** The meta `encodeStyledContent` writes, with safe keys. */
  predicate SafeStored(s: PostMeta) {
    SafeKey(s.styleKey) && SafeKey(s.frameKey) && s.styleKey != "" && s.frameKey != "" &&
    LowerStr(s.styleKey) == s.styleKey && LowerStr(s.frameKey) == s.frameKey &&
    IsStoredColor(s.textColor) && 0.45 <= s.textScale <= 1.6
  }

  /** A stored colour is a safe value. */
  lemma StoredColorSafe(c: string)
    requires IsStoredColor(c)
    ensures SafeKey(c) && c != ""
  {
    assert forall i :: 1 <= i < 7 ==> IsHexDigit(c[i]);
  }

  /** A scale's text is a safe value. */
  lemma Fixed2Safe(x: real)
    requires x >= 0.0
    ensures SafeKey(Fixed2(x)) && Fixed2(x) != ""
  {
    var f := Fixed2(x);
    Fixed2Chars(x);
    assert forall i :: 0 <= i < |f| ==> f[i] in f;
  }

  /** Each chunk of a safe meta is safe. */
  lemma PackedChunksSafe(s: PostMeta)
    requires SafeStored(s)
    ensures forall i :: 0 <= i < 4 ==> SafeChunk(PackedChunks(s)[i])
  {
    var parts := PackedChunks(s);
    StoredColorSafe(s.textColor);
    Fixed2Safe(s.textScale);
    PairSafe("style=", s.styleKey);
    PairSafe("frame=", s.frameKey);
    PairSafe("color=", s.textColor);
    PairSafe("scale=", Fixed2(s.textScale));
    assert parts == ["style=" + s.styleKey, "frame=" + s.frameKey, "color=" + s.textColor, "scale=" + Fixed2(s.textScale)];
  }

  /** The four chunks, applied to the defaults, give back the meta, with the scale
      rounded to hundredths. */
  lemma ApplyPackedChunks(s: PostMeta)
    requires SafeStored(s)
    ensures ApplyChunks(DefaultMeta, PackedChunks(s)) == s.(textScale := Rounded2(s.textScale))
  {
    var f := Fixed2(s.textScale);
    var a, b, c, d := "style=" + s.styleKey, "frame=" + s.frameKey, "color=" + s.textColor, "scale=" + f;
    assert PackedChunks(s) == [a, b, c, d];
    ApplyFour(DefaultMeta, a, b, c, d);
    var m2 := DefaultMeta.(styleKey := s.styleKey, frameKey := s.frameKey);
    ApplyKeys(s);
    ApplyLook(s, m2);
  }

  /** The style and frame chunks set the style and the frame. */
  lemma ApplyKeys(s: PostMeta)
    requires SafeStored(s)
    ensures ApplyChunk(ApplyChunk(DefaultMeta, "style=" + s.styleKey), "frame=" + s.frameKey) ==
      DefaultMeta.(styleKey := s.styleKey, frameKey := s.frameKey)
  {
    ApplyStyle(DefaultMeta, s.styleKey);
    ApplyFrame(DefaultMeta.(styleKey := s.styleKey), s.frameKey);
  }

  /** The colour and scale chunks set the colour and the rounded scale. */
  lemma ApplyLook(s: PostMeta, m: PostMeta)
    requires SafeStored(s)
    ensures ApplyChunk(ApplyChunk(m, "color=" + s.textColor), "scale=" + Fixed2(s.textScale)) ==
      m.(textColor := s.textColor, textScale := Rounded2(s.textScale))
  {
    StoredColorSafe(s.textColor);
    ApplyColor(m, s.textColor);
    NormalizeHexColorFixes(s.textColor);
    Fixed2Safe(s.textScale);
    ApplyScale(m.(textColor := s.textColor), Fixed2(s.textScale));
    ScaleReadsBack(s.textScale);
  }

  /** Four chunks are applied one after the other. */
  lemma ApplyFour(meta: PostMeta, a: string, b: string, c: string, d: string)
    ensures ApplyChunks(meta, [a, b, c, d]) == ApplyChunk(ApplyChunk(ApplyChunk(ApplyChunk(meta, a), b), c), d)
  {
    var parts := [a, b, c, d];
    var m1 := ApplyChunk(meta, a);
    var m2 := ApplyChunk(m1, b);
    var m3 := ApplyChunk(m2, c);
    var m4 := ApplyChunk(m3, d);
    assert parts[1..] == [b, c, d] && parts[1..][1..] == [c, d] && parts[1..][1..][1..] == [d];
    assert ApplyChunks(m4, []) == m4;
    assert ApplyChunks(m3, [d]) == m4;
    assert ApplyChunks(m2, [c, d]) == m4;
    assert ApplyChunks(m1, [b, c, d]) == m4;
  }

  /** The `packed` group of an encoded meta is trimmed and split back into its chunks. */
  lemma PackedSplits(s: PostMeta)
    requires SafeStored(s)
    ensures var packed := Join(PackedChunks(s), ";");
      packed != "" && ']' !in packed && JsTrim(packed) == packed && Chunks(packed) == PackedChunks(s)
  {
    var parts := PackedChunks(s);
    PackedChunksSafe(s);
    PackedTrimmed(parts);
    SplitChunksJoin(parts);
    TrimNonEmptyKeeps(parts);
  }

  /** Four safe chunks joined by `;` make a trimmed text without `]`. */
  lemma PackedTrimmed(parts: seq<string>)
    requires |parts| == 4 && forall i :: 0 <= i < 4 ==> SafeChunk(parts[i])
    ensures var packed := Join(parts, ";");
      packed != "" && ']' !in packed && JsTrim(packed) == packed
  {
    var packed := Join(parts, ";");
    JoinFour(parts);
    assert packed[0] == parts[0][0] && packed[|packed| - 1] == parts[3][|parts[3]| - 1];
  }

  /** Four parts joined by `;`. */
  lemma JoinFour(parts: seq<string>)
    requires |parts| == 4
    ensures Join(parts, ";") == parts[0] + ";" + parts[1] + ";" + parts[2] + ";" + parts[3]
  {
    var j2 := Join(parts[2..], ";");
    assert Join(parts[3..], ";") == parts[3];
    assert j2 == parts[2] + ";" + parts[3];
    assert Join(parts[1..], ";") == parts[1] + ";" + j2;
  }

  /** A `post` marker is read chunk by chunk and the text after it is kept. */
  lemma ParsePostMarker(packed: string, text: string)
    requires packed != "" && ']' !in packed && JsTrim(packed) == packed
    ensures ParseStyledContent(MarkerText("post", packed, true) + text) ==
      Styled(ApplyChunks(DefaultMeta, Chunks(packed)), text)
  {
    MarkerOfPrefix("post", packed, "\n" + text);
    assert MarkerText("post", packed, true) + text == MarkerText("post", packed, false) + ("\n" + text);
  }

  /** The meta the encoder writes for safe keys is safe. */
  lemma SafeMetaStored(m: MetaInput)
    requires SafeKey(m.styleKey) && SafeKey(m.frameKey)
    ensures SafeStored(SafeMeta(m))
  {
    var style := if m.styleKey == "" then DefaultMeta.styleKey else m.styleKey;
    var frame := if m.frameKey == "" then DefaultMeta.frameKey else m.frameKey;
    AlnumKeySafe(DefaultMeta.styleKey);
    AlnumKeySafe(DefaultMeta.frameKey);
    LowerSafeKey(style);
    LowerSafeKey(frame);
    LowerStrIdempotent(style);
    LowerStrIdempotent(frame);
  }

  /** Parsing what the feed encodes gives back the text and the meta, with the scale
      rounded to hundredths, provided the style and frame keys are safe. */
  lemma RoundTrip(m: MetaInput, text: string)
    requires SafeKey(m.styleKey) && SafeKey(m.frameKey)
    ensures ParseStyledContent(EncodeStyledContent(m, text)) ==
      Styled(SafeMeta(m).(textScale := Rounded2(SafeMeta(m).textScale)), text)
  {
    var s := SafeMeta(m);
    SafeMetaStored(m);
    PackedSplits(s);
    ParsePostMarker(Join(PackedChunks(s), ";"), text);
    ApplyPackedChunks(s);
  }

  /** Posts composed from the option lists come back with their style, frame, colour and
      text. */
  lemma RoundTripOfOptions(i: nat, frame: string, color: string, scale: Option<real>, text: string)
    requires i < |PostStyleKeys| && IsFrameKey(frame)
    ensures var m := MetaInput(PostStyleKeys[i], frame, color, scale);
      var r := ParseStyledContent(EncodeStyledContent(m, text));
      r.text == text && r.meta.styleKey == PostStyleKeys[i] && r.meta.frameKey == frame &&
      r.meta.textColor == NormalizeHexColor(color)
  {
    var m := MetaInput(PostStyleKeys[i], frame, color, scale);
    OptionKeysKept(i, frame);
    RoundTrip(m, text);
    assert SafeMeta(m).styleKey == PostStyleKeys[i] && SafeMeta(m).frameKey == frame;
  }

  /** The keys of the option lists are safe and already lower-case. */
  lemma OptionKeysKept(i: nat, frame: string)
    requires i < |PostStyleKeys| && IsFrameKey(frame)
    ensures SafeKey(PostStyleKeys[i]) && SafeKey(frame)
    ensures PostStyleKeys[i] != "" && frame != ""
    ensures LowerStr(PostStyleKeys[i]) == PostStyleKeys[i] && LowerStr(frame) == frame
  {
    StyleKeysSafe(i);
    FrameKeysSafe(frame);
    var k := PostStyleKeys[i];
    assert forall j :: 0 <= j < |k| ==> IsAsciiLower(k[j]);
    AlnumKeySafe(k);
    FrameKeyPlain(frame);
    assert forall j :: 0 <= j < |frame| ==> Lower(frame[j]) == frame[j] by {
      if frame != "plain" {
        assert forall j :: 0 <= j < 5 ==> frame[j] == "frame"[j];
        assert forall j :: 5 <= j < 8 ==> frame[5..][j - 5] == frame[j];
      }
    }
  }

  /** The meta encoded for a style key `a]b`. */
  lemma SafeMetaBracket()
    ensures SafeMeta(MetaInput("a]b", "", "", None)).styleKey == "a]b"
  {
    assert LowerStr("a]b") == "a]b";
  }

  /** The `packed` group starts with the style chunk. */
  lemma PackedStart(s: PostMeta)
    requires s.textScale >= 0.0
    ensures Join(PackedChunks(s), ";") == "style=" + s.styleKey + ";" + Join(PackedChunks(s)[1..], ";")
  {
  }

  /** The encoding of a style key `a]b`. */
  lemma EncodedBracket(text: string)
    ensures var raw := EncodeStyledContent(MetaInput("a]b", "", "", None), text);
      |raw| >= 16 && raw[..16] == "[[post:style=a]b"
  {
    var m := MetaInput("a]b", "", "", None);
    var packed := Join(PackedChunks(SafeMeta(m)), ";");
    PackedOfBracket();
    EncodedPrefix(packed, text, 9);
    assert EncodeStyledContent(m, text) == MarkerText("post", packed, true) + text;
    BracketHead();
  }

  /** The head of that encoding, spelled out. */
  lemma BracketHead()
    ensures "[[post:" + "style=a]b" == "[[post:style=a]b"
  {
  }

  /** The `packed` group for a style key `a]b` starts with its style chunk. */
  lemma PackedOfBracket()
    ensures var packed := Join(PackedChunks(SafeMeta(MetaInput("a]b", "", "", None))), ";");
      |packed| >= 9 && packed[..9] == "style=a]b"
  {
    var s := SafeMeta(MetaInput("a]b", "", "", None));
    SafeMetaBracket();
    PackedStart(s);
    var packed := Join(PackedChunks(s), ";");
    assert packed[..9] == "style=a]b";
  }

  /** The encoding starts with `[[post:` and the `packed` group. */
  lemma EncodedPrefix(packed: string, text: string, n: nat)
    requires n <= |packed|
    ensures var raw := MarkerText("post", packed, true) + text;
      |raw| >= 7 + n && raw[..7 + n] == "[[post:" + packed[..n]
  {
  }

  /** The marker cannot be read when `]` follows `style=a`. */
  lemma BracketMarkerNone(raw: string)
    requires |raw| >= 16 && raw[..16] == "[[post:style=a]b"
    ensures MarkerAt(raw).None?
  {
    var head := raw[..16];
    assert raw[2..6] == head[2..6] == "post";
    assert raw[6] == ':' && raw[14] == ']' && raw[15] == 'b';
    assert forall i :: 7 <= i < 14 ==> raw[i] == head[i] != ']';
    assert KindEnd(raw) == 6;
    SkipWhileEnds(raw, 7, 14, NotCloseBracket);
  }

  /** A style key holding `]` ends the marker early: the post then shows its header as
      text. */
  lemma BracketInKeyBreaksText(text: string)
    ensures ParseStyledContent(EncodeStyledContent(MetaInput("a]b", "", "", None), text)).text != text
  {
    var raw := EncodeStyledContent(MetaInput("a]b", "", "", None), text);
    EncodedBracket(text);
    BracketMarkerNone(raw);
  }
}
