/**
 * `parseTelegramPost`: a whole post becomes verse rows. The header gives the
 * surah (and juz), the markers split the post into blocks, each block gives
 * one row per ayah of its label, and the rows are normalised and deduplicated.
 */
module ParserPost {
  import opened Base
  import opened Chars
  import opened Strings
  import opened Seqs
  import opened Sorting
  import opened Assoc
  import opened JsValues
  import opened ParserText
  import opened ParserHeader
  import opened ParserMarkers
  import opened ParserBlocks
  import opened ParserRows

  /** `header.surahName || \`Surah ${n}\``. */
  function SurahNameOr(header: Header, n: nat): string {
    if header.surahName != "" then header.surahName else "Surah " + NatToString(n)
  }

  /** `header.juzNumber || null`: a juz of 0 counts as missing. */
  function JuzValue(juz: Option<nat>): (v: JsValue) {
    match juz
    case Some(j) => if j != 0 then Num(Int(j)) else Null
    case None => Null
  }

  /** The row stored for one block row: the record `parseTelegramPost` builds, through
      `normalizeIncomingRow`. */
  function PostRow(n: nat, header: Header, row: BlockRow, sourcePostId: JsValue): Row {
    NormalizeFields(Num(Int(n)), Str(SurahNameOr(header, n)), JuzValue(header.juzNumber),
      Num(Int(row.ayahNumber)), Str(row.arabicText), Str(row.translation), Str(row.tafseer),
      Or(sourcePostId, Null))
  }

  /** The default surah name is already clean. */
  lemma DefaultNameClean(n: nat)
    ensures CleanContent("Surah " + NatToString(n)) == "Surah " + NatToString(n)
  {
    var ds := NatToString(n);
    var s := "Surah " + ds;
    assert forall i :: 6 <= i < |s| ==> s[i] == ds[i - 6];
    assert forall i :: 0 <= i < |s| ==> s[i] != '\n' && s[i] != '\r';
    assert '\r' !in s;
    CleanContentFixesClean(s);
  }

  /** A stored row sits at the header's surah and the block row's ayah. */
  lemma PostRowPosition(n: nat, header: Header, row: BlockRow, sourcePostId: JsValue)
    ensures Pos(PostRow(n, header, row, sourcePostId)) == (Int(n), Int(row.ayahNumber))
  {
  }

  /** A stored row keeps the surah name (or the default one) and the block row's
      translation and commentary as they are, and the Arabic text normalised once more. */
  lemma PostRowText(n: nat, header: Header, row: BlockRow, sourcePostId: JsValue)
    requires IsCleanContent(header.surahName)
    requires IsCleanContent(row.translation) && IsCleanContent(row.tafseer)
    ensures var r := PostRow(n, header, row, sourcePostId);
      r.surahName == SurahNameOr(header, n) && r.arabicText == NormalizeArabicText(row.arabicText) &&
      r.translation == row.translation && r.tafseer == row.tafseer
  {
    var r := PostRow(n, header, row, sourcePostId);
    assert TextOf(Str(row.arabicText)) == row.arabicText;
    assert TextOf(Str(row.translation)) == row.translation;
    assert TextOf(Str(row.tafseer)) == row.tafseer;
    assert TextOf(Str(SurahNameOr(header, n))) == SurahNameOr(header, n);
    assert r.arabicText == NormalizeArabicText(row.arabicText);
    if header.surahName != "" {
      CleanContentFixesClean(header.surahName);
    } else {
      DefaultNameClean(n);
    }
    CleanContentFixesClean(row.translation);
    CleanContentFixesClean(row.tafseer);
  }

  /** A stored row has the header's juz unless it is missing or 0, and the post id when
      one was given. */
  lemma PostRowMeta(n: nat, header: Header, row: BlockRow, sourcePostId: JsValue)
    ensures var r := PostRow(n, header, row, sourcePostId);
      r.juzNumber == (if header.juzNumber.Some? && header.juzNumber.value != 0 then Some(header.juzNumber.value as int) else None) &&
      r.sourcePostId == (if Truthy(sourcePostId) then Some(ToNumber(sourcePostId)) else None)
  {
    JuzValueInt(header.juzNumber);
    SourceValue(sourcePostId);
  }

  lemma JuzValueInt(juz: Option<nat>)
    ensures OptionalInt(JuzValue(juz)) == if juz.Some? && juz.value != 0 then Some(juz.value as int) else None
  {
    match juz
    case Some(j) =>
      if j != 0 {
        assert JuzValue(juz) == Num(Int(j));
      } else {
        assert JuzValue(juz) == Null;
      }
    case None =>
  }

  lemma SourceValue(v: JsValue)
    ensures OptionalNumber(Or(v, Null)) == if Truthy(v) then Some(ToNumber(v)) else None
  {
    if Truthy(v) {
      assert Or(v, Null) == v;
    } else {
      assert Or(v, Null) == Null;
    }
  }

  /** `parseBlock` as a function value over blocks. */
  function ParseBlockOf(): Block -> seq<BlockRow> {
    (b: Block) => ParseBlock(b.marker, b.body)
  }

  /** The rows of every block, block after block. */
  function BlockRowsOf(blocks: seq<Block>): seq<BlockRow> {
    FlatMap(blocks, ParseBlockOf())
  }

  /** A block row comes from some block, whose label's range contains its ayah; its texts
      are clean. */
  lemma BlockRowsOfOrigin(blocks: seq<Block>, i: nat)
    requires i < |BlockRowsOf(blocks)|
    ensures exists b :: 0 <= b < |blocks| && BlockRowsOf(blocks)[i].ayahNumber in ParseAyahRange(blocks[b].marker)
    ensures IsCleanContent(BlockRowsOf(blocks)[i].translation) && IsCleanContent(BlockRowsOf(blocks)[i].tafseer)
  {
    FlatMapOrigin(blocks, ParseBlockOf(), i);
    var b, k :| 0 <= b < |blocks| && 0 <= k < |ParseBlockOf()(blocks[b])| &&
      BlockRowsOf(blocks)[i] == ParseBlockOf()(blocks[b])[k];
    var rows := ParseBlock(blocks[b].marker, blocks[b].body);
    assert rows[k].ayahNumber == ParseAyahRange(blocks[b].marker)[k];
  }

  /** Every ayah of every block label has a block row. */
  lemma BlockRowsOfCover(blocks: seq<Block>, b: nat, a: nat)
    requires b < |blocks| && a in ParseAyahRange(blocks[b].marker)
    ensures exists i :: 0 <= i < |BlockRowsOf(blocks)| && BlockRowsOf(blocks)[i].ayahNumber == a
  {
    var range := ParseAyahRange(blocks[b].marker);
    var k :| 0 <= k < |range| && range[k] == a;
    var rows := ParseBlock(blocks[b].marker, blocks[b].body);
    assert rows[k].ayahNumber == a;
    assert ParseBlockOf()(blocks[b]) == rows;
    FlatMapCover(blocks, ParseBlockOf(), b, k);
    var all := BlockRowsOf(blocks);
    var i :| 0 <= i < |all| && all[i] == ParseBlockOf()(blocks[b])[k];
    assert all[i].ayahNumber == a;
  }

  /** The stored rows before deduplication. */
  function PostRows(n: nat, header: Header, rows: seq<BlockRow>, sourcePostId: JsValue): (out: seq<Row>)
    ensures |out| == |rows|
    ensures forall i :: 0 <= i < |out| ==> out[i] == PostRow(n, header, rows[i], sourcePostId)
  {
    seq(|rows|, i requires 0 <= i < |rows| => PostRow(n, header, rows[i], sourcePostId))
  }

  /** The surah number the header gives, when it is a usable (non-zero) one. */
  predicate HasSurah(header: Header) {
    header.surahNumber.Some? && header.surahNumber.value != 0
  }

  /** `parseTelegramPost`: fails when no surah number is found or when the post has no
      ayah markers; otherwise the deduplicated rows of all blocks. */
  function ParseTelegramPost(rawText: string, sourcePostId: JsValue): (r: Result<seq<Row>>)
    ensures r == Err("Could not detect Surah number") <==> !HasSurah(ExtractHeader(rawText))
    ensures r == Err("No ayah blocks found") <==>
      HasSurah(ExtractHeader(rawText)) && SplitAyahBlocks(rawText) == []
    ensures r.Ok? ==> forall x :: x in r.value ==> x.surahNumber == Int(ExtractHeader(rawText).surahNumber.value)
  {
    var header := ExtractHeader(rawText);
    if !HasSurah(header) then Err("Could not detect Surah number")
    else
      var blocks := SplitAyahBlocks(rawText);
      if |blocks| == 0 then Err("No ayah blocks found")
      else
        var n := header.surahNumber.value;
        var rows := PostRows(n, header, BlockRowsOf(blocks), sourcePostId);
        DedupedPostRowsSurah(n, header, BlockRowsOf(blocks), sourcePostId);
        Ok(DedupeRows(rows))
  }

  /** Every deduplicated row of a post is of the header's surah. */
  lemma DedupedPostRowsSurah(n: nat, header: Header, brows: seq<BlockRow>, sourcePostId: JsValue)
    ensures forall x :: x in DedupeRows(PostRows(n, header, brows, sourcePostId)) ==> x.surahNumber == Int(n)
  {
    var rows := PostRows(n, header, brows, sourcePostId);
    DedupeRowsKept(rows);
    forall x | x in DedupeRows(rows) ensures x.surahNumber == Int(n) {
      var i :| 0 <= i < |rows| && rows[i] == x;
      PostRowPosition(n, header, brows[i], sourcePostId);
    }
  }

  /** A post that never says `Aayat` but names its surah has no blocks. */
  lemma NoMarkerNoBlocks(rawText: string, sourcePostId: JsValue)
    requires HasSurah(ExtractHeader(rawText))
    requires forall a :: !OccursAtIgnoreCase(rawText, "aayat", a)
    ensures ParseTelegramPost(rawText, sourcePostId) == Err("No ayah blocks found")
  {
  }

  /** A parsed post is the deduplication of the stored rows of all its blocks. */
  lemma ParseTelegramPostRows(rawText: string, sourcePostId: JsValue)
    requires ParseTelegramPost(rawText, sourcePostId).Ok?
    ensures var header := ExtractHeader(rawText);
      HasSurah(header) && SplitAyahBlocks(rawText) != [] &&
      ParseTelegramPost(rawText, sourcePostId).value ==
        DedupeRows(PostRows(header.surahNumber.value, header, BlockRowsOf(SplitAyahBlocks(rawText)), sourcePostId))
  {
  }

  /** A parsed post never holds the same verse twice. */
  lemma ParseTelegramPostDistinct(rawText: string, sourcePostId: JsValue)
    requires ParseTelegramPost(rawText, sourcePostId).Ok?
    ensures DistinctBy(ParseTelegramPost(rawText, sourcePostId).value, Pos)
  {
    ParseTelegramPostRows(rawText, sourcePostId);
    var header := ExtractHeader(rawText);
    DedupeRowsDistinct(PostRows(header.surahNumber.value, header, BlockRowsOf(SplitAyahBlocks(rawText)), sourcePostId));
  }

  /** Every ayah of every block label has a row in a parsed post. */
  lemma ParseTelegramPostCover(rawText: string, sourcePostId: JsValue, b: nat, a: nat)
    requires ParseTelegramPost(rawText, sourcePostId).Ok?
    requires b < |SplitAyahBlocks(rawText)| && a in ParseAyahRange(SplitAyahBlocks(rawText)[b].marker)
    ensures exists x :: (x in ParseTelegramPost(rawText, sourcePostId).value &&
      Pos(x) == (Int(ExtractHeader(rawText).surahNumber.value), Int(a)))
  {
    ParseTelegramPostRows(rawText, sourcePostId);
    var header := ExtractHeader(rawText);
    var n := header.surahNumber.value;
    var blocks := SplitAyahBlocks(rawText);
    var brows := BlockRowsOf(blocks);
    var rows := PostRows(n, header, brows, sourcePostId);
    DedupeRowsCover(rows);
    BlockRowsOfCover(blocks, b, a);
    var i :| 0 <= i < |brows| && brows[i].ayahNumber == a;
    PostRowPosition(n, header, brows[i], sourcePostId);
    assert rows[i] == PostRow(n, header, brows[i], sourcePostId);
    var x :| x in DedupeRows(rows) && Pos(x) == Pos(rows[i]);
  }

  /** Every row of a parsed post is an ayah that some block label names. */
  lemma ParseTelegramPostOrigin(rawText: string, sourcePostId: JsValue, x: Row)
    requires ParseTelegramPost(rawText, sourcePostId).Ok?
    requires x in ParseTelegramPost(rawText, sourcePostId).value
    ensures exists b, a :: (0 <= b < |SplitAyahBlocks(rawText)| && a in ParseAyahRange(SplitAyahBlocks(rawText)[b].marker) &&
      Pos(x) == (Int(ExtractHeader(rawText).surahNumber.value), Int(a)))
  {
    ParseTelegramPostRows(rawText, sourcePostId);
    var header := ExtractHeader(rawText);
    PostRowsOrigin(header.surahNumber.value, header, SplitAyahBlocks(rawText), sourcePostId, x);
  }

  /** Every deduplicated row of a post's blocks is an ayah that some block label names. */
  lemma PostRowsOrigin(n: nat, header: Header, blocks: seq<Block>, sourcePostId: JsValue, x: Row)
    requires x in DedupeRows(PostRows(n, header, BlockRowsOf(blocks), sourcePostId))
    ensures exists b, a :: (0 <= b < |blocks| && a in ParseAyahRange(blocks[b].marker) &&
      Pos(x) == (Int(n), Int(a)))
  {
    var brows := BlockRowsOf(blocks);
    var rows := PostRows(n, header, brows, sourcePostId);
    DedupeRowsKept(rows);
    var i :| 0 <= i < |rows| && rows[i] == x;
    PostRowPosition(n, header, brows[i], sourcePostId);
    assert x == PostRow(n, header, brows[i], sourcePostId);
    BlockRowsOfOrigin(blocks, i);
    var b :| 0 <= b < |blocks| && brows[i].ayahNumber in ParseAyahRange(blocks[b].marker);
    assert Pos(x) == (Int(n), Int(brows[i].ayahNumber));
  }
}
