# Ruju verse-row pipeline in Dafny

Ruju is a Quran reading app with a commentary (tafseer) feed and an admin panel.
Its content arrives as Telegram posts: a header naming the surah, then blocks
marked `Aayat No. N` holding the Arabic text, a quoted translation and
commentary. This project models the pure logic that turns such text into verse
rows keyed by `(surah_number, ayah_number)`, merges rows for the same verse,
and reads them back for display. It proves what that logic promises.

The model covers:

- **Admin-panel parser** (`ruju-admin-panel/src/utils/parser.js`). This is
  modules `ParserText`, `ParserHeader`, `ParserMarkers`, `ParserBlocks`,
  `ParserRows` and `ParserPost`. They cover:
  - the text normalisers;
  - the header and `Aayat No.` marker scanners;
  - verse-range expansion;
  - Arabic/translation pairing inside a block;
  - loose-row coercion;
  - quality-score deduplication;
  - the validation report and its summary line.
- **Admin-panel upload rules** (`ruju-admin-panel/src/App.jsx`, module
  `AdminApp`). These are:
  - the report's status colour;
  - `pickRicherText`, `appendUniqueTafseer` and `mergeAyahRow`;
  - reading the post id back from an upload summary;
  - the checks `upsertRows` makes before it sends anything.
- **App state** (`src/state/AppState.js`, module `AppState`). This covers the
  verse key, `mergeAyahRows`, bookmarks, the theme and the profile fields.
- **Reading index and display cleaners** (`src/utils/quranData.js` and
  `src/utils/textCleaner.js`, modules `QuranData` and `TextCleaner`).
- **Offline normaliser** (`scripts/admin_sync.py`). This is modules `PyText`,
  `SyncFlow`, `Juz`, `Telegram`, `SyncScan`, `SyncRecords` and `SyncReport`.
  They cover:
  - digit folding and `clean_text`;
  - the commentary re-flow;
  - the juz table;
  - the header and section scanners;
  - `merge_rows` and `build_records` with its coverage report.
- **Export formatter** (`format_ayahs.py`, module `FormatAyahs`). It reuses
  `Juz`, `Telegram` and `PyText`. Its `clean_block` is the same function as
  `clean_text` of the offline normaliser and is modelled by `PyText.CleanText`.
- **Feed post header codec** (`src/screens/FeedScreen.js`, modules `Feed` and
  `FeedCodec`). It covers:
  - the `[[post:...]]` header: its encoder, its parser and their round trip;
  - colour and scale normalisation;
  - the frame lookups;
  - the mention put in front of a reply.
- **Profile screen** (`src/screens/MyProfileScreen.js`, module `Profile`). This
  is its marker-stripping `parseStyledContent` and its ownership filter.
- **Audit scripts** (`scripts/_check_visible_translation.js` and
  `scripts/_audit_translations.js`, module `Audits`).

Shared modules hold the generic parts:

| module | contents |
|---|---|
| `Base` | `Option` and `Result` |
| `Chars` | code-point classes |
| `Strings` | trimming, searching, splitting, joining and number text |
| `Seqs` | filters, counts and sublists |
| `Assoc` | insertion-ordered maps, used for JavaScript objects and Python dicts |
| `KeyedFold` | folds that keep one element per key |
| `Sorting` | a stable sort by a comparator |
| `JsValues` | JavaScript values |

`JsValues` models a JavaScript number as `Int(i)` or `NonInt`. As in
JavaScript, `Number` of text whose fraction is all zeros (`12.0`, `12.`) is the
integer. `NonInt` covers NaN, other fractions and infinities, and the model
treats all of them as NaN: falsy, and written `NaN`. In the source a fraction or an infinity is truthy and is
written as itself; the members where that matters are named under "Left out".

The regular expressions of the source are written as deterministic scanners
over code-point predicates. Each scanner's comment says how it makes the same
choice as the expression's backtracking.

## Model

| member | source | states |
|---|---|---|
| ParserText.StripSpaceBeforeNewlineSound | ruju-admin-panel/src/utils/parser.js:4 | after the replacement no space or tab stands directly before a newline |
| ParserText.StripSpaceBeforeNewlineIdentity | ruju-admin-panel/src/utils/parser.js:4 | text without a blank before a newline is left as it is |
| ParserText.CollapseNewlinesNoTriple | ruju-admin-panel/src/utils/parser.js:5 | after collapsing, no three newlines stand in a row |
| ParserText.CollapseNewlinesIdentity | ruju-admin-panel/src/utils/parser.js:5 | text without three newlines in a row is left as it is |
| ParserText.CollapseNewlinesKeepsNoSpace | ruju-admin-panel/src/utils/parser.js:4-5 | collapsing newlines does not put a blank back before a newline |
| ParserText.CleanContent | ruju-admin-panel/src/utils/parser.js:1-7 | the result has no carriage return, no blank before a newline, no three newlines in a row and no surrounding whitespace, and uses only characters of the input |
| ParserText.CleanContentFixesClean | ruju-admin-panel/src/utils/parser.js:1-7 | text already in that shape comes back unchanged |
| ParserText.CleanContentIdempotent | ruju-admin-panel/src/utils/parser.js:1-7 | cleaning twice gives what cleaning once gives |
| ParserText.FoldQuote | ruju-admin-panel/src/utils/parser.js:12-13 | curly quotes become straight ones; every other character is kept |
| ParserText.StripMarkup | ruju-admin-panel/src/utils/parser.js:11-14 | no markdown mark, carriage return or curly quote survives; new characters are only a space or straight quotes |
| ParserText.DropEmojiSqueeze | ruju-admin-panel/src/utils/parser.js:16-17 | no emoji and no two adjacent blanks remain |
| ParserText.NormalizeArabicText | ruju-admin-panel/src/utils/parser.js:9-19 | the result has no carriage return, curly quote, markdown mark or emoji, no two adjacent blanks and no surrounding whitespace |
| ParserText.NormalizeArabicTextStable | ruju-admin-panel/src/utils/parser.js:9-19 | normalised text that does not start with a bullet glyph is a fixed point |
| ParserText.NormalizeArabicTextNotIdempotent | ruju-admin-panel/src/utils/parser.js:15-16 | the bullet strip runs before the emoji removal, so "🌟-x" gives "-x" and a second pass gives "x" |
| ParserText.NormalizeLine | ruju-admin-panel/src/utils/parser.js:21-23 | the line loses carriage returns and surrounding whitespace; a line without them is unchanged |
| ParserText.StripPair | ruju-admin-panel/src/utils/parser.js:31-34 | a text wrapped in the delimiter pair loses exactly the two delimiters; any other text is unchanged |
| ParserText.UnwrapPass | ruju-admin-panel/src/utils/parser.js:30-35 | one pass never lengthens the text, is the identity when it does not shorten it, and leaves it trimmed |
| ParserText.UnwrapFixpointNotWrapped | ruju-admin-panel/src/utils/parser.js:28-40 | when a pass changes nothing, the text is no longer wrapped in any delimiter pair |
| ParserText.UnwrapLoop | ruju-admin-panel/src/utils/parser.js:28-40 | the loop stops at a text a further pass leaves unchanged, no longer than its input |
| ParserText.UnwrapTranslation | ruju-admin-panel/src/utils/parser.js:25-42 | the translation is trimmed, not wrapped in `_`, `"`, curly quotes or `*`, and no longer than the cleaned input |
| ParserHeader.SurahMatchAt | ruju-admin-panel/src/utils/parser.js:130 | a Surah match at a position starts with "surah" in any case and carries a non-empty run of digits and a name start |
| ParserHeader.FindSurah | ruju-admin-panel/src/utils/parser.js:130 | a match at the start position is the one returned; no result means no position matches; a result implies "surah" occurs |
| ParserHeader.FindSurahLeftmost | ruju-admin-panel/src/utils/parser.js:130 | when some position matches, the result is the match at the leftmost matching position |
| ParserHeader.JuzMatchAt | ruju-admin-panel/src/utils/parser.js:131 | a Juz match starts with "juz" in any case and carries a non-empty run of digits |
| ParserHeader.FindJuz | ruju-admin-panel/src/utils/parser.js:131 | a Juz match at the start position is the one returned; no result means no position matches |
| ParserHeader.FindJuzLeftmost | ruju-admin-panel/src/utils/parser.js:131 | when some position matches, the result is the Juz match at the leftmost matching position |
| ParserHeader.NameAt | ruju-admin-panel/src/utils/parser.js:130 | the captured name holds no newline and no `*` |
| ParserHeader.ExtractHeader | ruju-admin-panel/src/utils/parser.js:128-137 | without "surah" there is no surah number and the name is empty; without "juz" there is no juz number; the name is clean content |
| ParserHeader.ExtractHeaderCanonical | ruju-admin-panel/src/utils/parser.js:128-137 | "Surah No. n, name" yields surah number n and the cleaned name |
| ParserHeader.JuzCanonical | ruju-admin-panel/src/utils/parser.js:131-135 | "Juz n" yields juz number n |
| ParserMarkers.MatchAt | ruju-admin-panel/src/utils/parser.js:141 | a marker match starts at the given position, has its keyword inside its line and a label starting with a digit |
| ParserMarkers.FirstMatch | ruju-admin-panel/src/utils/parser.js:141-142 | the next match found is a match at its own position, at or after the start |
| ParserMarkers.FirstMatchLeftmost | ruju-admin-panel/src/utils/parser.js:141-142 | no position before the match found is itself a match |
| ParserMarkers.AllMatches | ruju-admin-panel/src/utils/parser.js:142 | the matches are chained without overlap, start at the first match, and are empty exactly when there is no match |
| ParserMarkers.AllMatchesNext | ruju-admin-panel/src/utils/parser.js:142 | each match is the first one after the end of the previous, and nothing follows the last |
| ParserMarkers.AllMatchesGaps | ruju-admin-panel/src/utils/parser.js:142 | no position between two consecutive matches is a match |
| ParserMarkers.SplitAyahBlocks | ruju-admin-panel/src/utils/parser.js:139-150 | one block per marker, each label starting with a digit; a text without "aayat" has no blocks |
| ParserMarkers.SplitSingleMarker | ruju-admin-panel/src/utils/parser.js:139-150 | "Aayat No. n" on its own line followed by a body without another marker gives exactly one block with label n and that body |
| ParserMarkers.Range | ruju-admin-panel/src/utils/parser.js:158-159 | the numbers from start to end inclusive, empty when end is below start |
| ParserMarkers.ParseAyahRange | ruju-admin-panel/src/utils/parser.js:152-161 | the result is a run of consecutive numbers, empty for a label without digits |
| ParserMarkers.ParseAyahRangeSingle | ruju-admin-panel/src/utils/parser.js:153-156 | the label "n" gives [n] |
| ParserMarkers.ParseAyahRangePair | ruju-admin-panel/src/utils/parser.js:153-160 | the label "a-b" gives the numbers a to b, none when b < a |
| ParserMarkers.ParseAyahRangeOfSingle | ruju-admin-panel/src/utils/parser.js:153-156 | any label of blanks, one digit run and blanks gives just the number of that run |
| ParserMarkers.ParseAyahRangeOfPair | ruju-admin-panel/src/utils/parser.js:153-160 | any label of two digit runs joined by a hyphen or an en dash, with blanks around each part, gives the numbers from the first to the second, none when the second is smaller |
| ParserMarkers.ParseAyahRangeForms | ruju-admin-panel/src/utils/parser.js:153-154 | a label matching neither of those two forms gives no numbers |
| ParserBlocks.IsArabicLine | ruju-admin-panel/src/utils/parser.js:163-165 | a line is Arabic exactly when one of its characters lies in U+0600..U+06FF |
| ParserBlocks.TranslationLineMark | ruju-admin-panel/src/utils/parser.js:167-172 | a translation line always contains `_`, a straight quote or an opening curly quote |
| ParserBlocks.DelimitedIsTranslation | ruju-admin-panel/src/utils/parser.js:170 | a single line wrapped in `_`, straight quotes or curly quotes is a translation line |
| ParserBlocks.BlockLines | ruju-admin-panel/src/utils/parser.js:177 | the block's lines are non-empty, trimmed and free of carriage returns and newlines |
| ParserBlocks.TranslationIndexFirst | ruju-admin-panel/src/utils/parser.js:185-191 | the translation for line i is the first translation line among the next three lines, if any |
| ParserBlocks.TranslationText | ruju-admin-panel/src/utils/parser.js:184-191 | no translation line nearby gives ""; the text found is unwrapped |
| ParserBlocks.ArabicIndices | ruju-admin-panel/src/utils/parser.js:181-183 | the indices of Arabic lines, strictly increasing |
| ParserBlocks.ArabicIndicesComplete | ruju-admin-panel/src/utils/parser.js:181-183 | every Arabic line at or after the start is listed |
| ParserBlocks.Pairs | ruju-admin-panel/src/utils/parser.js:178-194 | one pair per Arabic line |
| ParserBlocks.PairsAt | ruju-admin-panel/src/utils/parser.js:192 | the k-th pair holds the cleaned k-th Arabic line and the translation found for it |
| ParserBlocks.IsUsedMeans | ruju-admin-panel/src/utils/parser.js:179-193 | a line is used exactly when it is Arabic or an earlier Arabic line claimed it as its translation |
| ParserBlocks.StripGlyphs | ruju-admin-panel/src/utils/parser.js:199-204 | a leading run of decoration glyphs and the blanks after it is removed; other lines are unchanged |
| ParserBlocks.TafseerLinesMembers | ruju-admin-panel/src/utils/parser.js:196-206 | the tafseer lines are exactly the unused lines that are not a "Description of this aayat" heading, stripped and non-empty |
| ParserBlocks.SharedTafseer | ruju-admin-panel/src/utils/parser.js:207 | the shared tafseer is clean content, empty when no tafseer line is left |
| ParserBlocks.AllArabicNoTafseer | ruju-admin-panel/src/utils/parser.js:196-207 | a block of Arabic lines only has an empty tafseer |
| ParserBlocks.BlockRows | ruju-admin-panel/src/utils/parser.js:209-217 | one row per ayah number, each with that number, the shared tafseer, normalised Arabic and clean translation |
| ParserBlocks.ParseBlock | ruju-admin-panel/src/utils/parser.js:174-218 | one row per number of the marker's range, all with the block's shared tafseer |
| ParserBlocks.ParseBlockText | ruju-admin-panel/src/utils/parser.js:209-216 | row i takes the i-th pair, or the first pair when there are fewer pairs, or empty texts when there is none |
| ParserRows.OptionalInt | ruju-admin-panel/src/utils/parser.js:47-54 | a juz number is kept exactly when the value is not blank and converts to an integer |
| ParserRows.OptionalIntOfZeroFraction | ruju-admin-panel/src/utils/parser.js:47-51 | a juz given as digits, a point and zeros (`3.0`, `3.`) is an integer to `Number` and is kept as the digits' value |
| ParserRows.OptionalIntOfFraction | ruju-admin-panel/src/utils/parser.js:47-51 | a juz given as a fraction with a non-zero digit after the point is not an integer and is dropped |
| JsValues.StringToNumber | ruju-admin-panel/src/utils/parser.js:45-46 | `Number` of blank text is 0, and of a run of digits with surrounding blanks is that run's integer |
| JsValues.StringToNumberZeroFraction | ruju-admin-panel/src/utils/parser.js:45-51 | digits, a point and only zeros read as the digits' integer, with or without a plus sign |
| JsValues.NegatedText | ruju-admin-panel/src/utils/parser.js:45-46 | a minus sign before text that reads as an integer reads as its negation |
| JsValues.UnsignedFraction | ruju-admin-panel/src/utils/parser.js:51 | digits, a point and digits with a non-zero digit after the point are not an integer |
| ParserRows.OptionalNumber | ruju-admin-panel/src/utils/parser.js:59-62 | a source id is absent exactly when the value is null, undefined or "" |
| ParserRows.NormalizeIncomingRow | ruju-admin-panel/src/utils/parser.js:44-64 | numbers are `Number()` of the fields; the texts are cleaned, the Arabic normalised; juz and source id follow the blank rules |
| ParserRows.NormalizeIncomingRowStable | ruju-admin-panel/src/utils/parser.js:44-64 | normalising a normalised row again only re-normalises its Arabic, and changes nothing when that text does not start with a bullet glyph |
| ParserRows.RowQualityScore | ruju-admin-panel/src/utils/parser.js:66-72 | the score is at most 6, 6 exactly when all three texts are present, 0 exactly when none is |
| ParserRows.RowQualityScoreMonotone | ruju-admin-panel/src/utils/parser.js:66-72 | a row with more texts present never scores lower, and strictly higher when it has a text the other lacks |
| ParserRows.Keep | ruju-admin-panel/src/utils/parser.js:83 | the later row wins unless it scores lower than the kept one |
| ParserRows.ReduceKeepLastBest | ruju-admin-panel/src/utils/parser.js:76-84 | the row kept for a key is the last one with the highest score |
| ParserRows.DedupeRows | ruju-admin-panel/src/utils/parser.js:74-88 | deduplication never adds rows |
| ParserRows.DedupeRowsCorrect | ruju-admin-panel/src/utils/parser.js:74-88 | one row per (surah, ayah) position, each the last best-scoring input row at its position, and every input position represented |
| ParserRows.DedupeRowsSorted | ruju-admin-panel/src/utils/parser.js:85-87 | with integer numbers the rows come out ordered by surah, then ayah |
| ParserRows.Warnings | ruju-admin-panel/src/utils/parser.js:121-124 | each warning is present exactly when its count is positive, in the source's order |
| ParserRows.ValidateRows | ruju-admin-panel/src/utils/parser.js:90-126 | the report counts rows, invalid rows, missing texts and distinct keys; unique plus duplicate keys equals the total |
| ParserRows.RowKeysCount | ruju-admin-panel/src/utils/parser.js:102-120 | the number of distinct keys equals the number of rows exactly when no position repeats |
| ParserRows.DedupeRowsHaveNoDuplicates | ruju-admin-panel/src/utils/parser.js:74-120 | validating deduplicated rows finds no duplicate key |
| ParserRows.SummarizeReport | ruju-admin-panel/src/utils/parser.js:246-248 | the summary starts with "total=" and the row count |
| ParserPost.PostRowPosition | ruju-admin-panel/src/utils/parser.js:229-240 | each row of a post sits at the header's surah and the block row's ayah |
| ParserPost.PostRowText | ruju-admin-panel/src/utils/parser.js:232-237 | the row takes the header's name or "Surah n", and the block's texts |
| ParserPost.PostRowMeta | ruju-admin-panel/src/utils/parser.js:233-238 | a juz of 0 or none becomes null; a falsy source id becomes null |
| ParserPost.ParseTelegramPost | ruju-admin-panel/src/utils/parser.js:220-244 | the two errors are raised exactly when no surah number is found or no block is found; every row carries the header's surah number |
| ParserPost.ParseTelegramPostDistinct | ruju-admin-panel/src/utils/parser.js:243 | a parsed post has at most one row per position |
| ParserPost.ParseTelegramPostCover | ruju-admin-panel/src/utils/parser.js:226-243 | every ayah number named by a block's marker has a row |
| ParserPost.ParseTelegramPostOrigin | ruju-admin-panel/src/utils/parser.js:226-243 | every row comes from an ayah number named by some block's marker |
| AdminApp.KindFromReport | ruju-admin-panel/src/App.jsx:13-17 | red exactly when some row is invalid; green exactly when nothing is invalid and there is no warning |
| AdminApp.KindOfValidation | ruju-admin-panel/src/App.jsx:13-17 | for a validation report, red exactly when some row lacks a required field, green exactly when every row is complete and no two share a verse |
| AdminApp.NormText | ruju-admin-panel/src/App.jsx:19-21 | the comparison form is trimmed, lower case, with single spaces only |
| AdminApp.NormTextIdempotent | ruju-admin-panel/src/App.jsx:19-21 | normalising a comparison form again changes nothing |
| AdminApp.Longer | ruju-admin-panel/src/App.jsx:30-33 | the longer text in UTF-16 units, the first on a tie |
| AdminApp.PickRicher | ruju-admin-panel/src/App.jsx:23-34 | an empty side yields the other; equal forms yield the longer; when one form contains the other the result covers both; otherwise the longer |
| AdminApp.PickRicherText | ruju-admin-panel/src/App.jsx:23-34 | the result is one of the two trimmed texts, empty only when both are |
| AdminApp.AppendUnique | ruju-admin-panel/src/App.jsx:36-47 | overlapping or missing tafseers pick the richer one; two unrelated ones are joined by an empty line and both survive |
| AdminApp.AppendUniqueTafseer | ruju-admin-panel/src/App.jsx:36-47 | the result is trimmed and is the richer text or contains both texts |
| AdminApp.MergeAyahRow | ruju-admin-panel/src/App.jsx:49-51 | with no stored row the incoming row is used as it is |
| AdminApp.MergeAyahRowFields | ruju-admin-panel/src/App.jsx:52-61 | name falls back by truthiness, juz and source id by `??`, Arabic and translation take the richer text, tafseer is appended |
| AdminApp.MergeAyahRowOthers | ruju-admin-panel/src/App.jsx:52-54 | every other field comes from the incoming row when it has it, else from the stored row |
| AdminApp.MergeKeepsVerse | ruju-admin-panel/src/App.jsx:49-61 | merging never changes the incoming row's surah and ayah numbers |
| AdminApp.ExtractSourcePostIdFromSummary | ruju-admin-panel/src/App.jsx:189-192 | the id is the digits after the leftmost "source_post_id =" in any case, none when no position matches |
| AdminApp.SummaryHasNoId | ruju-admin-panel/src/App.jsx:189-192 | a plain report summary carries no source id |
| AdminApp.SuffixRoundTrip | ruju-admin-panel/src/App.jsx:189-192 | a summary without `_` followed by " \| source_post_id=p" reads back p when p is not negative |
| AdminApp.SummaryRoundTrip | ruju-admin-panel/src/App.jsx:279 | the logged summary of a report gives back the post id it was written with |
| AdminApp.UploadSummary | ruju-admin-panel/src/App.jsx:278-279 | the logged summary extends the report's summary, and differs from it exactly when the post number is a non-zero integer |
| AdminApp.UploadSummaryId | ruju-admin-panel/src/App.jsx:278-279 | the undo path recovers exactly a positive integer post number, and nothing otherwise |
| AdminApp.MergeAll | ruju-admin-panel/src/App.jsx:265 | each upload row is the merge of its stored row (looked up by verse key) and the normalised row |
| AdminApp.MergeAllKeepsVerse | ruju-admin-panel/src/App.jsx:265 | the merged rows keep the normalised rows' surah and ayah numbers |
| AdminApp.UpsertRows | ruju-admin-panel/src/App.jsx:229-283 | nothing is uploaded exactly when normalisation leaves no row; the upload is blocked exactly when a row lacks a required field; otherwise one merged row per normalised row and a summary that reads back the post number |
| AppState.MakeAyahKey | src/state/AppState.js:16-18 | for numeric fields the key is the "surah:ayah" text of the two numbers |
| AppState.MakeAyahKeyInjective | src/state/AppState.js:16-18 | two numeric pairs give the same key exactly when they are the same pair |
| AppState.PickRicherText | src/state/AppState.js:20-31 | the result is one of the two trimmed texts, and the other one when a side is empty |
| AppState.PickRicherTextAgrees | src/state/AppState.js:20-31 | the app's choice equals the admin panel's choice for every pair of values |
| AppState.AppKeepsOneOfUnrelated | src/state/AppState.js:30 | for two unrelated texts the app keeps only one ("a" and "b" give "a") |
| AppState.AdminJoinsUnrelated | ruju-admin-panel/src/App.jsx:46 | the admin panel keeps both unrelated tafseers ("a" and "b" give "a\n\nb") |
| AppState.MergeRowTexts | src/state/AppState.js:55-57 | Arabic, translation and tafseer each take the richer of the two texts |
| AppState.MergeRowNameAndSource | src/state/AppState.js:58-59 | the name falls back to "Surah n" and is never empty; the source id falls back by `??` |
| AppState.MergeRowOthers | src/state/AppState.js:52-54 | every other field comes from the fetched row when it has it, else from the bundled row |
| AppState.MergeRowVerse | src/state/AppState.js:52-54 | the merged row keeps the fetched row's surah and ayah numbers |
| AppState.Absorb | src/state/AppState.js:39-60 | a bundled row replaces what was kept; a fetched row is merged into it |
| AppState.MergeAyahRows | src/state/AppState.js:33-64 | without fetched rows the bundled rows are returned as they are; otherwise there are at most as many rows as both lists hold |
| AppState.MergeAyahRowsKeys | src/state/AppState.js:36-63 | with fetched rows every output row has integer numbers, no two share a key, and each is the fold of its key's rows, bundled first |
| AppState.MergeAyahRowsCover | src/state/AppState.js:37-48 | every bundled or fetched row with integer numbers has an output row with its key |
| AppState.MergeAyahRowsPair | src/state/AppState.js:45-60 | a verse with one bundled and one fetched row gets the merge of the two |
| AppState.ToggleBookmark | src/state/AppState.js:224-227 | the verse's flag is negated and every other key is unchanged |
| AppState.ToggleBookmarkTwice | src/state/AppState.js:224-227 | toggling twice restores the verse's truthiness and leaves the rest unchanged |
| AppState.MarkedKeys | src/state/AppState.js:190 | exactly the keys whose flag is truthy |
| AppState.BookmarkedAyahs | src/state/AppState.js:188-196 | exactly the indexed verses of truthy bookmarks |
| AppState.BookmarkedAyahsSorted | src/state/AppState.js:194 | the bookmarked verses come out ordered by surah, then ayah |
| AppState.BookmarksOfIndexSorted | src/state/AppState.js:188-196 | over the index built from any rows, the bookmarked verses are ordered |
| AppState.SetThemeMode | src/state/AppState.js:219 | "light" exactly for the value "light", "dark" otherwise |
| AppState.ToggleThemeMode | src/state/AppState.js:220 | "light" exactly when the previous mode was not "light" |
| AppState.ToggleThemeModeTwice | src/state/AppState.js:220 | toggling twice restores a valid mode |
| AppState.SetProfileGender | src/state/AppState.js:214 | "female" exactly for the value "female", "male" otherwise |
| AppState.SetProfileName | src/state/AppState.js:213 | the stored name is the given text without surrounding whitespace, and empty for a falsy name |
| AppState.ProfileSetupComplete | src/state/AppState.js:212-241 | after setup the profile is complete exactly when the trimmed name is not empty; after clearing it is not |
| QuranData.CleanRows | src/utils/quranData.js:2-9 | the clean rows are exactly the rows with integer surah and ayah numbers, rearranged |
| QuranData.CleanMembers | src/utils/quranData.js:3 | a row is kept exactly when it has integer surah and ayah numbers |
| QuranData.CleanSorted | src/utils/quranData.js:4-9 | with numeric source ids the clean rows are ordered by surah, ayah, then source id |
| QuranData.CompareRowsIsLex | src/utils/quranData.js:5-8 | the comparator is the lexicographic order of (surah, ayah, source id or 0) |
| QuranData.SurahRows | src/utils/quranData.js:16-17 | a surah's list holds exactly the clean rows of that surah |
| QuranData.BySurahGet | src/utils/quranData.js:15-42 | a surah has a list exactly when it has rows or is surah 1; surah 1 without rows has an empty list |
| QuranData.BuildQuranIndex | src/utils/quranData.js:34-42 | surah 1 always has a list |
| QuranData.IndexSurahRows | src/utils/quranData.js:1-47 | a surah's list holds each valid input row of that surah exactly as often as the input does |
| QuranData.IndexSurahSorted | src/utils/quranData.js:4-17 | with numeric source ids each surah's list is ordered by ayah, then source id |
| QuranData.SameKeySameVerse | src/utils/quranData.js:18 | two valid rows share an ayah key exactly when they have the same surah and ayah |
| QuranData.IndexAyahByKey | src/utils/quranData.js:18 | a key is indexed exactly when some valid row has it, and it maps to such a row |
| QuranData.IndexAyahByKeyLatest | src/utils/quranData.js:4-18 | when every row with an integer surah and ayah number has a numeric or absent source id, the row kept under a verse key has the largest source id among that verse's rows |
| QuranData.UnsortedAgree | src/utils/quranData.js:20-32 | each surah entry carries the first row's name or "Surah n" and the surah's row count |
| QuranData.UnsortedPlaceholder | src/utils/quranData.js:34-42 | without rows of surah 1 an Al-Fatihah entry with no verses is added |
| QuranData.IndexSurahsOrder | src/utils/quranData.js:44 | the surah list has one entry per number, in ascending order |
| QuranData.IndexSurahsCover | src/utils/quranData.js:29-44 | a surah has an entry exactly when it has a verse list |
| QuranData.IndexSurahEntries | src/utils/quranData.js:20-42 | each entry's count is the length of its surah's list and its name comes from that list's first row, the placeholder aside |
| QuranData.FilterSurahs | src/utils/quranData.js:49-56 | an empty query keeps the list; otherwise exactly the entries whose number or lower-cased name contains the query, in order |
| QuranData.FilterAyahs | src/utils/quranData.js:58-69 | an empty query keeps the list; otherwise exactly the verses whose number or a lower-cased text contains the query, in order |
| QuranData.FilterSurahsNarrows | src/utils/quranData.js:49-56 | a longer query containing a shorter one keeps no entry the shorter one drops |
| QuranData.FilterAyahsNarrows | src/utils/quranData.js:58-69 | a longer query containing a shorter one keeps no verse the shorter one drops |
| TextCleaner.CollapseSpaces | src/utils/textCleaner.js:1-3 | no two adjacent blanks and no surrounding whitespace remain; only a space is added |
| TextCleaner.CollapseSpacesFixes | src/utils/textCleaner.js:1-3 | text already in that shape is unchanged |
| TextCleaner.CollapseSpacesIdempotent | src/utils/textCleaner.js:1-3 | collapsing twice gives what collapsing once gives |
| TextCleaner.StripDecorativeLines | src/utils/textCleaner.js:5-14 | exactly the lines that are not blank or decorative survive, in order |
| TextCleaner.StripDecorativeLinesIdempotent | src/utils/textCleaner.js:5-14 | filtering twice gives what filtering once gives |
| TextCleaner.Prepare | src/utils/textCleaner.js:19-30 | no carriage return, zero-width character, curly quote, emoji, dingbat or bullet survives |
| TextCleaner.PrepareFixes | src/utils/textCleaner.js:19-30 | text without any of them is unchanged |
| TextCleaner.CleanLine | src/utils/textCleaner.js:34-38 | a line loses its leading bullets and blanks and has its blanks collapsed, adding only spaces |
| TextCleaner.CleanLineFixes | src/utils/textCleaner.js:34-38 | a line already laid out that way is unchanged |
| TextCleaner.CleanLines | src/utils/textCleaner.js:32-41 | every kept line is non-empty, collapsed, not decorative and starts without a bullet |
| TextCleaner.CleanLinesFixes | src/utils/textCleaner.js:32-41 | joining good lines and splitting them again gives the same lines back |
| TextCleaner.CleanBase | src/utils/textCleaner.js:16-42 | a falsy value gives ""; the result holds none of the removed characters |
| TextCleaner.CleanBaseShape | src/utils/textCleaner.js:16-42 | the result has no empty line, no two adjacent blanks, no surrounding whitespace and no line starting with a bullet |
| TextCleaner.CleanBaseIdempotent | src/utils/textCleaner.js:16-42 | cleaning a cleaned text changes nothing |
| TextCleaner.CleanBaseOfGoodLines | src/utils/textCleaner.js:16-42 | a text made of good lines is its own cleaning |
| TextCleaner.StripStars | src/utils/textCleaner.js:46-47 | no star or markdown mark survives, no two adjacent blanks, no surrounding whitespace |
| TextCleaner.CleanArabicText | src/utils/textCleaner.js:44-48 | the display Arabic has no star mark, no removed character, no two adjacent blanks and no surrounding whitespace |
| TextCleaner.CleanArabicTextOfPlain | src/utils/textCleaner.js:44-48 | text with no star mark, and no character the star class would split, comes out as the plain cleaning |
| TextCleaner.CleanBodyText | src/utils/textCleaner.js:50-52 | a falsy value gives ""; the result holds none of the removed characters |
| TextCleaner.CleanBodyTextIdempotent | src/utils/textCleaner.js:50-52 | cleaning a cleaned body changes nothing |
| PyText.FoldDigit | scripts/admin_sync.py:27-32 | an Eastern Arabic or Persian digit becomes the ASCII digit of the same value; every other character is kept |
| PyText.NormalizeDigits | scripts/admin_sync.py:43-44 | `None` gives ""; the length is kept and no Eastern digit remains, each replaced by the ASCII digit of its value |
| PyText.NormalizeDigitsValue | scripts/admin_sync.py:43-44 | a run of digits keeps its numeric value after folding |
| PyText.NormalizeDigitsIdempotent | scripts/admin_sync.py:43-44 | folding twice gives what folding once gives |
| PyText.CleanText | scripts/admin_sync.py:47-50 | the result has no carriage return, no three newlines in a row and no surrounding whitespace, and adds only newlines |
| PyText.CleanTextFixes | scripts/admin_sync.py:47-50 | text already in that shape is unchanged |
| PyText.CleanTextIdempotent | scripts/admin_sync.py:47-50 | cleaning twice gives what cleaning once gives |
| PyText.NormCompareText | scripts/admin_sync.py:213-214 | the comparison form is trimmed, lower case, single spaced |
| PyText.NormCompareTextIdempotent | scripts/admin_sync.py:213-214 | normalising a comparison form again changes nothing |
| PyText.ChooseRicher | scripts/admin_sync.py:220-231 | the choice is made exactly unless both texts are present and neither form contains the other; an empty side yields the other |
| PyText.PickRicherText | scripts/admin_sync.py:217-232 | the result is one of the two cleaned texts, the other when one is empty, and the containing one when one form contains the other |
| PyText.PickRicherTextSelf | scripts/admin_sync.py:217-232 | picking between a text and itself gives its cleaning |
| PyText.PickRicherTextStable | scripts/admin_sync.py:217-232 | picking again between the result and the first text keeps the result |
| SyncFlow.RawLines | scripts/admin_sync.py:58 | one right-stripped raw line per line of the text |
| SyncFlow.NormalizeTafseerFlow | scripts/admin_sync.py:53-106 | the result has the shape `clean_text` produces |
| SyncFlow.NormalizeTafseerFlowIsJoin | scripts/admin_sync.py:53-106 | the result is the paragraphs joined by empty lines, each paragraph one non-empty line |
| SyncFlow.NormalizeTafseerFlowKeepsLines | scripts/admin_sync.py:75-105 | the paragraphs hold exactly the kept lines, in order: no kept line is lost or reordered by gluing or flushing |
| SyncFlow.FlowInvariant | scripts/admin_sync.py:69-105 | after any prefix of lines, the paragraphs and the pending one together are the kept lines glued by spaces |
| SyncFlow.AppendUniqueTafseer | scripts/admin_sync.py:235-257 | a re-parse of the same post keeps one commentary; an empty side yields the other; otherwise unrelated commentaries are joined |
| SyncFlow.AppendUniqueKeepsBoth | scripts/admin_sync.py:257 | joining two unrelated commentaries keeps the kept lines of both, the first one's first |
| SyncFlow.KeptLinesAppend | scripts/admin_sync.py:75-84 | which lines are kept does not depend on the lines around them |
| Juz.GetJuz | scripts/admin_sync.py:125-132 | the juz is always one of 1..30 |
| Juz.GetJuzMonotone | scripts/admin_sync.py:125-132 | a later verse never lies in an earlier juz |
| Juz.GetJuzAtStart | scripts/admin_sync.py:125-132 | the first verse of juz k lies in juz k |
| Juz.GetJuzBetween | scripts/admin_sync.py:125-132 | a verse lies in juz k exactly when it is at or after the k-th start and before the next one |
| Juz.JuzStartsAscending | scripts/admin_sync.py:8-12 | the juz starts are strictly ascending |
| Telegram.FlattenText | scripts/admin_sync.py:109-122 | a string is itself, a list concatenates its strings and `text` fields, a dict gives its `text`, anything else "" |
| Telegram.FlattenTextAgree | scripts/admin_sync.py:117-121 | reading dicts only changes the result for a dict with a non-empty `text` |
| SyncScan.AyahAt | scripts/admin_sync.py:37-39 | an `RX_AYAH` match starts at the position and captures a non-empty digit run, and optionally a second one |
| SyncScan.AyahMatches | scripts/admin_sync.py:334 | the matches found are non-overlapping and each is the match at its own start |
| SyncScan.AyahMatchesCover | scripts/admin_sync.py:334 | every position where the pattern matches lies inside some match found |
| SyncScan.HeaderMatches | scripts/admin_sync.py:142-146 | the headers are exactly the matches with nothing alphanumeric before them on their line |
| SyncScan.AyahHeaderRecognised | scripts/admin_sync.py:37-39 | "Ayat No. d" is recognised with d as its number |
| SyncScan.SurahSearch | scripts/admin_sync.py:34-36 | a surah header found carries a non-empty digit run |
| SyncScan.SurahHeaderRecognised | scripts/admin_sync.py:34-36 | "Surah d" followed by Arabic text is recognised with d as its number and no name |
| SyncScan.MentionsBaqarahByName | scripts/admin_sync.py:327 | any text containing "Surah Al-Baqarah" mentions al-Baqarah |
| SyncScan.TidyName | scripts/admin_sync.py:136 | the name is single spaced and stripped of blanks and `*_'",-` at both ends |
| SyncScan.CanonicalSurahName | scripts/admin_sync.py:135-139 | a Baqarah spelling gives "Al-Baqarah", an empty name "Surah n", otherwise the tidied name; never empty |
| SyncScan.CanonicalSurahNameIdempotent | scripts/admin_sync.py:135-139 | canonicalising a canonical name changes nothing |
| SyncScan.PrimaryArabicUnstripped | scripts/admin_sync.py:149-156 | a line is primary Arabic exactly when it has no Latin letter and at least six Arabic characters |
| SyncScan.ArabicLineOf | scripts/admin_sync.py:161-170 | a line kept is a primary Arabic line occurring in the raw line |
| SyncScan.ExtractArabicLines | scripts/admin_sync.py:159-171 | every line returned is a verse line occurring in the section |
| SyncScan.QuoteCandidates | scripts/admin_sync.py:179-185 | every candidate occurs in the section and has an inner text of at least 15 characters on one line |
| SyncScan.PickTranslations | scripts/admin_sync.py:184-194 | one span per translation, each translation non-empty and clean, each span one of the matches |
| SyncScan.PickTranslationsDistinct | scripts/admin_sync.py:189-193 | no two translations share a comparison key |
| SyncScan.PickTranslationsComplete | scripts/admin_sync.py:186-193 | every non-empty candidate's key is seen |
| SyncScan.ExtractTranslations | scripts/admin_sync.py:174-199 | as many spans as translations, each translation clean and non-empty, each span in the section, no two translations alike |
| SyncRecords.SurahAyahMaxShape | scripts/admin_sync.py:14-25 | 114 surahs, each of at least 3 verses |
| SyncRecords.SurahAyahMaxTotal | scripts/admin_sync.py:14-25 | the verse counts add up to 6236 |
| SyncRecords.MaxAyah | scripts/admin_sync.py:346 | a verse count exists exactly for surahs 1..114 |
| SyncRecords.RecordQuality | scripts/admin_sync.py:202-210 | the score is at most 5, 5 exactly when all three texts are present, 0 exactly when none is, odd exactly when there is a commentary |
| SyncRecords.MergeRows | scripts/admin_sync.py:260-297 | the stored row's key, name and juz win when set; texts are the richer ones; the id is the smaller of two ids, else the first truthy one |
| SyncRecords.MergeRowsChronological | scripts/admin_sync.py:275-283 | commentaries of two posts are appended earlier post first, whichever was stored first |
| SyncRecords.MergeRowsOrderFree | scripts/admin_sync.py:275-295 | for two different posts the merged commentary and id do not depend on the order of arrival |
| SyncRecords.MergeRowsKeepsBoth | scripts/admin_sync.py:257-283 | merging unrelated commentaries of two posts keeps every kept line of both |
| SyncRecords.AyahNumbers | scripts/admin_sync.py:350-355 | one to eleven consecutive numbers from the start, within the surah when the start is |
| SyncRecords.AyahNumbersRange | scripts/admin_sync.py:351-355 | a range end within the surah and at most ten past the start extends the list to it; otherwise only the start |
| SyncRecords.Section | scripts/admin_sync.py:357-364 | a section kept is non-empty clean text |
| SyncRecords.BlockTafseer | scripts/admin_sync.py:373-385 | the block's commentary is clean text |
| SyncRecords.VerseRow | scripts/admin_sync.py:387-398 | the candidate row has the given verse number and is valid for its surah |
| SyncRecords.SectionRows | scripts/admin_sync.py:387-398 | one row per verse number, all of the block's surah, name and message id |
| SyncRecords.BlockVersesStart | scripts/admin_sync.py:341-348 | a header yields verses exactly when its start number is within the surah, and they begin there |
| SyncRecords.BlockRowsShape | scripts/admin_sync.py:340-398 | a header yields at most eleven consecutive rows of one surah, name and id |
| SyncRecords.MessageRows | scripts/admin_sync.py:340-406 | every row of a message is valid, of the current surah, with the message id |
| SyncRecords.HeaderSurah | scripts/admin_sync.py:321-324 | a surah number is taken only in 1..114 |
| SyncRecords.SurahUpdate | scripts/admin_sync.py:319-329 | a valid header sets surah and canonical name; an invalid one changes nothing; without a header al-Baqarah is assumed only when no surah is current and the text mentions it |
| SyncRecords.ScanMessage | scripts/admin_sync.py:309-338 | non-messages change nothing; a message is counted; at most one block count is added; candidates only grow, the new ones with the message id |
| SyncRecords.Scan | scripts/admin_sync.py:309-406 | a current surah is always in 1..114 with a name, every candidate is valid, and no more blocks than messages |
| SyncRecords.ScanCounts | scripts/admin_sync.py:310-338 | the scanned count is the number of chat messages and bounds the block count |
| SyncRecords.MergeByVerseValues | scripts/admin_sync.py:400-406 | the merged records are valid and have one row per verse key |
| SyncRecords.SortedRecordsShape | scripts/admin_sync.py:400-408 | the sorted records are valid, one per verse, ordered by surah, ayah and id |
| SyncRecords.SortedRecordsMerged | scripts/admin_sync.py:400-406 | each record is the left fold of `merge_rows` over its verse's candidates in arrival order |
| SyncRecords.SortedRecordsCover | scripts/admin_sync.py:400-406 | every candidate's verse has a record |
| SyncRecords.RecordsShape | scripts/admin_sync.py:309-408 | the written rows are valid, one per verse, sorted, and no more than the candidates |
| SyncReport.Grouped | scripts/admin_sync.py:410-412 | one non-empty verse list per surah |
| SyncReport.GroupedGet | scripts/admin_sync.py:410-412 | a surah's list is exactly its rows' verse numbers, absent when it has none |
| SyncReport.AyahsOfMembers | scripts/admin_sync.py:411-412 | a verse is listed for a surah exactly when some row has that key |
| SyncReport.Missing | scripts/admin_sync.py:418 | the missing verses are in 1..max, absent from the list, ascending |
| SyncReport.MissingIn | scripts/admin_sync.py:418 | a verse is missing exactly when it is in 1..max and not listed |
| SyncReport.MissingCount | scripts/admin_sync.py:418-423 | for an ascending list within 1..max, listed and missing verses add up to max |
| SyncReport.MinOf | scripts/admin_sync.py:421 | the minimum is in the list and below every element |
| SyncReport.MaxOf | scripts/admin_sync.py:422 | the maximum is in the list and above every element |
| SyncReport.PreviewSpec | scripts/admin_sync.py:424 | the preview is the first up to twenty missing verses, ascending |
| SyncReport.SummarizeSpec | scripts/admin_sync.py:415-425 | count, smallest and largest verse, and missing count equal to max minus count |
| SyncReport.Summaries | scripts/admin_sync.py:414-425 | one summary per grouped surah |
| SyncReport.ReportSurahs | scripts/admin_sync.py:427-435 | rows written is the row count, the surahs are ascending and exactly those of the rows, with the first and last as minimum and maximum |
| SyncReport.ReportEntry | scripts/admin_sync.py:415-425 | each surah's entry summarises exactly that surah's verses |
| SyncReport.BuildRecordsCounts | scripts/admin_sync.py:300-437 | the rows are the sorted records, and the message counters match the scan |
| SyncReport.BuildRecordsSurahs | scripts/admin_sync.py:410-435 | the report's surahs are ascending and exactly the surahs of the written rows |
| Telegram.FlattenTextNoDict | format_ayahs.py:34-47 | an object or any value that is neither a string nor a list flattens to the empty string |
| Juz.JuzNumberFor | format_ayahs.py:64-73 | a juz is given exactly when both the surah and the verse are integers, and it is the juz whose start is the last one at or before the verse |
| FormatAyahs.ReplaceAll | format_ayahs.py:55-56 | `str.replace` brings in no character that is neither in the text nor in the replacement |
| FormatAyahs.ReplaceAllAbsent | format_ayahs.py:55-56 | replacing a pattern the text does not contain leaves the text unchanged |
| FormatAyahs.Title | format_ayahs.py:60 | `str.title` keeps the length |
| FormatAyahs.TitleIndex | format_ayahs.py:60 | each letter is upper-cased when it opens a word (first, or after a non-letter) and lower-cased otherwise |
| FormatAyahs.TitleIdempotent | format_ayahs.py:60 | title-casing twice is title-casing once, and title-casing only changes case |
| FormatAyahs.NormalizeSurahName | format_ayahs.py:50-52 | there is no name exactly when the raw name is empty |
| FormatAyahs.NormalizeSurahNameCases | format_ayahs.py:53-61 | a tidied name spelling `baqarah` in any case becomes `Al-Baqarah`; otherwise only letter case changes, a name starting with `al-` keeps those three characters and title-cases the rest, and any other name is returned as tidied |
| FormatAyahs.StrippedNonBlank | format_ayahs.py:83 | the kept lines are stripped and none is empty |
| FormatAyahs.FirstCandidateSpec | format_ayahs.py:84-91 | a line is found exactly when some line has an Arabic or mojibake mark and no verse/surah label; it is the first such line, stripped of the edge marks |
| FormatAyahs.ExtractArabicLineSpec | format_ayahs.py:82-91 | the Arabic line is the first candidate among the first eight non-blank lines, and empty exactly when there is none |
| FormatAyahs.HeaderAt | format_ayahs.py:19-21 | a verse header matched at a position ends after it within the text and captures a non-empty run of digits |
| FormatAyahs.Headers | format_ayahs.py:114 | `finditer` yields matches in order without overlap, each one a header match at its own start |
| FormatAyahs.HeadersCover | format_ayahs.py:114 | no header is missed: every position where the header pattern matches starts a found header or lies inside one |
| FormatAyahs.AayatRecognised | format_ayahs.py:19-21 | `Aayat No. 12` is a header for verse 12 |
| FormatAyahs.AyatNotRecognised | format_ayahs.py:19-21 | `Ayat No. 12` is not a header: the pattern demands `Aa`/`Ay` followed by `ya` or `y` then `t`, so the one-`a` spelling fails |
| FormatAyahs.SurahNumberAt | format_ayahs.py:23-25 | a surah number matched at a position is a non-empty run of digits |
| FormatAyahs.SurahNumberSearch | format_ayahs.py:101-103 | the surah number found is a non-empty run of digits, and nothing is found only when the pattern matches at no position |
| FormatAyahs.SurahNumberSearchLeftmost | format_ayahs.py:101 | `search` returns the match at the leftmost position where the surah-number pattern matches |
| FormatAyahs.LineNameAt | format_ayahs.py:28 | the corrected name group: a letter and at least one more letter, hyphen, quote or blank of the same line, as many as follow, so it ends at a line break |
| FormatAyahs.NameGroupAt | format_ayahs.py:28 | a captured name starts with a letter, has at least two characters and holds only name characters, with no line break in the corrected reading |
| FormatAyahs.NameTail | format_ayahs.py:28 | what follows `[^\n\r:]*` captures a name of that shape |
| FormatAyahs.NameFrom | format_ayahs.py:28 | the star finds no name only when the rest of the pattern fails at every end it may take: from `q` down (greedy, as written) or up (lazy, corrected) |
| FormatAyahs.NameFromLongest | format_ayahs.py:28 | as written, the greedy star settles on the last end where the rest of the pattern matches |
| FormatAyahs.NameFromShortest | format_ayahs.py:28 | corrected, the lazy star settles on the first end where the rest of the pattern matches |
| FormatAyahs.SurahNameAt | format_ayahs.py:28 | a match needs the word `Surah`/`Surat`; after it, no match means the rest fails at every end of the star up to the first line break or colon |
| FormatAyahs.SurahNameSearch | format_ayahs.py:105 | the name found has the name group's shape, and nothing is found only when the pattern matches at no position |
| FormatAyahs.SurahNameSearchLeftmost | format_ayahs.py:105 | `search` returns the match at the leftmost position where the surah-name pattern matches |
| FormatAyahs.GreedyNameKeepsTail | format_ayahs.py:27-29 | as written, a text ending in `Surah Al-Baqarah` yields the name `ah` |
| FormatAyahs.GreedyNameNextLine | format_ayahs.py:27-29 | as written, when the surah line holds no colon the star takes all of it and the name is read from the start of the next line |
| FormatAyahs.GreedyNameUsual | format_ayahs.py:27-29 | as written, `Surah 2 Al-Baqarah` followed by the line `Aayat No. 1` yields the name `Aayat No` |
| FormatAyahs.LazyNameAfterNumber | format_ayahs.py:27-29 | corrected, the name after `Surah`, a number and a blank is taken whole, up to the first character that cannot continue it on its line |
| FormatAyahs.LazyNameUsual | format_ayahs.py:27-29 | corrected, `Surah 2 Al-Baqarah` followed by the line `Aayat No. 1` yields `Al-Baqarah` |
| FormatAyahs.LazyNameRecognised | format_ayahs.py:27-29 | corrected, a name of letters, hyphens, quotes and blanks right after `Surah ` is taken whole, up to the first character that cannot continue it on its line; a line break ends it |
| FormatAyahs.CloseQuoteFrom | format_ayahs.py:31 | the closing quote found is the first one at or after the start |
| FormatAyahs.QuoteSearch | format_ayahs.py:31 | a quote match opens with `"` or `“`, closes with `"` or `”` and encloses at least one character; nothing is found only when no opening quote has a closing quote two or more places after it |
| FormatAyahs.QuoteSearchFirst | format_ayahs.py:31 | the match opens at the first opening quote that has a closing quote two or more places on, and ends just after the first such closing quote |
| FormatAyahs.SectionOf | format_ayahs.py:76-124 | a verse's section, from the end of its header to the start of the next, is clean text |
| FormatAyahs.SectionParts | format_ayahs.py:128-137 | the tafseer left after removing the Arabic line and the quote is clean text |
| FormatAyahs.RecordJuz | format_ayahs.py:142 | a record has a juz exactly when its surah number is known and not 0, and it is that verse's juz |
| FormatAyahs.Update | format_ayahs.py:101-112 | the name is read with the greedy pattern as written; surah 2 always leaves with a name of at least three characters |
| FormatAyahs.ParseMessageCarries | format_ayahs.py:94-112 | an empty message gives no records and changes nothing; otherwise the carried number and name are those read from its text, a known number is never dropped, and a new name is non-empty and shorter than 60 characters or the `Al-Baqarah` fallback |
| FormatAyahs.RecordAtFields | format_ayahs.py:120-149 | a record carries the surah number and name, the message id and its header's verse number, has a juz exactly when the surah number is known and not 0, and has clean tafseer |
| FormatAyahs.ParseMessageRecords | format_ayahs.py:114-151 | a message gives at most one record per header, each carrying the carried surah, the message id, a header's verse number, the juz of that verse when the surah number is known, and clean tafseer |
| FormatAyahs.ParseMessageKeepsSections | format_ayahs.py:120-149 | every header whose section is not empty contributes its record |
| FormatAyahs.FormatAllJuz | format_ayahs.py:154-166 | across the whole export a record has a juz exactly when its surah number is known and not 0 |
| Feed.Clamp | src/screens/FeedScreen.js:106-108 | for a proper range the result lies in it: the value itself when inside, the nearer bound otherwise |
| Feed.NormalizeHexColor | src/screens/FeedScreen.js:110-117 | the result is always `#` and six upper-case hex digits; text that is not `#RGB`/`#RRGGBB` after trimming gives `#111111`; the long form is upper-cased and every digit of the short form is doubled |
| Feed.NormalizeHexColorFixes | src/screens/FeedScreen.js:110-117 | a stored colour normalises to itself |
| Feed.NormalizeHexColorIdempotent | src/screens/FeedScreen.js:110-117 | normalising a normalised colour changes nothing |
| Feed.UnsignedDecimal | src/screens/FeedScreen.js:144 | unsigned decimal text reads as a non-negative number |
| Feed.NumberOf | src/screens/FeedScreen.js:144 | `Number` of blank text is 0 |
| Feed.OrOne | src/screens/FeedScreen.js:144-182 | `Number(x) \|\| 1` is never 0 and keeps any other number |
| Feed.ClampScale | src/screens/FeedScreen.js:144-182 | the stored scale always lies between 0.45 and 1.6 |
| Feed.DecimalText | src/screens/FeedScreen.js:150 | digits, a point and digits read as the whole part plus the fraction |
| Feed.Fixed2ReadsBack | src/screens/FeedScreen.js:144-182 | the scale written with `toFixed(2)` reads back as the scale rounded to hundredths |
| Feed.GetFrame | src/screens/FeedScreen.js:196-205 | the frame found is always one of the frame options |
| Feed.FrameKeyNames | src/screens/FeedScreen.js:49-77 | the key of picture n is `frame` and n in three digits, and it is an option exactly when n is one of the pictures |
| Feed.FrameKeyPlain | src/screens/FeedScreen.js:197-198 | an option's key is already lower-case and trimmed and is not a legacy one- or two-digit key |
| Feed.GetFrameOfKey | src/screens/FeedScreen.js:196-205 | an option's key finds that option |
| Feed.GetFrameLegacy | src/screens/FeedScreen.js:196-202 | `frameN` with one or two digits, in any case and with trailing spaces, finds picture N when it exists and `plain` otherwise |
| Feed.FrameNumber | src/screens/FeedScreen.js:209-210 | a frame number is only read from `frame` followed by one to three characters |
| Feed.FrameTextLayout | src/screens/FeedScreen.js:207-221 | the text area is square with equal padding; it is round exactly for frames 10, 11, 12, 26, 27 and 29; it allows 18 lines exactly for `plain`, and 12, 14 or 16 otherwise |
| Feed.FrameLayoutOfOption | src/screens/FeedScreen.js:207-221 | among the options, exactly pictures 10, 11, 12, 26, 27 and 29 get a round text area |
| Feed.ReplyText | src/screens/FeedScreen.js:664-671 | a blank input sends nothing; otherwise the trimmed text is sent, prefixed with `@name ` unless it already starts with `@name` in any case, so a reply always starts with the mention |
| Feed.ReplyTextIdempotent | src/screens/FeedScreen.js:664-671 | sending the sent text again sends it unchanged, so the mention is never doubled |
| FeedCodec.MarkerAt | src/screens/FeedScreen.js:160 | a marker found is a prefix of the text: `[[`, `post` or `style` in any case, `:`, a non-empty group without `]`, `]]`, and the newline after it exactly when there is one |
| FeedCodec.MarkerOfPrefix | src/screens/FeedScreen.js:160 | a text that starts with a well-formed marker is matched with exactly its two groups, taking one following newline |
| FeedCodec.SplitChunks | src/screens/FeedScreen.js:171 | `split(/[;\|]/)` gives at least one part and no part holds a separator |
| FeedCodec.SplitChunksJoin | src/screens/FeedScreen.js:148-171 | splitting parts joined by `;` gives back the parts when none holds a separator |
| FeedCodec.TrimNonEmpty | src/screens/FeedScreen.js:171 | the kept chunks are trimmed and non-empty, and no more than the parts |
| FeedCodec.TrimNonEmptyKeeps | src/screens/FeedScreen.js:171 | parts already trimmed and non-empty are all kept, in order |
| FeedCodec.KeyValueIsSplitJoin | src/screens/FeedScreen.js:179-180 | the key is the trimmed, lower-cased text before the first `=` and the value the trimmed text after it |
| FeedCodec.SetField | src/screens/FeedScreen.js:181-185 | one `key=value` chunk changes at most one field; a new colour is a stored colour and a new scale lies between 0.45 and 1.6 |
| FeedCodec.ApplyChunk | src/screens/FeedScreen.js:172-185 | a chunk changes at most one field, and a colour or scale it sets is normalised |
| FeedCodec.ApplyChunks | src/screens/FeedScreen.js:172-185 | reading the chunks keeps the colour stored and the scale within 0.45..1.6 |
| FeedCodec.ApplyStyle | src/screens/FeedScreen.js:182 | `style=v` sets the style to `v` lower-cased and nothing else |
| FeedCodec.ApplyFrame | src/screens/FeedScreen.js:183 | `frame=v` sets the frame to `v` lower-cased and nothing else |
| FeedCodec.ApplyColor | src/screens/FeedScreen.js:184 | `color=v` sets the colour to `v` normalised and nothing else |
| FeedCodec.ApplyScale | src/screens/FeedScreen.js:185 | `scale=v` sets the scale to `Number(v) \|\| 1` clamped and nothing else |
| FeedCodec.ParseStyledContent | src/screens/FeedScreen.js:157-187 | the parsed colour is always stored and the scale within 0.45..1.6; a text without a marker is returned whole with the default meta |
| FeedCodec.ParsedText | src/screens/FeedScreen.js:164 | without a marker the text is unchanged; with one, the text is what follows the matched marker |
| FeedCodec.ParsedMeta | src/screens/FeedScreen.js:157-187 | the meta is normalised, and the default one when there is no marker |
| FeedCodec.MarkerMeta | src/screens/FeedScreen.js:166-185 | the meta a marker packs has a stored colour and a scale within 0.45..1.6 |
| FeedCodec.ParseUnmarked | src/screens/FeedScreen.js:160 | a text not starting with `[[` is shown as it is in the default look |
| FeedCodec.ParseLegacyStyle | src/screens/FeedScreen.js:166-169 | `[[style:name]]` without `=`, `;` or `\|` sets only the style, lower-cased, and strips the marker and one newline |
| FeedCodec.SafeMeta | src/screens/FeedScreen.js:141-146 | the safe meta has non-empty keys, given keys lower-cased, a stored colour and a scale within 0.45..1.6 |
| FeedCodec.PackedChunks | src/screens/FeedScreen.js:147-152 | four chunks are packed |
| FeedCodec.EncodeStyledContent | src/screens/FeedScreen.js:140-155 | the encoded post starts with `[[post:` and ends with the text unchanged |
| FeedCodec.ScaleReadsBack | src/screens/FeedScreen.js:150-185 | a stored scale written with two decimals reads back as itself rounded to hundredths |
| FeedCodec.PackedSplits | src/screens/FeedScreen.js:147-171 | the `packed` group of a safe meta contains no `]`, is trimmed, and splits back into its four chunks |
| FeedCodec.ParsePostMarker | src/screens/FeedScreen.js:157-187 | a `post` marker followed by a newline gives back the text after it and the meta its chunks set |
| FeedCodec.ApplyPackedChunks | src/screens/FeedScreen.js:172-185 | reading the four packed chunks over the defaults gives the safe meta with the scale rounded to hundredths |
| FeedCodec.RoundTrip | src/screens/FeedScreen.js:140-187 | parsing an encoded post gives back the text and the safe meta (scale rounded to hundredths) whenever the style and frame keys have no `]`, `;`, `\|` or edge blanks |
| FeedCodec.RoundTripOfOptions | src/screens/FeedScreen.js:140-187 | for every style and frame the picker offers, the text, style, frame and normalised colour survive the round trip |
| FeedCodec.BracketInKeyBreaksText | src/screens/FeedScreen.js:141-160 | a style key containing `]` is written as is, so the marker no longer matches and the parsed text is not the text written |
| Profile.ParseStyledText | src/screens/MyProfileScreen.js:11-16 | without a marker the text is unchanged; with one, the text is what follows the matched marker |
| Profile.ParseStyledTextAgrees | src/screens/MyProfileScreen.js:11-16 | the profile screen shows exactly the text the feed shows for the same post |
| Profile.ParseStyledTextStrips | src/screens/MyProfileScreen.js:13-15 | a well-formed marker is stripped together with at most one newline after it, and nothing else |
| Profile.MyPosts | src/screens/MyProfileScreen.js:187 | the shown posts keep the fetched order, and a post is shown exactly when its device id equals this device's, or it has no device id and its author name is the profile name |
| Profile.OtherDeviceNotMine | src/screens/MyProfileScreen.js:187 | a post from another device is never shown, whatever name it carries |
| Profile.MyPostsIdempotent | src/screens/MyProfileScreen.js:187 | filtering the shown posts again keeps them all |
| Audits.StripBom | scripts/_check_visible_translation.js:3 | one leading byte order mark is dropped and nothing else changes |
| Audits.Unmarked | scripts/_check_visible_translation.js:7-9 | the result holds no carriage return, zero-width character or markdown mark, adds only newlines, and text without those is unchanged |
| Audits.Clean | scripts/_check_visible_translation.js:5-12 | `clean` gives visible text (no hidden character, no two blanks or tabs in a row, trimmed), and a falsy value cleans to '' |
| Audits.CleanFixes | scripts/_check_visible_translation.js:5-12 | visible text cleans to itself |
| Audits.CleanIdempotent | scripts/_check_visible_translation.js:5-12 | cleaning a cleaned value changes nothing |
| Audits.JsDelimitedAt | scripts/_check_visible_translation.js:17-19 | a span matched at a position opens there, closes at the first character its body class excludes, and its body is at least 15 UTF-16 code units long, since `{15,}` without the `u` flag counts code units |
| Audits.FirstSpan | scripts/_check_visible_translation.js:17-19 | `match` finds the delimited span that starts first, and no earlier position starts one; the body length is counted in UTF-16 code units |
| Audits.Derive | scripts/_check_visible_translation.js:13-22 | the derived translation is visible text, and it is the cleaned translation whenever that is not empty |
| Audits.VisibleCounts | scripts/_check_visible_translation.js:23-24 | the visible count is the number of rows with a derived translation, and visible plus missing is the number of rows |
| Audits.VisibleCountsAll | scripts/_check_visible_translation.js:23-24 | nothing is missing exactly when every row derives a translation |
| Audits.EmptyRows | scripts/_audit_translations.js:5 | the empty rows are, in order, exactly the rows whose translation is blank after trimming |
| Audits.Hits | scripts/_audit_translations.js:6-8 | the hits are, in order, exactly the empty rows whose tafseer holds an underlined or quoted span of 15 or more UTF-16 code units |
| Audits.HitLines | scripts/_audit_translations.js:10-12 | at most 80 lines are printed, one per hit in order, each `surah:ayah pid:id` |
| Audits.RecoverableSpans | scripts/_audit_translations.js:6-8 | a row is recoverable exactly when its tafseer has an underscore or quote span whose body is at least 15 UTF-16 code units |
| Audits.DeriveFromTafseerIsRecoverable | scripts/_check_visible_translation.js:13-22 | a translation that `derive` recovers from the tafseer comes from a row the audit counts as recoverable |
| Audits.AstralSpanRecovered | scripts/_audit_translations.js:6 | eight `🌟` between underscores are 16 code units, so `derive` recovers them and the audit counts the row, though a count of code points (8) would not match |

## Left out

- **UI.** React rendering, navigation, modals, themes and the JSX of every screen are not modelled. They hold no rule that can be stated as a contract.
- **Database and network calls.** Supabase queries, upserts, deletes, upload history and undo in App.jsx, FeedScreen.js, MyProfileScreen.js and AppState.js are left out. They are calls into a backend that is not part of this model.
  - `AdminApp.UpsertRows` takes the stored rows that the fetch would return as a parameter.
  - `Profile.MyPosts` takes the fetched posts as a parameter. The fallback query without a device id column is left out.
- **Storage and file I/O.** The following are left out:
  - AsyncStorage `hydrate`/persist in AppState.js;
  - the `main` functions of scripts/admin_sync.py and format_ayahs.py, which read files and parse JSON;
  - the file reads and `JSON.parse` of the two audit scripts.
- **Values supplied from outside.** Rows, messages and posts are given to the model as values.
- **Clocks and randomness.** The timestamp stored by `setLastRead`, the generated device id (Date and Math.random), `ago` and the polling timers are left out.
- **Floating-point layout maths.** `getAutoScaleFromLength`, `buildTextStyle` and tile sizes are left out.
  - Feed.Fixed2ReadsBack: `toFixed(2)` is modelled on exact reals as rounding to the nearest hundredth, ties upward. Binary floating-point error is not modelled.
- Feed.NumberOf: JavaScript's `Number` on text is modelled for plain decimal text with an optional sign. Exponents, hexadecimal and `Infinity` read as NaN here.
- AdminApp.UploadSummary: `Number(x) || null` keeps a fraction or an infinity, since both are truthy, so the source logs for example `source_post_id=12.5`. The model's `NonInt` is falsy, so no post number is appended for it.
- AdminApp.UploadSummaryId: for the same reason a fractional post number reads back as nothing here. The source reads back its integer part, `12` for `12.5`.
- ParserRows.NormalizeIncomingRow: JavaScript numbers are `Int(i)` or `NonInt`. Every non-integer number is one value, so results that depend on which fraction came in are not distinguished. Text with an all-zero fraction (`3.0`) is an integer, as in JavaScript.
- JsValues.StringToNumber: exponent (`3e0`), hexadecimal, binary and octal (`0x1F`) and `Infinity` text read as `NonInt`. JavaScript reads the first two as numbers, so a juz written `3e0` is dropped here but kept by the source.
- JsValues.StringToNumber: JavaScript numbers are doubles, while `Int(i)` is exact. A digit run above 2^53 (9007199254740992) is rounded by the source and kept exactly here, and a fraction whose non-zero digits lie beyond double precision (`3.00000000000000001`) reads as the integer 3 in the source but as `NonInt` here.
- JsValues.StringToNumberZeroFraction: exact only for values up to 2^53; above that the source's number is the nearest double, not the digits' value.
- JsValues.UnsignedFraction: holds for the model's exact reading. In the source a non-zero fraction digit beyond double precision is lost, so such text reads as an integer.
- ParserRows.OptionalIntOfZeroFraction: exact only for values up to 2^53, because the source rounds longer digit runs to the nearest double.
- ParserRows.OptionalIntOfFraction: holds for the model's exact reading. In the source `3.00000000000000001` is the integer 3, so such a juz is kept rather than dropped.
- AdminApp.ExtractSourcePostIdFromSummary: the id is the exact value of the digits. The source's `Number(match[1])` rounds a digit run above 2^53 to the nearest double.
- AdminApp.SuffixRoundTrip: exact only for post ids up to 2^53. The source also writes a number of 10^21 or more as `1e+21`, whose digits before `e` read back as 1.
- AdminApp.SummaryRoundTrip: for the same reasons the round trip holds in the source only for post numbers up to 2^53; from 10^21 the logged `1e+21` reads back as 1.
- AdminApp.UpsertRows: the summary's post number reads back as stated only below 2^53, for the reasons given under AdminApp.SummaryRoundTrip.
- AppState.SetProfileName: a truthy value that is not a string (a number, an object) makes `(name || '').trim()` throw a TypeError in the source; the model stores its `String()` text instead. The app passes it whatever the name screen submits (App.js:70); that screen is not part of this model, so whether a non-string can arrive is not decided here.
- AppState.ProfileSetupComplete: states the outcome of the model's `SetProfileName`; for a truthy non-string name the source throws instead, as said above.
- QuranData.FilterSurahs: a truthy `surah_name` that is not a string makes `.toLowerCase()` throw a TypeError in the source; the model matches against its `String()` text. The model has no error outcome for these filters, so it cannot say the filter fails there.
- QuranData.FilterAyahs: likewise a truthy non-string `arabic_text`, `translation` or `tafseer` throws in the source and is matched by its `String()` text here.
- **Character handling.**
  - Case-insensitive matching, `toLowerCase`, `str.lower` and `str.title` are modelled on ASCII letters only. Other scripts keep their case.
  - JavaScript `.length` counts UTF-16 code units. Python `len` counts code points.
- SyncFlow.NormalizeTafseerFlow: the `bullet_start` and `continuation_marker` patterns of `normalize_tafseer_flow` are parameters, not literal regular expressions. Their emoji sets and Unicode `\d` are not reproduced.
- **scripts/admin_sync_stub.py and src/theme.js.** The first is a placeholder. The second holds only static colour tables.
- FeedCodec.RoundTrip: the round trip is proved for style and frame keys that hold no `]`, `;` or `|` and no surrounding blanks. Every key the post composer offers is such a key (`FeedCodec.RoundTripOfOptions`). For any other key the text is not always preserved, and `FeedCodec.BracketInKeyBreaksText` exhibits a failing key.
- ParserText.NormalizeArabicText: this is not idempotent, and no idempotence is claimed. The bullet strip runs before the emoji removal, so `"🌟-x"` becomes `"-x"` and then `"x"` (`ParserText.NormalizeArabicTextNotIdempotent`). It is a fixed point only on text that does not start with a bullet glyph.
- TextCleaner.StripStars: the model works on whole code points. The star class of src/utils/textCleaner.js:46 has no `u` flag, so it holds the two UTF-16 halves of `🌟` (D83C and DF1F) on their own. The source turns the high half of every character from U+1F000 to U+1F3FF, and the low half of every character encoded with DF1F, into a space and splits the character. The model keeps such characters whole.
- TextCleaner.CleanArabicText: for the same reason, the characters from U+1F000 to U+1F2FF survive `cleanBase` and are split by the source but kept by the model. These are mahjong and domino tiles, playing cards, enclosed letters and the regional indicators that make up flags such as 🇸🇦. The contract is proved for the code-point reading.
- TextCleaner.CleanArabicTextOfPlain: besides having no star mark, the cleaned text must hold no character that the star class splits (`TextCleaner.HasStarHalf`). On any other text the source and the model differ.
- TextCleaner.CleanArabicText: this is not idempotent either. Removing a star can leave a space at the start of a line that the next pass removes, for example `"a\n* b"`. Only its output shape is proved.
- ParserRows.DedupeRows: on a score tie the later row wins, because the code compares with `>=`. The model follows the code rather than keeping the first row seen.
- FormatAyahs.HeaderAt: Python's `\d` matches every Unicode decimal digit, and its `\b` treats every Unicode letter and digit as a word character. Here the digits are the ASCII, Arabic-Indic and Persian ones, and the word characters are those digits, ASCII letters, `_` and the Arabic letters U+0621 to U+064A (`FormatAyahs.IsWordChar`). Headers with other digits, or next to letters of other scripts, are read differently.
- FormatAyahs.SurahNumberAt: the same narrower `\d` and `\b` apply.
- SyncScan.AyahAt: the same narrower `\d` applies, through `SyncScan.IsHeaderDigit`.
- FormatAyahs.AyatNotRecognised: the verse-header pattern of format_ayahs.py does not accept the one-`a` spelling `Ayat No.`. This is proved as written and not treated as a defect, because the posts use `Aayat`.

## Findings

| source | as written | input that shows it | evidently intended | confidence | as-written member | corrected member |
|---|---|---|---|---|---|---|
| format_ayahs.py:27-29 | `[^\n\r:]*` is greedy, and the name class `[A-Za-z\-\'\s]` holds the line break. On a surah line with no colon the star takes the whole line, so the name is cut from the end of that line or read past its line break | `Surah 2 Al-Baqarah` followed by the line `Aayat No. 1` gives the name `Aayat No`. That name has three or more characters, so the `Al-Baqarah` fallback for surah 2 does not replace it | the name on the surah line: a lazy `[^\n\r:]*?` and a name class without line breaks, giving `Al-Baqarah` | not executed; high, the regex semantics are unambiguous | FormatAyahs.GreedyNameUsual | FormatAyahs.LazyNameAfterNumber |

The carried surah name in `FormatAyahs.Update` is read with the pattern as written, so the model gives the names the source gives. `FormatAyahs.GreedyNameKeepsTail` shows the other case, a text ending in `Surah Al-Baqarah`, which gives `ah`. `FormatAyahs.LazyNameAfterNumber`, `FormatAyahs.LazyNameUsual` and `FormatAyahs.LazyNameRecognised` state what the corrected pattern reads instead.
