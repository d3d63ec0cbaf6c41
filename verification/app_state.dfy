/**
 * The reading app's state rules (`src/state/AppState.js`): the verse key, the
 * merge of the rows bundled with the app with the rows fetched from the
 * database, bookmarks, the theme and the profile fields. Storage, the fetch
 * itself and React's state hooks are not modelled: each state update is a
 * function from the old value to the new one.
 */
module AppState {
  import opened Base
  import opened Chars
  import opened Strings
  import opened Sorting
  import opened Assoc
  import opened JsValues
  import opened KeyedFold
  import Seqs
  import AdminApp
  import opened QuranData

  // ---------------------------------------------------------------------
  // makeAyahKey
  // ---------------------------------------------------------------------

  /** `${surahNumber}:${ayahNumber}`. */
  function MakeAyahKey(surah: JsValue, ayah: JsValue): (k: string)
    ensures surah.Num? && ayah.Num? ==> k == PairKey(surah.n, ayah.n)
  {
    ToStr(surah) + ":" + ToStr(ayah)
  }

  /** Two numeric verse positions share a key exactly when they are the same position. */
  lemma MakeAyahKeyInjective(a: JsNum, b: JsNum, c: JsNum, d: JsNum)
    ensures MakeAyahKey(Num(a), Num(b)) == MakeAyahKey(Num(c), Num(d)) <==> a == c && b == d
  {
    PairKeyInjective(a, b, c, d);
  }

  // ---------------------------------------------------------------------
  // pickRicherText
  // ---------------------------------------------------------------------

  /** The app's normalisation: whitespace runs become one space and letters are
      lower-cased; unlike the admin panel's it does not trim. */
  function AppNorm(s: string): string {
    LowerStr(SquashRuns(s, IsJsSpace, ' '))
  }

  /** On a trimmed text the missing trim makes no difference. */
  lemma AppNormOfTrimmed(s: string)
    requires IsTrimmed(s, IsJsSpace)
    ensures AppNorm(s) == AdminApp.NormText(s)
  {
    var squashed := SquashRuns(s, IsJsSpace, ' ');
    if |s| > 0 {
      SquashRunsLast(s, IsJsSpace, ' ');
      assert IsTrimmed(squashed, IsJsSpace);
    }
  }

  /** `pickRicherText` of the app: of the two trimmed texts, the one that says more. */
  function PickRicherText(prevText: JsValue, nextText: JsValue): (r: string)
    ensures r == AdminApp.TrimmedText(prevText) || r == AdminApp.TrimmedText(nextText)
    ensures AdminApp.TrimmedText(prevText) == "" ==> r == AdminApp.TrimmedText(nextText)
    ensures AdminApp.TrimmedText(nextText) == "" ==> r == AdminApp.TrimmedText(prevText)
  {
    var a, b := JsTrim(TextOf(prevText)), JsTrim(TextOf(nextText));
    if a == "" then b
    else if b == "" then a
    else
      var an, bn := AppNorm(a), AppNorm(b);
      if an == bn then (if Utf16Length(a) >= Utf16Length(b) then a else b)
      else if Contains(an, bn) then a
      else if Contains(bn, an) then b
      else if Utf16Length(a) >= Utf16Length(b) then a
      else b
  }

  /** The app and the admin panel pick the same text for every pair of values. */
  lemma PickRicherTextAgrees(prevText: JsValue, nextText: JsValue)
    ensures PickRicherText(prevText, nextText) == AdminApp.PickRicherText(prevText, nextText)
  {
    var a, b := JsTrim(TextOf(prevText)), JsTrim(TextOf(nextText));
    AppNormOfTrimmed(a);
    AppNormOfTrimmed(b);
  }

  // ---------------------------------------------------------------------
  // mergeAyahRows
  // ---------------------------------------------------------------------

  /** Stores five properties one after the other. */
  function WithFive(m: JsObject, v1: JsValue, v2: JsValue, v3: JsValue, v4: JsValue, v5: JsValue): JsObject {
    Put(Put(Put(Put(Put(m, "arabic_text", v1), "translation", v2), "tafseer", v3), "surah_name", v4), "source_post_id", v5)
  }

  /** The five properties the app's merge computes itself. */
  predicate IsMergedKey(k: string) {
    k == "arabic_text" || k == "translation" || k == "tafseer" || k == "surah_name" || k == "source_post_id"
  }

  /** Reading through the five stores. */
  lemma WithFiveProp(m: JsObject, v1: JsValue, v2: JsValue, v3: JsValue, v4: JsValue, v5: JsValue, k: string)
    ensures Prop(WithFive(m, v1, v2, v3, v4, v5), k) ==
      if k == "source_post_id" then v5 else if k == "surah_name" then v4 else if k == "tafseer" then v3
      else if k == "translation" then v2 else if k == "arabic_text" then v1 else Prop(m, k)
  {
    var m1 := Put(m, "arabic_text", v1);
    var m2 := Put(m1, "translation", v2);
    var m3 := Put(m2, "tafseer", v3);
    var m4 := Put(m3, "surah_name", v4);
    PutGet(m, "arabic_text", v1, k);
    PutGet(m1, "translation", v2, k);
    PutGet(m2, "tafseer", v3, k);
    PutGet(m3, "surah_name", v4, k);
    PutGet(m4, "source_post_id", v5, k);
  }

  /** The app's merge of a fetched row into the row already held for its verse: the held
      row's properties overwritten by the fetched row's, then the three texts picked by
      `pickRicherText`, the name taken from the fetched row, else the held one, else
      "Surah N", and the post id from the fetched row unless missing, then the held one,
      then null. */
  function MergeRow(prev: JsObject, row: JsObject): JsObject {
    WithFive(Spread(prev, row),
      Str(PickRicherText(Prop(prev, "arabic_text"), Prop(row, "arabic_text"))),
      Str(PickRicherText(Prop(prev, "translation"), Prop(row, "translation"))),
      Str(PickRicherText(Prop(prev, "tafseer"), Prop(row, "tafseer"))),
      Or(Or(Prop(row, "surah_name"), Prop(prev, "surah_name")), Str("Surah " + ToStr(Prop(row, "surah_number")))),
      Coalesce(Coalesce(Prop(row, "source_post_id"), Prop(prev, "source_post_id")), Null))
  }

  /** The merged texts are the richer ones, the commentary included: it is never joined. */
  lemma MergeRowTexts(prev: JsObject, row: JsObject)
    ensures Prop(MergeRow(prev, row), "arabic_text") == Str(PickRicherText(Prop(prev, "arabic_text"), Prop(row, "arabic_text")))
    ensures Prop(MergeRow(prev, row), "translation") == Str(PickRicherText(Prop(prev, "translation"), Prop(row, "translation")))
    ensures Prop(MergeRow(prev, row), "tafseer") == Str(PickRicherText(Prop(prev, "tafseer"), Prop(row, "tafseer")))
  {
    var base := Spread(prev, row);
    var v1 := Str(PickRicherText(Prop(prev, "arabic_text"), Prop(row, "arabic_text")));
    var v2 := Str(PickRicherText(Prop(prev, "translation"), Prop(row, "translation")));
    var v3 := Str(PickRicherText(Prop(prev, "tafseer"), Prop(row, "tafseer")));
    var v4 := Or(Or(Prop(row, "surah_name"), Prop(prev, "surah_name")), Str("Surah " + ToStr(Prop(row, "surah_number"))));
    var v5 := Coalesce(Coalesce(Prop(row, "source_post_id"), Prop(prev, "source_post_id")), Null);
    WithFiveProp(base, v1, v2, v3, v4, v5, "arabic_text");
    WithFiveProp(base, v1, v2, v3, v4, v5, "translation");
    WithFiveProp(base, v1, v2, v3, v4, v5, "tafseer");
  }

  /** The merged name falls back to "Surah N"; the post id prefers the fetched row. */
  lemma MergeRowNameAndSource(prev: JsObject, row: JsObject)
    ensures Prop(MergeRow(prev, row), "surah_name") ==
      Or(Or(Prop(row, "surah_name"), Prop(prev, "surah_name")), Str("Surah " + ToStr(Prop(row, "surah_number"))))
    ensures Prop(MergeRow(prev, row), "source_post_id") ==
      Coalesce(Coalesce(Prop(row, "source_post_id"), Prop(prev, "source_post_id")), Null)
    ensures Truthy(Prop(MergeRow(prev, row), "surah_name"))
  {
    var base := Spread(prev, row);
    var v1 := Str(PickRicherText(Prop(prev, "arabic_text"), Prop(row, "arabic_text")));
    var v2 := Str(PickRicherText(Prop(prev, "translation"), Prop(row, "translation")));
    var v3 := Str(PickRicherText(Prop(prev, "tafseer"), Prop(row, "tafseer")));
    var v4 := Or(Or(Prop(row, "surah_name"), Prop(prev, "surah_name")), Str("Surah " + ToStr(Prop(row, "surah_number"))));
    var v5 := Coalesce(Coalesce(Prop(row, "source_post_id"), Prop(prev, "source_post_id")), Null);
    WithFiveProp(base, v1, v2, v3, v4, v5, "surah_name");
    WithFiveProp(base, v1, v2, v3, v4, v5, "source_post_id");
  }

  /** Every other property comes from the fetched row when it has it, and from the held
      row otherwise. */
  lemma MergeRowOthers(prev: JsObject, row: JsObject, k: string)
    requires UniqueKeys(row) && !IsMergedKey(k)
    ensures Prop(MergeRow(prev, row), k) == if HasKey(row, k) then Prop(row, k) else Prop(prev, k)
  {
    var base := Spread(prev, row);
    var v1 := Str(PickRicherText(Prop(prev, "arabic_text"), Prop(row, "arabic_text")));
    var v2 := Str(PickRicherText(Prop(prev, "translation"), Prop(row, "translation")));
    var v3 := Str(PickRicherText(Prop(prev, "tafseer"), Prop(row, "tafseer")));
    var v4 := Or(Or(Prop(row, "surah_name"), Prop(prev, "surah_name")), Str("Surah " + ToStr(Prop(row, "surah_number"))));
    var v5 := Coalesce(Coalesce(Prop(row, "source_post_id"), Prop(prev, "source_post_id")), Null);
    WithFiveProp(base, v1, v2, v3, v4, v5, k);
    SpreadGet(prev, row, k);
  }

  /** A single lower-case letter is its own normal form. */
  lemma NormTextOfLetter(c: char)
    requires 'a' <= c <= 'z'
    ensures AdminApp.NormText([c]) == [c]
  {
    assert !IsJsSpace(c);
    assert SquashRuns([c], IsJsSpace, ' ') == [c];
    assert LowerStr([c]) == [c];
  }

  /** A one-letter text contains no other one-letter text. */
  lemma NotContainsOther(x: char, y: char)
    requires x != y
    ensures !Contains([x], [y])
  {
    assert forall i :: OccursAt([x], [y], i) ==> [x][i..i + 1] == [x];
  }

  /** "a" and "b" are non-empty trimmed texts neither of which contains the other. */
  lemma UnrelatedPair()
    ensures AdminApp.TrimmedText(Str("a")) == "a" && AdminApp.TrimmedText(Str("b")) == "b"
    ensures !AdminApp.Nested("a", "b")
  {
    NormTextOfLetter('a');
    NormTextOfLetter('b');
    NotContainsOther('a', 'b');
    NotContainsOther('b', 'a');
  }

  /** The admin panel keeps both of two unrelated commentaries, joined by a blank line. */
  lemma AdminJoinsUnrelated()
    ensures AdminApp.AppendUniqueTafseer(Str("a"), Str("b")) == "a\n\nb"
  {
    AdminJoinsLetters();
    LettersJoined();
  }

  /** The admin panel joins the two letters. */
  lemma AdminJoinsLetters()
    ensures AdminApp.AppendUniqueTafseer(Str("a"), Str("b")) == "a" + "\n\n" + "b"
  {
    UnrelatedPair();
    assert AdminApp.AppendUniqueTafseer(Str("a"), Str("b")) == AdminApp.AppendUnique("a", "b");
  }

  /** The joined letters, spelled out. */
  lemma LettersJoined()
    ensures "a" + "\n\n" + "b" == "a\n\nb"
  {
  }

  /** The app keeps only one of the same two: the first, as they are equally long. */
  lemma AppKeepsOneOfUnrelated()
    ensures PickRicherText(Str("a"), Str("b")) == "a"
  {
    UnrelatedPair();
    PickRicherTextAgrees(Str("a"), Str("b"));
  }

  /** The key a row is stored under. */
  function RowKeyOf(row: JsObject): string {
    MakeAyahKey(Prop(row, "surah_number"), Prop(row, "ayah_number"))
  }

  /** A row on its way into the map, marked with where it came from. */
  datatype TaggedRow<R> = TaggedRow(remote: bool, row: R)

  type Tagged = TaggedRow<JsObject>

  function TagKey(t: Tagged): string { RowKeyOf(t.row) }

  /** What storing `t` does to the row held under its key: a bundled row replaces it, a
      fetched row is merged into it. */
  function Absorb(prev: Tagged, t: Tagged): (r: Tagged)
    ensures !t.remote ==> r == t
    ensures t.remote ==> r.row == MergeRow(prev.row, t.row)
  {
    if t.remote then TaggedRow(true, MergeRow(prev.row, t.row)) else t
  }

  /** The rows that pass `ok`, in order, marked with their origin. */
  function TagWhere<R>(rows: seq<R>, remote: bool, ok: R -> bool): (ts: seq<TaggedRow<R>>)
    ensures |ts| <= |rows|
    ensures forall t :: t in ts ==> t.remote == remote && t.row in rows && ok(t.row)
  {
    if |rows| == 0 then []
    else
      var n := |rows| - 1;
      TagWhere(rows[..n], remote, ok) + (if ok(rows[n]) then [TaggedRow(remote, rows[n])] else [])
  }

  /** Every row that passes is fed in. */
  lemma {:induction false} TagWhereHas<R>(rows: seq<R>, remote: bool, ok: R -> bool, i: nat)
    requires i < |rows| && ok(rows[i])
    ensures TaggedRow(remote, rows[i]) in TagWhere(rows, remote, ok)
  {
    var n := |rows| - 1;
    if i < n {
      TagWhereHas(rows[..n], remote, ok, i);
    }
  }

  /** When only the row at `a` has its key among the rows that pass, it is the only
      fed-in row with that key. */
  lemma {:induction false} TagWhereSingle<R, K>(rows: seq<R>, remote: bool, ok: R -> bool, key: TaggedRow<R> -> K, a: nat)
    requires a < |rows| && ok(rows[a])
    requires forall i :: 0 <= i < |rows| && i != a && ok(rows[i]) ==>
      key(TaggedRow(remote, rows[i])) != key(TaggedRow(remote, rows[a]))
    ensures WithKey(TagWhere(rows, remote, ok), key, key(TaggedRow(remote, rows[a]))) == [TaggedRow(remote, rows[a])]
  {
    var n := |rows| - 1;
    if a < n {
      var k := key(TaggedRow(remote, rows[a]));
      var init := rows[..n];
      TagWhereWithKey(rows, remote, ok, key, k);
      assert key(TaggedRow(remote, rows[n])) != k || !ok(rows[n]);
      assert init[a] == rows[a];
      forall i | 0 <= i < |init| && i != a && ok(init[i])
        ensures key(TaggedRow(remote, init[i])) != key(TaggedRow(remote, init[a]))
      {
        assert init[i] == rows[i];
      }
      TagWhereSingle(init, remote, ok, key, a);
    } else {
      TagWhereSingleLast(rows, remote, ok, key);
    }
  }

  /** The case of `TagWhereSingle` where the row is the last one. */
  lemma TagWhereSingleLast<R, K>(rows: seq<R>, remote: bool, ok: R -> bool, key: TaggedRow<R> -> K)
    requires |rows| > 0 && ok(rows[|rows| - 1])
    requires forall i :: 0 <= i < |rows| - 1 && ok(rows[i]) ==>
      key(TaggedRow(remote, rows[i])) != key(TaggedRow(remote, rows[|rows| - 1]))
    ensures var t := TaggedRow(remote, rows[|rows| - 1]);
      WithKey(TagWhere(rows, remote, ok), key, key(t)) == [t]
  {
    var n := |rows| - 1;
    var k := key(TaggedRow(remote, rows[n]));
    var init := rows[..n];
    TagWhereWithKey(rows, remote, ok, key, k);
    forall i | 0 <= i < |init| && ok(init[i]) ensures key(TaggedRow(remote, init[i])) != k {
      assert init[i] == rows[i];
    }
    TagWhereNone(init, remote, ok, key, k);
  }

  /** The fed-in rows with key `k`: those of all rows but the last, then the last row
      when it passes and has that key. */
  lemma TagWhereWithKey<R, K>(rows: seq<R>, remote: bool, ok: R -> bool, key: TaggedRow<R> -> K, k: K)
    requires |rows| > 0
    ensures var n := |rows| - 1; var t := TaggedRow(remote, rows[n]);
      WithKey(TagWhere(rows, remote, ok), key, k) ==
        WithKey(TagWhere(rows[..n], remote, ok), key, k) + (if ok(rows[n]) && key(t) == k then [t] else [])
  {
    var n := |rows| - 1;
    var init := TagWhere(rows[..n], remote, ok);
    var last := if ok(rows[n]) then [TaggedRow(remote, rows[n])] else [];
    assert TagWhere(rows, remote, ok) == init + last;
    WithKeyAppend(init, last, key, k);
    WithKeyOfLast(TaggedRow(remote, rows[n]), ok(rows[n]), key, k);
  }

  /** The rows with key `k` among at most one row. */
  lemma WithKeyOfLast<R, K>(t: TaggedRow<R>, keep: bool, key: TaggedRow<R> -> K, k: K)
    ensures WithKey(if keep then [t] else [], key, k) == if keep && key(t) == k then [t] else []
  {
    if keep {
      assert [t][..0] == [];
    }
  }

  /** No fed-in row has key `k` when no row that passes has it. */
  lemma {:induction false} TagWhereNone<R, K>(rows: seq<R>, remote: bool, ok: R -> bool, key: TaggedRow<R> -> K, k: K)
    requires forall i :: 0 <= i < |rows| && ok(rows[i]) ==> key(TaggedRow(remote, rows[i])) != k
    ensures WithKey(TagWhere(rows, remote, ok), key, k) == []
  {
    if |rows| > 0 {
      var n := |rows| - 1;
      var last := if ok(rows[n]) then [TaggedRow(remote, rows[n])] else [];
      TagWhereNone(rows[..n], remote, ok, key, k);
      WithKeyAppend(TagWhere(rows[..n], remote, ok), last, key, k);
      if |last| > 0 {
        assert last[..0] == [];
      }
    }
  }

  /** What goes into the map: the bundled rows first, then the fetched ones. */
  function Feed(localRows: seq<JsObject>, remoteRows: seq<JsObject>): seq<Tagged> {
    TagWhere(localRows, false, HasIntVerse) + TagWhere(remoteRows, true, HasIntVerse)
  }

  /** The map from verse key to row. */
  function MergeMap(localRows: seq<JsObject>, remoteRows: seq<JsObject>): seq<(string, Tagged)> {
    FoldByKey(Feed(localRows, remoteRows), TagKey, Absorb)
  }

  /** `mergeAyahRows`: with no fetched rows (or a value that is not an array) the bundled
      rows as they are; otherwise one row per verse key, in the order keys first appear. */
  function MergeAyahRows(localRows: seq<JsObject>, remoteRows: Option<seq<JsObject>>): (out: seq<JsObject>)
    ensures remoteRows.None? || remoteRows.value == [] ==> out == localRows
    ensures remoteRows.Some? && remoteRows.value != [] ==> |out| <= |localRows| + |remoteRows.value|
  {
    if remoteRows.None? || |remoteRows.value| == 0 then localRows
    else
      var m := MergeMap(localRows, remoteRows.value);
      FoldByKeyUnique(Feed(localRows, remoteRows.value), TagKey, Absorb);
      seq(|m|, i requires 0 <= i < |m| => m[i].1.row)
  }

  /** With fetched rows, the output is the map's rows in key order. */
  lemma MergeAyahRowsOfMap(localRows: seq<JsObject>, remoteRows: seq<JsObject>)
    requires |remoteRows| > 0
    ensures |MergeAyahRows(localRows, Some(remoteRows))| == |MergeMap(localRows, remoteRows)|
    ensures forall i :: 0 <= i < |MergeMap(localRows, remoteRows)| ==>
      MergeAyahRows(localRows, Some(remoteRows))[i] == MergeMap(localRows, remoteRows)[i].1.row
  {
  }

  /** Rows read from JSON: no property twice. */
  predicate WellFormed(rows: seq<JsObject>) {
    forall i :: 0 <= i < |rows| ==> UniqueKeys(rows[i])
  }

  /** Merging keeps the fetched row's verse numbers. */
  lemma MergeRowVerse(prev: JsObject, row: JsObject)
    requires UniqueKeys(row) && HasIntVerse(row)
    ensures Prop(MergeRow(prev, row), "surah_number") == Prop(row, "surah_number")
    ensures Prop(MergeRow(prev, row), "ayah_number") == Prop(row, "ayah_number")
  {
    MergeRowKeepsNumber(prev, row, "surah_number");
    MergeRowKeepsNumber(prev, row, "ayah_number");
  }

  lemma MergeRowKeepsNumber(prev: JsObject, row: JsObject, k: string)
    requires UniqueKeys(row) && IsIntegerValue(Prop(row, k))
    requires k == "surah_number" || k == "ayah_number"
    ensures Prop(MergeRow(prev, row), k) == Prop(row, k)
  {
    MergeRowKeeps(prev, row, k);
  }

  /** A property of the fetched row that the merge does not compute is kept. */
  lemma MergeRowKeeps(prev: JsObject, row: JsObject, k: string)
    requires UniqueKeys(row) && HasKey(row, k) && !IsMergedKey(k)
    ensures Prop(MergeRow(prev, row), k) == Prop(row, k)
  {
    MergeRowOthers(prev, row, k);
  }

  /** A fed-in row with integer verse numbers. */
  predicate TagOk(t: Tagged) { HasIntVerse(t.row) }

  /** Storing a fed-in row leaves its key under that key, with integer verse numbers. */
  lemma AbsorbKeeps(localRows: seq<JsObject>, remoteRows: seq<JsObject>)
    requires WellFormed(localRows) && WellFormed(remoteRows)
    ensures forall p, t :: t in Feed(localRows, remoteRows) && TagOk(p) ==>
      TagOk(Absorb(p, t)) && TagKey(Absorb(p, t)) == TagKey(t)
  {
    forall p, t | t in Feed(localRows, remoteRows) && TagOk(p)
      ensures TagOk(Absorb(p, t)) && TagKey(Absorb(p, t)) == TagKey(t)
    {
      assert t.row in localRows || t.row in remoteRows;
      assert UniqueKeys(t.row) && HasIntVerse(t.row);
      if t.remote {
        MergeRowVerse(p.row, t.row);
      }
    }
  }

  /** Each entry of the map holds the fold of `Absorb` over the fed-in rows with its key,
      and that row carries the key. */
  lemma MergeMapEntry(localRows: seq<JsObject>, remoteRows: seq<JsObject>, i: nat)
    requires WellFormed(localRows) && WellFormed(remoteRows)
    requires i < |MergeMap(localRows, remoteRows)|
    ensures var m := MergeMap(localRows, remoteRows);
      var s := WithKey(Feed(localRows, remoteRows), TagKey, m[i].0);
      |s| > 0 && m[i].1 == ReduceLeft(Absorb, s) && TagKey(m[i].1) == m[i].0 && HasIntVerse(m[i].1.row)
  {
    var xs := Feed(localRows, remoteRows);
    AbsorbKeeps(localRows, remoteRows);
    FoldByKeyEntry(xs, TagKey, Absorb, TagOk, i);
  }

  /** With fetched rows, every output row has integer verse numbers, no two output rows
      share a verse key, and each is the fold of the merge over the rows of its key,
      bundled rows first, in input order. */
  lemma MergeAyahRowsKeys(localRows: seq<JsObject>, remoteRows: seq<JsObject>)
    requires WellFormed(localRows) && WellFormed(remoteRows) && |remoteRows| > 0
    ensures var out := MergeAyahRows(localRows, Some(remoteRows));
      (forall i :: 0 <= i < |out| ==> HasIntVerse(out[i])) &&
      (forall i, j :: 0 <= i < j < |out| ==> RowKeyOf(out[i]) != RowKeyOf(out[j])) &&
      (forall i :: 0 <= i < |out| ==>
        |WithKey(Feed(localRows, remoteRows), TagKey, RowKeyOf(out[i]))| > 0 &&
        out[i] == ReduceLeft(Absorb, WithKey(Feed(localRows, remoteRows), TagKey, RowKeyOf(out[i]))).row)
  {
    var m := MergeMap(localRows, remoteRows);
    var out := MergeAyahRows(localRows, Some(remoteRows));
    FoldByKeyUnique(Feed(localRows, remoteRows), TagKey, Absorb);
    forall i | 0 <= i < |out|
      ensures HasIntVerse(out[i]) && RowKeyOf(out[i]) == m[i].0
      ensures |WithKey(Feed(localRows, remoteRows), TagKey, RowKeyOf(out[i]))| > 0
      ensures out[i] == ReduceLeft(Absorb, WithKey(Feed(localRows, remoteRows), TagKey, RowKeyOf(out[i]))).row
    {
      MergeMapEntry(localRows, remoteRows, i);
    }
  }

  /** Every bundled or fetched row with integer verse numbers has an output row with its
      key; rows without them are dropped. */
  lemma MergeAyahRowsCover(localRows: seq<JsObject>, remoteRows: seq<JsObject>, x: JsObject)
    requires WellFormed(localRows) && WellFormed(remoteRows)
    requires |remoteRows| > 0 && (x in localRows || x in remoteRows) && HasIntVerse(x)
    ensures exists i :: (0 <= i < |MergeAyahRows(localRows, Some(remoteRows))| &&
      RowKeyOf(MergeAyahRows(localRows, Some(remoteRows))[i]) == RowKeyOf(x))
  {
    var xs := Feed(localRows, remoteRows);
    var m := MergeMap(localRows, remoteRows);
    FeedHas(localRows, remoteRows, x);
    FoldByKeyHas(xs, TagKey, Absorb, RowKeyOf(x));
    var i :| 0 <= i < |m| && m[i].0 == RowKeyOf(x);
    MergeMapEntry(localRows, remoteRows, i);
    var out := MergeAyahRows(localRows, Some(remoteRows));
    MergeAyahRowsOfMap(localRows, remoteRows);
    assert out[i] == m[i].1.row;
    assert RowKeyOf(out[i]) == RowKeyOf(x);
  }

  /** Every bundled or fetched row with integer verse numbers is fed in. */
  lemma FeedHas(localRows: seq<JsObject>, remoteRows: seq<JsObject>, x: JsObject)
    requires (x in localRows || x in remoteRows) && HasIntVerse(x)
    ensures exists j :: 0 <= j < |Feed(localRows, remoteRows)| && TagKey(Feed(localRows, remoteRows)[j]) == RowKeyOf(x)
  {
    var xs := Feed(localRows, remoteRows);
    var t: Tagged;
    if x in localRows {
      var a :| 0 <= a < |localRows| && localRows[a] == x;
      TagWhereHas(localRows, false, HasIntVerse, a);
      t := TaggedRow(false, x);
    } else {
      var a :| 0 <= a < |remoteRows| && remoteRows[a] == x;
      TagWhereHas(remoteRows, true, HasIntVerse, a);
      t := TaggedRow(true, x);
    }
    assert t in xs;
    var j :| 0 <= j < |xs| && xs[j] == t;
    assert TagKey(xs[j]) == RowKeyOf(x);
  }

  /** A verse with exactly one bundled and one fetched row gets the merge of the two. */
  lemma MergeAyahRowsPair(localRows: seq<JsObject>, remoteRows: seq<JsObject>, a: nat, b: nat)
    requires WellFormed(localRows) && WellFormed(remoteRows)
    requires a < |localRows| && b < |remoteRows|
    requires HasIntVerse(localRows[a]) && HasIntVerse(remoteRows[b])
    requires RowKeyOf(localRows[a]) == RowKeyOf(remoteRows[b])
    requires forall i :: 0 <= i < |localRows| && i != a && HasIntVerse(localRows[i]) ==>
      RowKeyOf(localRows[i]) != RowKeyOf(localRows[a])
    requires forall i :: 0 <= i < |remoteRows| && i != b && HasIntVerse(remoteRows[i]) ==>
      RowKeyOf(remoteRows[i]) != RowKeyOf(remoteRows[b])
    ensures MergeRow(localRows[a], remoteRows[b]) in MergeAyahRows(localRows, Some(remoteRows))
  {
    PairReduce(localRows, remoteRows, a, b);
    var i := MergeAyahRowsAt(localRows, remoteRows, localRows[a]);
    var out := MergeAyahRows(localRows, Some(remoteRows));
    assert out[i] in out;
  }

  /** Folding the two rows of the key gives the stored row merged with the fetched one. */
  lemma PairReduce(localRows: seq<JsObject>, remoteRows: seq<JsObject>, a: nat, b: nat)
    requires a < |localRows| && b < |remoteRows|
    requires HasIntVerse(localRows[a]) && HasIntVerse(remoteRows[b])
    requires RowKeyOf(localRows[a]) == RowKeyOf(remoteRows[b])
    requires forall i :: 0 <= i < |localRows| && i != a && HasIntVerse(localRows[i]) ==>
      RowKeyOf(localRows[i]) != RowKeyOf(localRows[a])
    requires forall i :: 0 <= i < |remoteRows| && i != b && HasIntVerse(remoteRows[i]) ==>
      RowKeyOf(remoteRows[i]) != RowKeyOf(remoteRows[b])
    ensures var s := WithKey(Feed(localRows, remoteRows), TagKey, RowKeyOf(localRows[a]));
      |s| > 0 && ReduceLeft(Absorb, s).row == MergeRow(localRows[a], remoteRows[b])
  {
    var l, r := TaggedRow(false, localRows[a]), TaggedRow(true, remoteRows[b]);
    PairFeed(localRows, remoteRows, HasIntVerse, TagKey, a, b);
    var s := WithKey(Feed(localRows, remoteRows), TagKey, RowKeyOf(localRows[a]));
    assert s == [l, r];
    assert s[..1] == [l];
    assert ReduceLeft(Absorb, s) == Absorb(l, r);
  }

  /** The output row under the key of a fed-in row `x`, and how it was folded. */
  lemma MergeAyahRowsAt(localRows: seq<JsObject>, remoteRows: seq<JsObject>, x: JsObject) returns (i: nat)
    requires WellFormed(localRows) && WellFormed(remoteRows)
    requires |remoteRows| > 0 && (x in localRows || x in remoteRows) && HasIntVerse(x)
    ensures var out := MergeAyahRows(localRows, Some(remoteRows));
      var s := WithKey(Feed(localRows, remoteRows), TagKey, RowKeyOf(x));
      i < |out| && |s| > 0 && out[i] == ReduceLeft(Absorb, s).row
  {
    MergeAyahRowsCover(localRows, remoteRows, x);
    var out := MergeAyahRows(localRows, Some(remoteRows));
    i :| 0 <= i < |out| && RowKeyOf(out[i]) == RowKeyOf(x);
    MergeAyahRowsKeys(localRows, remoteRows);
  }

  /** When each side has one row of a key, the rows fed in for that key are the two of
      them, bundled first. */
  lemma PairFeed<R, K>(ls: seq<R>, rs: seq<R>, ok: R -> bool, key: TaggedRow<R> -> K, a: nat, b: nat)
    requires a < |ls| && b < |rs| && ok(ls[a]) && ok(rs[b])
    requires key(TaggedRow(false, ls[a])) == key(TaggedRow(true, rs[b]))
    requires forall i :: 0 <= i < |ls| && i != a && ok(ls[i]) ==>
      key(TaggedRow(false, ls[i])) != key(TaggedRow(false, ls[a]))
    requires forall i :: 0 <= i < |rs| && i != b && ok(rs[i]) ==>
      key(TaggedRow(true, rs[i])) != key(TaggedRow(true, rs[b]))
    ensures WithKey(TagWhere(ls, false, ok) + TagWhere(rs, true, ok), key, key(TaggedRow(false, ls[a]))) ==
      [TaggedRow(false, ls[a]), TaggedRow(true, rs[b])]
  {
    var k := key(TaggedRow(false, ls[a]));
    TagWhereSingle(ls, false, ok, key, a);
    TagWhereSingle(rs, true, ok, key, b);
    WithKeyAppend(TagWhere(ls, false, ok), TagWhere(rs, true, ok), key, k);
  }

  // ---------------------------------------------------------------------
  // Bookmarks
  // ---------------------------------------------------------------------

  /** `isBookmarked`. */
  predicate IsBookmarked(bookmarks: JsObject, surah: JsValue, ayah: JsValue) {
    Truthy(Prop(bookmarks, MakeAyahKey(surah, ayah)))
  }

  /** `toggleBookmark`: the ayah's entry becomes the negation of its truthiness; every
      other entry stays. */
  function ToggleBookmark(bookmarks: JsObject, ayah: JsObject): (r: JsObject)
    ensures Prop(r, RowKeyOf(ayah)) == Bool(!Truthy(Prop(bookmarks, RowKeyOf(ayah))))
    ensures forall k :: k != RowKeyOf(ayah) ==> Prop(r, k) == Prop(bookmarks, k)
  {
    var key := RowKeyOf(ayah);
    var v := Bool(!Truthy(Prop(bookmarks, key)));
    assert forall k :: Prop(Put(bookmarks, key, v), k) == if k == key then v else Prop(bookmarks, k) by {
      forall k ensures Prop(Put(bookmarks, key, v), k) == if k == key then v else Prop(bookmarks, k) {
        PutGet(bookmarks, key, v, k);
      }
    }
    Put(bookmarks, key, v)
  }

  /** Toggling twice restores whether the ayah is bookmarked, and touches nothing else. */
  lemma ToggleBookmarkTwice(bookmarks: JsObject, ayah: JsObject)
    ensures var twice := ToggleBookmark(ToggleBookmark(bookmarks, ayah), ayah);
      Truthy(Prop(twice, RowKeyOf(ayah))) == Truthy(Prop(bookmarks, RowKeyOf(ayah))) &&
      forall k :: k != RowKeyOf(ayah) ==> Prop(twice, k) == Prop(bookmarks, k)
  {
  }

  /** The bookmark keys whose entry is truthy, in key order. */
  function MarkedKeys(bookmarks: JsObject): (ks: seq<string>)
    ensures forall k :: k in ks <==> HasKey(bookmarks, k) && Truthy(Prop(bookmarks, k))
  {
    var all := Keys(bookmarks);
    Seqs.Filter(all, k => Truthy(Prop(bookmarks, k)))
  }

  /** The ayahs of the given keys that the index has, in key order. */
  function Lookups(keys: seq<string>, ayahByKey: seq<(string, JsObject)>): (out: seq<JsObject>)
    ensures forall x :: x in out ==> exists k :: k in keys && Get(ayahByKey, k) == Some(x)
    ensures forall k :: k in keys && HasKey(ayahByKey, k) ==> Get(ayahByKey, k).value in out
  {
    if |keys| == 0 then []
    else
      var rest := Lookups(keys[1..], ayahByKey);
      assert forall k :: k in keys[1..] ==> k in keys;
      match Get(ayahByKey, keys[0])
      case Some(x) => [x] + rest
      case None => rest
  }

  /** `a.surah_number - b.surah_number || a.ayah_number - b.ayah_number`, with a NaN
      result read as 0 by the sort. */
  function CompareAyahs(a: JsObject, b: JsObject): int {
    var d := Difference(Prop(a, "surah_number"), Prop(b, "surah_number"));
    if d.Int? && d.i != 0 then d.i
    else
      var e := Difference(Prop(a, "ayah_number"), Prop(b, "ayah_number"));
      if e.Int? then e.i else 0
  }

  /** An ayah's (surah, ayah) as a sort key. */
  function VerseKey(a: JsObject): (key: seq<int>)
    ensures |key| == 2
  {
    [if IsIntegerValue(Prop(a, "surah_number")) then Prop(a, "surah_number").n.i else 0,
     if IsIntegerValue(Prop(a, "ayah_number")) then Prop(a, "ayah_number").n.i else 0]
  }

  /** `bookmarkedAyahs`: the indexed ayahs of the truthy bookmark keys, ordered by the
      comparator. */
  function BookmarkedAyahs(bookmarks: JsObject, ayahByKey: seq<(string, JsObject)>): (out: seq<JsObject>)
    ensures forall x :: x in out ==> exists k :: HasKey(bookmarks, k) && Truthy(Prop(bookmarks, k)) && Get(ayahByKey, k) == Some(x)
    ensures forall k :: HasKey(bookmarks, k) && Truthy(Prop(bookmarks, k)) && HasKey(ayahByKey, k) ==>
      Get(ayahByKey, k).value in out
  {
    var picked := Lookups(MarkedKeys(bookmarks), ayahByKey);
    var out := SortBy(picked, CompareAyahs);
    assert forall x :: x in out <==> x in picked by {
      assert forall x :: x in out <==> x in multiset(out);
    }
    out
  }

  /** On ayahs with integer verse numbers the comparator orders by surah, then ayah. */
  lemma CompareAyahsIsLex(a: JsObject, b: JsObject)
    requires HasIntVerse(a) && HasIntVerse(b)
    ensures CompareAyahs(a, b) == Lex(VerseKey(a), VerseKey(b))
  {
    var ka, kb := VerseKey(a), VerseKey(b);
    assert ka[1..][1..] == [] && kb[1..][1..] == [];
    assert Lex(ka[1..], kb[1..]) == if ka[1] != kb[1] then ka[1] - kb[1] else 0;
  }

  /** When every indexed ayah has integer verse numbers, the bookmarks come out in
      (surah, ayah) order. */
  lemma BookmarkedAyahsSorted(bookmarks: JsObject, ayahByKey: seq<(string, JsObject)>)
    requires forall i :: 0 <= i < |ayahByKey| ==> HasIntVerse(ayahByKey[i].1)
    ensures SortedByKey(BookmarkedAyahs(bookmarks, ayahByKey), VerseKey)
  {
    var picked := Lookups(MarkedKeys(bookmarks), ayahByKey);
    forall x | x in picked ensures HasIntVerse(x) {
      var k :| k in MarkedKeys(bookmarks) && Get(ayahByKey, k) == Some(x);
      var j :| 0 <= j < |ayahByKey| && ayahByKey[j] == (k, x);
    }
    forall a, b | a in picked && b in picked ensures CompareAyahs(a, b) == Lex(VerseKey(a), VerseKey(b)) {
      CompareAyahsIsLex(a, b);
    }
    SortBySorted(picked, CompareAyahs, VerseKey, 2);
  }

  /** The bookmarks screen over the app's own index comes out in (surah, ayah) order. */
  lemma BookmarksOfIndexSorted(bookmarks: JsObject, rows: seq<JsObject>)
    ensures SortedByKey(BookmarkedAyahs(bookmarks, BuildQuranIndex(rows).ayahByKey), VerseKey)
  {
    var clean := CleanRows(rows);
    var byKey := BuildQuranIndex(rows).ayahByKey;
    assert byKey == FoldByKey(clean, AyahKey, Later);
    FoldLaterValues(clean, AyahKey);
    forall i | 0 <= i < |byKey| ensures HasIntVerse(byKey[i].1) {
      assert byKey[i] in byKey;
      var j :| 0 <= j < |clean| && clean[j] == byKey[i].1;
    }
    BookmarkedAyahsSorted(bookmarks, byKey);
  }

  // ---------------------------------------------------------------------
  // Theme and profile
  // ---------------------------------------------------------------------

  /** `setThemeMode`: 'light' stays light, anything else is dark. */
  function SetThemeMode(mode: JsValue): (r: string)
    ensures r == "light" || r == "dark"
    ensures r == "light" <==> mode == Str("light")
  {
    if mode == Str("light") then "light" else "dark"
  }

  /** `toggleThemeMode`. */
  function ToggleThemeMode(prev: string): (r: string)
    ensures r == "light" || r == "dark"
    ensures r == "light" <==> prev != "light"
  {
    if prev == "light" then "dark" else "light"
  }

  /** Toggling twice from a mode the app sets returns to it. */
  lemma ToggleThemeModeTwice(prev: string)
    requires prev == "light" || prev == "dark"
    ensures ToggleThemeMode(ToggleThemeMode(prev)) == prev
  {
  }

  /** The profile fields. */
  datatype Profile = Profile(name: string, gender: string)

  /** `setProfileGender`: 'female' stays, anything else is 'male'. */
  function SetProfileGender(gender: JsValue): (r: string)
    ensures r == "female" <==> gender == Str("female")
    ensures r != "female" ==> r == "male"
  {
    if gender == Str("female") then "female" else "male"
  }

  /** `setProfileName`: the name without surrounding whitespace. */
  function SetProfileName(name: JsValue): (r: string)
    ensures IsTrimmed(r, IsJsSpace)
    ensures name.Str? ==> r == JsTrim(name.s)
    ensures !Truthy(name) ==> r == ""
  {
    JsTrim(TextOf(name))
  }

  /** `setProfileSetup`. */
  function SetProfileSetup(name: JsValue, gender: JsValue): Profile {
    Profile(SetProfileName(name), SetProfileGender(gender))
  }

  /** `clearProfileSetup`. */
  function ClearProfileSetup(): Profile {
    Profile("", "")
  }

  /** `hasProfileName`. */
  predicate HasProfileName(p: Profile) {
    JsTrim(p.name) != "" && (p.gender == "male" || p.gender == "female")
  }

  /** After a setup the profile counts as complete exactly when the trimmed name is not
      empty, whatever the gender value; after clearing it never does. */
  lemma ProfileSetupComplete(name: JsValue, gender: JsValue)
    ensures HasProfileName(SetProfileSetup(name, gender)) <==> JsTrim(TextOf(name)) != ""
    ensures !HasProfileName(ClearProfileSetup())
  {
    assert JsTrim("") == "";
  }
}
