/**
 * The slice of a Telegram chat export both offline scripts read: a message's
 * type, id and `text` field, which is either a plain string or a list mixing
 * strings and entity objects; and the two `flatten_text` functions
 * (scripts/admin_sync.py and format_ayahs.py) that turn that field into one
 * string.
 */
module Telegram {
  import opened Base

  /** One item of a `text` list: a string, an object whose `text` property is a string
      (`Some`) or something else (`None`), or any other JSON value. */
  datatype TextPart = PlainPart(s: string) | EntityPart(text: Option<string>) | OtherPart

  /** A message's `text` field: a string, a list of items, an object whose `text` property
      is a string or not, or any other JSON value (a missing field included). */
  datatype TextField = StrText(s: string) | ListText(parts: seq<TextPart>) | DictText(text: Option<string>) | OtherText

  /** A message of the export: whether its `type` is `"message"`, its `text` field and its
      `id` (an integer, or absent). */
  datatype Message = Message(isMessage: bool, text: TextField, id: Option<int>)

  /** The string an item contributes to the flattened text; items that are neither a
      string nor an object with a string `text` contribute nothing. */
  function PartText(p: TextPart): string {
    match p
    case PlainPart(s) => s
    case EntityPart(t) => if t.Some? then t.value else ""
    case OtherPart => ""
  }

  /** `"".join(parts)` over the strings the items contribute. */
  function PartsText(ps: seq<TextPart>): string {
    if |ps| == 0 then "" else PartsText(ps[..|ps| - 1]) + PartText(ps[|ps| - 1])
  }

  /** The flattened text of a list is the concatenation, in order, of the flattened texts
      of any split of the list. */
  lemma {:induction false} PartsTextAppend(a: seq<TextPart>, b: seq<TextPart>)
    ensures PartsText(a + b) == PartsText(a) + PartsText(b)
  {
    if |b| > 0 {
      PartsTextAppend(a, b[..|b| - 1]);
      assert (a + b)[..|a + b| - 1] == a + b[..|b| - 1];
    } else {
      assert a + b == a;
    }
  }

  /** `flatten_text` of scripts/admin_sync.py: a string as it is, a list flattened item by
      item, an object by its string `text`, anything else as the empty string. */
  function FlattenText(f: TextField): (r: string)
    ensures f.StrText? ==> r == f.s
    ensures f.ListText? ==> r == PartsText(f.parts)
    ensures f.DictText? ==> r == (if f.text.Some? then f.text.value else "")
    ensures f.OtherText? ==> r == ""
  {
    match f
    case StrText(s) => s
    case ListText(ps) => PartsText(ps)
    case DictText(t) => if t.Some? then t.value else ""
    case OtherText => ""
  }

  /** `flatten_text` of format_ayahs.py: the same, except that an object gives the empty
      string. */
  function FlattenTextNoDict(f: TextField): (r: string)
    ensures f.DictText? || f.OtherText? ==> r == ""
  {
    match f
    case StrText(s) => s
    case ListText(ps) => PartsText(ps)
    case DictText(_) => ""
    case OtherText => ""
  }

  /** The two scripts flatten every field alike except an object with a non-empty string
      `text`, which only scripts/admin_sync.py reads. */
  lemma FlattenTextAgree(f: TextField)
    ensures FlattenText(f) != FlattenTextNoDict(f) <==> f.DictText? && f.text.Some? && f.text.value != ""
  {
  }
}
