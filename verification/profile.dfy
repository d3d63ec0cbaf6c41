/**
 * The profile screen's own posts (src/screens/MyProfileScreen.js): its copy of
 * `parseStyledContent`, which only strips the header marker, and the filter that
 * keeps the posts written from this device or, for posts without a device id,
 * under this profile's name. The query that fetches the posts is not modelled.
 */
module Profile {
  import opened Base
  import opened Strings
  import opened Seqs
  import FeedCodec

  /** The profile screen's `parseStyledContent(raw)`, the empty string standing for a
      missing post: the text without the header marker and the newline after it. */
  function ParseStyledText(raw: string): (r: string)
    ensures FeedCodec.MarkerAt(raw).None? ==> r == raw
    ensures FeedCodec.MarkerAt(raw).Some? ==> raw == FeedCodec.MarkerAt(raw).value.whole + r
  {
    match FeedCodec.MarkerAt(raw)
    case None => raw
    case Some(m) =>
      FeedCodec.ReplacePrefix(raw, m.whole);
      ReplaceFirst(raw, m.whole, "")
  }

  /** The profile screen shows the same text the feed does. */
  lemma ParseStyledTextAgrees(raw: string)
    ensures ParseStyledText(raw) == FeedCodec.ParseStyledContent(raw).text
  {
    match FeedCodec.MarkerAt(raw)
    case None =>
    case Some(m) =>
      var w := m.whole;
      assert raw[|w|..] == ParseStyledText(raw) == FeedCodec.ParseStyledContent(raw).text;
  }

  /** A marker is stripped together with one newline after it, and nothing more. */
  lemma ParseStyledTextStrips(kind: string, packed: string, rest: string)
    requires FeedCodec.IsMarkerKind(kind) && |packed| > 0 && ']' !in packed
    ensures ParseStyledText(FeedCodec.MarkerText(kind, packed, false) + rest) ==
      if FeedCodec.NewlineAt(rest, 0) then rest[1..] else rest
  {
    var raw := FeedCodec.MarkerText(kind, packed, false) + rest;
    FeedCodec.MarkerOfPrefix(kind, packed, rest);
    var whole := FeedCodec.MarkerText(kind, packed, FeedCodec.NewlineAt(rest, 0));
    assert raw == whole + (if FeedCodec.NewlineAt(rest, 0) then rest[1..] else rest);
  }

  /** A row of `feed_posts` as the profile screen reads it; `None` stands for a missing
      column or a null. */
  datatype FeedPost = FeedPost(id: int, authorName: Option<string>, authorDeviceId: Option<string>, content: string)

  /** `p.author_device_id` is truthy. */
  predicate HasDeviceId(p: FeedPost) {
    p.authorDeviceId.Some? && p.authorDeviceId.value != ""
  }

  /** The test of the filter in `load`: the device id decides when the post has one,
      the author name otherwise. */
  predicate IsMine(p: FeedPost, deviceId: string, profileName: string) {
    if HasDeviceId(p) then p.authorDeviceId.value == deviceId else p.authorName == Some(profileName)
  }

  /** `data.filter(...)` in `load`: the posts of this device or, without a device id,
      of this name, in the order fetched. */
  function MyPosts(posts: seq<FeedPost>, deviceId: string, profileName: string): (r: seq<FeedPost>)
    ensures IsSublist(r, posts)
    ensures forall p :: p in r <==> (p in posts &&
      ((HasDeviceId(p) && p.authorDeviceId.value == deviceId) ||
       (!HasDeviceId(p) && p.authorName == Some(profileName))))
  {
    Filter(posts, p => IsMine(p, deviceId, profileName))
  }

  /** A post written on another device is not shown, whatever name it carries. */
  lemma OtherDeviceNotMine(posts: seq<FeedPost>, deviceId: string, profileName: string, p: FeedPost)
    requires p.authorDeviceId.Some? && p.authorDeviceId.value != "" && p.authorDeviceId.value != deviceId
    ensures p !in MyPosts(posts, deviceId, profileName)
  {
  }

  /** Filtering the shown posts again keeps all of them. */
  lemma MyPostsIdempotent(posts: seq<FeedPost>, deviceId: string, profileName: string)
    ensures MyPosts(MyPosts(posts, deviceId, profileName), deviceId, profileName) == MyPosts(posts, deviceId, profileName)
  {
    var r := MyPosts(posts, deviceId, profileName);
    assert forall i :: 0 <= i < |r| ==> r[i] in r;
  }
}
