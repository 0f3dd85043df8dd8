/**
 * `generateVideoHTML`: one fixed anchor-card template per video, filled in
 * with the video's id, thumbnail URL, title and rendered date, concatenated
 * in input order. Nothing interpolated is escaped.
 */
module Fragments {
  import opened Text
  import opened Dates

  /** The fields of one search result the template reads (`id.videoId`, `snippet.*`). */
  datatype VideoItem = VideoItem(videoId: string, title: string, thumbnail: string, published: CalendarDate)

  // The literal text of the template, cut where the interpolated values go
  // and around the elements whose presence is stated below. Read in order,
  // ItemHtml puts them back together into the template text.
  const Open := "\n                <a href=\""
  const WatchUrl := "https://www.youtube.com/watch?v="
  const AnchorRest := "\" target=\"_blank\" rel=\"noopener noreferrer\" class=\"news-card\" style=\"text-decoration: none; color: inherit;\">\n                    <div class=\"news-image\">\n                        <img "
  const SrcAttr := "src=\""
  const Quote := "\""
  const AltAttr := " alt=\""
  const ImageClose := ">\n                        "
  const Badge := "<span class=\"news-badge\">動画</span>"
  const ContentOpen := "\n                    </div>\n                    <div class=\"news-content\">\n                        "
  const TimeOpen := "<time class=\"news-date\">"
  const TimeClose := "</time>"
  const TitleIndent := "\n                        "
  const HeadingOpen := "<h3 class=\"news-title\">"
  const HeadingClose := "</h3>"
  const Close := "\n                    </div>\n                </a>\n                "

  /** The pieces of the card for one video, literal text and interpolated values in template order. */
  function ItemParts(v: VideoItem): seq<string>
  {
    [ Open, WatchUrl, v.videoId, AnchorRest,
      SrcAttr, v.thumbnail, Quote,
      AltAttr, v.title, Quote,
      ImageClose, Badge, ContentOpen,
      TimeOpen, FormatDate(v.published), TimeClose,
      TitleIndent, HeadingOpen, v.title, HeadingClose,
      Close ]
  }

  /** The card for one video: its pieces concatenated. */
  function ItemHtml(v: VideoItem): string
  {
    Join(ItemParts(v))
  }

  /** A card is never empty: it begins with the newline and indentation of the template. */
  lemma ItemHtmlNonEmpty(v: VideoItem)
    ensures |ItemHtml(v)| >= |Open| > 0
    ensures ItemHtml(v)[..|Open|] == Open
  {
    JoinOccurs(ItemParts(v), 0, 1);
    assert ItemParts(v)[..0] == [];
    assert ItemParts(v)[0..1] == [Open];
    JoinSingle(Open);
  }

  /** The card of each video, in input order. */
  function Cards(vs: seq<VideoItem>): (cs: seq<string>)
    ensures |cs| == |vs| && forall i :: 0 <= i < |vs| ==> cs[i] == ItemHtml(vs[i])
  {
    seq(|vs|, i requires 0 <= i < |vs| => ItemHtml(vs[i]))
  }

  /** All cards concatenated in order: the value the loop of `generateVideoHTML` accumulates. */
  function VideosHtml(vs: seq<VideoItem>): string
  {
    Join(Cards(vs))
  }

  /** No videos give the empty string and any video gives a non-empty one. */
  lemma VideosHtmlEmpty(vs: seq<VideoItem>)
    ensures VideosHtml(vs) == "" <==> vs == []
  {
    if vs != [] {
      ItemHtmlNonEmpty(vs[0]);
    }
  }

  /** Rendering a list split in two renders each part and concatenates. */
  lemma VideosHtmlAppend(a: seq<VideoItem>, b: seq<VideoItem>)
    ensures VideosHtml(a + b) == VideosHtml(a) + VideosHtml(b)
  {
    assert Cards(a + b) == Cards(a) + Cards(b);
    JoinAppend(Cards(a), Cards(b));
  }

  /** One video renders as its card. */
  lemma VideosHtmlSingle(v: VideoItem)
    ensures VideosHtml([v]) == ItemHtml(v)
  {
    assert Cards([v]) == [ItemHtml(v)];
    JoinSingle(ItemHtml(v));
  }

  /** `generateVideoHTML`: the empty string for no videos, else one card per video appended in turn. */
  method GenerateVideoHtml(videos: seq<VideoItem>) returns (html: string)
    ensures html == VideosHtml(videos)
    ensures |html| == 0 <==> |videos| == 0
  {
    if |videos| == 0 {
      assert Cards(videos) == [];
      return "";
    }
    html := "";
    assert Cards(videos[..0]) == [];
    for i := 0 to |videos|
      invariant html == VideosHtml(videos[..i])
    {
      assert videos[..i + 1] == videos[..i] + [videos[i]];
      VideosHtmlAppend(videos[..i], [videos[i]]);
      VideosHtmlSingle(videos[i]);
      html := html + ItemHtml(videos[i]);
    }
    assert videos[..|videos|] == videos;
    VideosHtmlEmpty(videos);
  }

  /** The pieces `i..j` of a card, joined, occur in the card. */
  lemma ItemShowsParts(v: VideoItem, i: nat, j: nat)
    requires i <= j <= |ItemParts(v)|
    ensures Occurs(ItemHtml(v), Join(ItemParts(v)[i..j]))
  {
    JoinOccurs(ItemParts(v), i, j);
  }

  /**
   * A card links to the watch URL of the video's id and shows the thumbnail,
   * the title verbatim as the image's alt text and as the heading, the badge
   * and the rendered date.
   */
  lemma ItemHtmlShows(v: VideoItem)
    ensures Occurs(ItemHtml(v), WatchUrl + v.videoId)
    ensures Occurs(ItemHtml(v), SrcAttr + v.thumbnail + Quote)
    ensures Occurs(ItemHtml(v), AltAttr + v.title + Quote)
    ensures Occurs(ItemHtml(v), Badge)
    ensures Occurs(ItemHtml(v), TimeOpen + FormatDate(v.published) + TimeClose)
    ensures Occurs(ItemHtml(v), HeadingOpen + v.title + HeadingClose)
  {
    ShowsLink(v);
    ShowsImage(v);
    ShowsBadge(v);
    ShowsDate(v);
    ShowsHeading(v);
  }

  /** The card links to the watch URL of its video id. */
  lemma ShowsLink(v: VideoItem)
    ensures Occurs(ItemHtml(v), WatchUrl + v.videoId)
  {
    assert ItemParts(v)[1..3] == [WatchUrl, v.videoId];
    JoinPair(WatchUrl, v.videoId);
    ItemShowsParts(v, 1, 3);
  }

  /** The image element carries the thumbnail as `src` and the title as `alt`. */
  lemma ShowsImage(v: VideoItem)
    ensures Occurs(ItemHtml(v), SrcAttr + v.thumbnail + Quote)
    ensures Occurs(ItemHtml(v), AltAttr + v.title + Quote)
  {
    var parts := ItemParts(v);
    assert parts[4..7] == [SrcAttr, v.thumbnail, Quote];
    JoinTriple(SrcAttr, v.thumbnail, Quote);
    ItemShowsParts(v, 4, 7);
    assert parts[7..10] == [AltAttr, v.title, Quote];
    JoinTriple(AltAttr, v.title, Quote);
    ItemShowsParts(v, 7, 10);
  }

  /** The card shows the badge. */
  lemma ShowsBadge(v: VideoItem)
    ensures Occurs(ItemHtml(v), Badge)
  {
    assert ItemParts(v)[11..12] == [Badge];
    JoinSingle(Badge);
    ItemShowsParts(v, 11, 12);
  }

  /** The card shows the rendered date in its `time` element. */
  lemma ShowsDate(v: VideoItem)
    ensures Occurs(ItemHtml(v), TimeOpen + FormatDate(v.published) + TimeClose)
  {
    assert ItemParts(v)[13..16] == [TimeOpen, FormatDate(v.published), TimeClose];
    JoinTriple(TimeOpen, FormatDate(v.published), TimeClose);
    ItemShowsParts(v, 13, 16);
  }

  /** The card shows the title in its heading. */
  lemma ShowsHeading(v: VideoItem)
    ensures Occurs(ItemHtml(v), HeadingOpen + v.title + HeadingClose)
  {
    assert ItemParts(v)[17..20] == [HeadingOpen, v.title, HeadingClose];
    JoinTriple(HeadingOpen, v.title, HeadingClose);
    ItemShowsParts(v, 17, 20);
  }

  /** Each video's card appears in the output right after the cards of the videos before it. */
  lemma VideosHtmlInOrder(vs: seq<VideoItem>, i: nat)
    requires i < |vs|
    ensures OccursAt(VideosHtml(vs), ItemHtml(vs[i]), |VideosHtml(vs[..i])|)
  {
    JoinOccurs(Cards(vs), i, i + 1);
    assert Cards(vs)[..i] == Cards(vs[..i]);
    assert Cards(vs)[i..i + 1] == [ItemHtml(vs[i])];
    JoinSingle(ItemHtml(vs[i]));
  }
}
