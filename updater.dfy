/**
 * `updateHTML`: select the videos, render them, and either skip the update,
 * stop because a marker is missing, or write the spliced document. Reading
 * and writing `index.html` and ending the process are outside the model: the
 * file's text is a parameter and the outcome says what would be written and
 * with which exit status the process would end.
 */
module Updater {
  import opened Wrappers
  import opened Text
  import opened Dates
  import opened Fragments
  import opened Api
  import opened Splicer

  /** How a run ends. */
  datatype Outcome =
    | NothingToWrite          // no HTML generated: `process.exit(0)` before the file is read
    | MarkersNotFound         // a marker is missing: `process.exit(1)`, the file is left as it was
    | Written(text: string)   // the file is overwritten with `text`

  function ExitStatus(o: Outcome): nat
  {
    match o
    case NothingToWrite => 0
    case MarkersNotFound => 1
    case Written(_) => 0
  }

  /** One run of the updater on a parsed search response and the current text of the page. */
  method UpdateHtml(resp: SearchResponse, page: string) returns (o: Outcome)
    ensures o == NothingToWrite <==> LatestVideos(resp) == []
    ensures o == MarkersNotFound <==>
              LatestVideos(resp) != [] && (!Occurs(page, StartMarker) || !Occurs(page, EndMarker))
    ensures o.Written? ==> Splice(page, VideosHtml(LatestVideos(resp))) == Some(o.text)
    ensures ExitStatus(o) == 1 <==> o == MarkersNotFound
  {
    var videos := LatestVideos(resp);
    var videoHtml := GenerateVideoHtml(videos);
    if |videoHtml| == 0 {
      return NothingToWrite;
    }
    var updated := Splice(page, videoHtml);
    if updated.None? {
      return MarkersNotFound;
    }
    return Written(updated.value);
  }

  /**
   * The example run: one upload `abc123` titled `Test Video` with thumbnail
   * `http://x/t.jpg`, published on 5 March 2024, gives a fragment that links
   * to its watch page and shows the badge, `2024.03.05` and the title.
   */
  lemma ExampleFragment()
    ensures var v := VideoItem("abc123", "Test Video", "http://x/t.jpg", Fields(2024, 2, 5));
            var fragment := VideosHtml(LatestVideos(SearchResponse(None, Some([v]))));
            && Occurs(fragment, WatchUrl + "abc123")
            && Occurs(fragment, Badge)
            && Occurs(fragment, TimeOpen + "2024.03.05" + TimeClose)
            && Occurs(fragment, HeadingOpen + "Test Video" + HeadingClose)
  {
    var v := VideoItem("abc123", "Test Video", "http://x/t.jpg", Fields(2024, 2, 5));
    SingleVideoShows(v);
    FormatDateExample();
  }

  /** A response holding one video renders to a fragment that shows that video's link, badge, date and title. */
  lemma SingleVideoShows(v: VideoItem)
    ensures var fragment := VideosHtml(LatestVideos(SearchResponse(None, Some([v]))));
            && Occurs(fragment, WatchUrl + v.videoId)
            && Occurs(fragment, Badge)
            && Occurs(fragment, TimeOpen + FormatDate(v.published) + TimeClose)
            && Occurs(fragment, HeadingOpen + v.title + HeadingClose)
  {
    assert LatestVideos(SearchResponse(None, Some([v]))) == [v];
    VideosHtmlSingle(v);
    ItemHtmlShows(v);
  }
}
