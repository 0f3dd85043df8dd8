# YouTube section updater, modelled in Dafny

`update-youtube.js` refreshes the video section of a static page. It asks the
video-search API for a channel's latest uploads, renders each upload as an
anchor card, and splices the cards into `index.html` between the markers
`<!-- YOUTUBE_VIDEOS_START -->` and `<!-- YOUTUBE_VIDEOS_END -->`. The
project models the parts of that script that compute something:

- `Api` (api.dfy): how `getLatestVideos` turns a parsed search response into
  the video list. A truthy `error` field gives no videos. A missing `items`
  field gives no videos. Otherwise the items are passed on unchanged.
- `Dates` (dates.dfy): `formatDate` on the calendar fields a `Date` yields.
  It renders `year.MM.DD`, with month and day zero-padded to two characters.
  For a valid date the text reads back to the same date, so distinct dates
  render differently.
- `Fragments` (fragments.dfy): `generateVideoHTML`. It is a method whose
  loop appends one card per video. It is proved equal to the concatenation
  of the cards, and it gives the empty string exactly when there are no
  videos. Each card links to the video's watch URL, shows the thumbnail,
  uses the title as alt text and heading, and shows the badge and the
  rendered date. Cards appear in input order. Nothing is escaped.
- `Splicer` (splicer.dfy): the splice in `updateHTML`. It is `None` exactly
  when a marker is missing. Otherwise it keeps the text up to the first
  start marker and from the first end marker on, and puts a newline, the
  fragment and sixteen spaces between them. Splicing the same fragment into
  the result again changes nothing, provided the first start marker comes
  before the first end marker and the fragment holds no end marker. Marker
  order is not checked: when the end marker comes first, the text between
  the two markers is written twice (`SpliceOutOfOrder`).
- `Updater` (updater.dfy): one run of `updateHTML`. Its outcome is nothing to
  write (exit 0), markers missing (exit 1), or the new page text.
- `Text` (text.dfy): `indexOf` as first occurrence, `String(n)` for
  integers, `padStart(2, '0')`, and concatenation of string lists.
  `Wrappers` (wrappers.dfy) holds `Option`.

Three details of the script that the model keeps as written:

- The badge text is `動画` ("video").
- The region between the markers is replaced by a newline, the fragment and
  sixteen spaces of indentation, not by the fragment alone.
- Only uploads are fetched; no livestream query exists in this script.

## Model

| member | source | states |
|---|---|---|
| `Text.IndexOf` | update-youtube.js:132-133 | a found index is an occurrence with none before it; `None` (JavaScript's -1) exactly when the pattern does not occur |
| `Text.NatToString` | update-youtube.js:71-73 | `String(n)` for a natural number (`Text.IntToString` adds the `-` of a negative one): at least one character, all decimal digits, exactly one digit when `n < 10`, and no leading zero otherwise |
| `Text.NatToStringRoundTrip` | update-youtube.js:71-73 | the decimal digits `NatToString` renders for `String(n)` read back as `n` |
| `Text.NatToStringInjective` | update-youtube.js:71-73 | distinct numbers render as distinct digit strings |
| `Dates.PadNatToString` | update-youtube.js:71-72 | `padStart(2, '0')` (`Text.PadStart2`) on `String(n)` adds one zero exactly when the number has a single digit, and otherwise leaves it alone |
| `Dates.TwoDigitPart` | update-youtube.js:71-72 | a month or day number 1..99 renders as exactly two digits that denote it |
| `Dates.FourDigitYear` | update-youtube.js:70-73 | a year 1000..9999 renders with four characters |
| `Dates.FormatDateFields` | update-youtube.js:68-74 | `formatDate` is `Dates.FormatDate`; for in-range fields its result is the year's digits, a dot, two digits for the 1-based month, a dot and two digits for the day, each part reading back as its field |
| `Dates.FormatDatePattern` | update-youtube.js:68-74 | with a four-digit year the result matches `dddd.dd.dd`, and its slices read back as year, 1-based month and day |
| `Dates.ParseFormatDate` | update-youtube.js:68-74 | reading the text `Dates.FormatDate` renders back with `Dates.ParseDate` gives the date it came from |
| `Dates.FormatDateInjective` | update-youtube.js:68-74 | two valid dates that render alike are the same date |
| `Dates.FormatDateExample` | update-youtube.js:68-74 | 5 March 2024 (month 2, 0-based) renders as `2024.03.05` |
| `Fragments.ItemHtmlNonEmpty` | update-youtube.js:91-102 | every card (`Fragments.ItemHtml`, the template pieces of `Fragments.ItemParts` joined) is non-empty: it begins with the template's newline and indentation |
| `Fragments.VideosHtmlEmpty` | update-youtube.js:77-81 | the rendered list (`Fragments.VideosHtml`, the cards of `Fragments.Cards` joined in order) is empty exactly when there are no videos |
| `Fragments.VideosHtmlAppend` | update-youtube.js:83-105 | rendering a list split in two is rendering each part and concatenating |
| `Fragments.VideosHtmlSingle` | update-youtube.js:85-103 | one video renders as its card |
| `Fragments.GenerateVideoHtml` | update-youtube.js:77-106 | the loop's accumulated `html` equals the concatenation of all cards in order, and it is empty exactly when the list is |
| `Fragments.ItemHtmlShows` | update-youtube.js:86-102 | a card (`Fragments.ItemHtml`) contains the watch URL followed by the video id, `src="thumbnail"`, ` alt="title"`, the badge, the rendered date in its `time` element and the title in its `h3` element |
| `Fragments.VideosHtmlInOrder` | update-youtube.js:85-103 | the i-th video's card occurs in the output right after the cards of the videos before it |
| `Api.LatestVideos` | update-youtube.js:44-64 | a truthy `error` (JavaScript truthiness, `Api.Truthy`) or a missing `items` gives no videos; otherwise the items come back unchanged; the list is non-empty exactly when there is no error and the items are non-empty |
| `Splicer.SpliceBetween` | update-youtube.js:132-149 | for any markers, `None` exactly when either marker is missing |
| `Splicer.Splice` | update-youtube.js:129-149 | with the page's own markers, `None` exactly when the start or the end marker is missing |
| `Splicer.SpliceKeepsPrefix` | update-youtube.js:147-149 | the result begins with the document up to the end of its first start marker, and the marker is still there |
| `Splicer.SpliceKeepsSuffix` | update-youtube.js:148-149 | the result ends with the document from its first end marker on, so it ends with that marker and what follows |
| `Splicer.SpliceMiddle` | update-youtube.js:147-149 | between prefix and suffix lie exactly a newline, the fragment and sixteen spaces, which fixes the result's length |
| `Splicer.MarkersDisjoint` | update-youtube.js:129-130 | a start marker found at or before an end marker ends before that end marker begins |
| `Splicer.SpliceBetweenIdempotent` | update-youtube.js:132-149 | for non-overlapping markers in order and an end marker that cannot straddle the inserted text, splicing a fragment free of the end marker into its own output changes nothing |
| `Splicer.SpliceIdempotent` | update-youtube.js:132-149 | with the start marker first and a fragment that has no end marker, running the splice twice leaves the result of running it once |
| `Splicer.SpliceOutOfOrder` | update-youtube.js:132-149 | when the first end marker precedes the first start marker, the splice still succeeds and the result holds the end marker before the fragment and the start marker again after it |
| `Updater.UpdateHtml` | update-youtube.js:109-153 | nothing is written exactly when no videos are selected; exit 1 exactly when there are videos and a marker is missing; otherwise the written text is the splice of the rendered videos into the page |
| `Updater.SingleVideoShows` | update-youtube.js:44-103 | a response holding one video and no error renders a fragment showing that video's watch link, badge, date and title |
| `Updater.ExampleFragment` | update-youtube.js:85-103 | the upload `abc123` titled `Test Video` and published on 5 March 2024 renders a fragment with its watch URL, the badge, `2024.03.05` and the heading `Test Video` |

## Left out

- `fetchYouTubeData` (HTTPS request, response streaming, promises) is I/O. The parsed response is a parameter of the model.
- JSON parsing and its error path are not modelled; `SearchResponse` stands for the parsed object.
- The request URL, the API key from the environment and the channel id feed only the request, which is not modelled.
- `new Date(...)` parsing and the host-timezone getters are not modelled. A date is given by its decoded fields, or as an Invalid Date that renders `NaN.NaN.NaN`.
- Reading and writing `index.html` are not modelled. The page text is a parameter, and the outcome carries the text that would be written. The write is not atomic, and the model does not capture that either.
- `process.exit` is modelled as the `Outcome` and its `ExitStatus`.
- Thrown errors are not modelled. The catch at lines 157-161 ends the run with exit 1 and no write, and the model does not capture that path. It catches failures of the I/O left out above. It also catches the TypeErrors the script raises on a malformed response:
  - a `null` body at line 44;
  - an item without `snippet` or with a non-string `title`, in the debug log at line 61;
  - an item without `id`, `snippet`, `thumbnails` or `medium`, at lines 86-88.
- `VideoItem` assumes that every field the template and the debug log read is present and well-typed.
- Console output is left out. The log call at line 61 can throw, as listed above; apart from that, logging does not change what is written.
- `Api.LatestVideos`: `items` is modelled as a list or absent (`undefined` or `null`). A truthy `items` that is not an array is not modelled.
- `Dates.FormatDateFields`, `Dates.ParseFormatDate`, `Dates.FormatDateInjective`: stated only for non-negative years, months 0..11 and days 1..31, the ranges the `Date` getters give for dates after year 0. For negative years the function renders a leading `-`, which the read-back does not handle.
- JavaScript strings are UTF-16 code-unit sequences. Here a string is a sequence of characters, so indices and lengths of text outside the Basic Multilingual Plane differ.
- Marker order and uniqueness are not validated by the script, and the model does not add such a check. `Splicer.SpliceOutOfOrder` shows what happens when the order is wrong.
- HTML escaping of titles and thumbnail URLs is absent in the script and absent in the model.
