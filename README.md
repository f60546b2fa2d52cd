# Video downloader and blog: a Dafny model

The repository is a small Flask application with a browser front end. This
project models its logic, in three parts.

- **The video routes** (`backend/routes/video_enhanced.py`):
  - `/info` checks the request body for a URL, asks the extractor for the
    video's metadata, and keeps only the formats that have a height, each
    reduced to `{format_id, ext, quality}`.
  - `/download` names the file `<uuid>.mp4`, downloads it into the
    `downloads` directory, and answers with the file name and its stream
    path.
  - `/stream/<filename>` serves a file of that directory, or 404.

  The extractor and downloader are inputs: an `Extraction` or
  `DownloadOutcome` value. The call the route would make into the library is
  returned alongside the reply, so "the extractor is never consulted" is a
  checkable statement. The download directory is the `files` map of the
  `MediaStore` class.
- **The blog** (`backend/models/blog.py`):
  - The JSON API: create, read, update, delete and the published listing.
  - The two page rules: the post page splits its tags on commas and strips
    each one, and a listing card falls back to the first 150 characters of
    the content when a post has no excerpt.

  The table of posts is the `posts` map of the `BlogStore` class. The row id
  the database hands out, the clock, and a commit (or query) that fails are
  parameters.
- **The browser script** (`frontend/static/script_enhanced.js`):
  - `formatDuration` and the view-count buckets of `formatViews`.
  - The rebuilding of the format select in `displayVideoInfo`, modelled as a
    loop that stops where `null.toUpperCase()` would throw.
  - The URL checks of `handleDownload`.
  - The guards and effects of the play, confirm-download and close handlers.

  The script's globals and the visible page are the fields of the
  `ClientState` class. The server's reply and the verdict of the `URL`
  constructor are parameters of the handlers.

The shared modules are:

- `Values`: options, scalar JSON values and HTTP replies.
- `Text`: Python's `split` and `strip`, JavaScript's `trim`, decimal text,
  `padStart` and ASCII upper-casing. Every property the model relies on is
  proved there.

The main results:

- **Video routes:**
  - The reply's format list holds exactly the raw entries with a height, in
    order, each copying its format id and extension.
  - A stream request is answered with 404 exactly when no download saved
    that name, and otherwise serves the bytes of the first download that did.
- **Blog:**
  - Each failure path leaves the table as it was.
  - An update touches only the keys its body carries.
  - The listing is newest first and holds each published post exactly once.
- **Browser script:**
  - The text of a positive duration reads back as that duration. A missing
    or zero duration shows "Unknown".
  - When no offered format lacks an extension, the select lists, after
    "best", one option per offered format, in order. Otherwise it stops at
    the first offered format without one. Every format `/info` reports is
    offered.

## Model

| member | source | states |
|---|---|---|
| VideoRoutes.GetVideoInfo | backend/routes/video_enhanced.py:15-40 | A missing or falsy `url` gives 400 "URL is required" and no extractor call. Otherwise the extractor is called with that URL, and its failure gives 500 with its message. A URL never gets 400. After a successful extraction the reply is 200 exactly when the comprehension succeeds, and 500 `'format_id'` otherwise. A 200 reply carries the comprehension's list and the extractor's title, uploader, duration, view count and thumbnail. |
| VideoRoutes.HasHeight | backend/routes/video_enhanced.py:30 | `f.get("height")` is truthy. It has no contract of its own; `KeptIndicesFrom` and the `FormatsFrom` lemmas state what it selects. |
| VideoRoutes.FormatsFrom | backend/routes/video_enhanced.py:26-30 | The list comprehension, with `None` for its `KeyError`. It has no contract of its own; `FormatsFromFailsIffKeptEntryLacksId`, `FormatsFromKeepsExactlyTheEntriesWithHeight` and `FormatEntryCopiesSource` state its properties. |
| VideoRoutes.InfoWithoutUrlIgnoresExtractor | backend/routes/video_enhanced.py:17-20 | Without a URL the reply is the same whatever the extractor would do. |
| VideoRoutes.KeptIndicesFrom | backend/routes/video_enhanced.py:30 | The positions of the raw entries with a truthy height: in range, strictly increasing, and none missing. |
| VideoRoutes.FormatsFromFailsIffKeptEntryLacksId | backend/routes/video_enhanced.py:26-30 | The comprehension raises (`f["format_id"]` on a missing key) exactly when a kept entry has no format id. |
| VideoRoutes.FormatsFromKeepsExactlyTheEntriesWithHeight | backend/routes/video_enhanced.py:26-30 | The reply lists exactly the entries with a height, in their original order, one reply entry per kept raw entry. |
| VideoRoutes.FormatEntryCopiesSource | backend/routes/video_enhanced.py:27-29 | Each reply entry has its source's format id and extension, and a quality equal to the source's non-zero height. |
| VideoRoutes.FormatsNoLongerThanRaw | backend/routes/video_enhanced.py:26-30 | The reply's format list is no longer than `info.get("formats", [])`. |
| VideoRoutes.Selector | backend/routes/video_enhanced.py:48 | Without a `format_id` key the selector is `"best"`; with one it is the body's value. |
| VideoRoutes.PathInDownloads | backend/routes/video_enhanced.py:55 | `os.path.join(DOWNLOAD_DIR, name)`. It has no contract of its own; `PathInDownloadsInjective` states its property. |
| VideoRoutes.PathInDownloadsInjective | backend/routes/video_enhanced.py:55 | Two names joined onto the download directory give the same path only if they are the same name. |
| VideoRoutes.DownloadFilename | backend/routes/video_enhanced.py:54 | The download's file name is the fresh token followed by `.mp4`. |
| VideoRoutes.StreamUrl | backend/routes/video_enhanced.py:61-64 | The download URL is the stream route followed by the file name. |
| VideoRoutes.SaveVideo | backend/routes/video_enhanced.py:57-59 | Saving a download adds its path and leaves every other file as it was. A file already at that path keeps its bytes, since no `overwrites` option is passed to the library. |
| VideoRoutes.StreamResponse | backend/routes/video_enhanced.py:72-75 | The stream reply on a given directory. It has no contract of its own; `MediaStore.StreamVideo`, `StreamAfterDownloads` and `StreamServesFirstDownload` state its properties. |
| VideoRoutes.AfterDownloads | backend/routes/video_enhanced.py:53-59 | The directory after a sequence of successful downloads. It has no contract of its own; `StreamAfterDownloads` and `StreamServesFirstDownload` state its properties. |
| VideoRoutes.StreamAfterDownloads | backend/routes/video_enhanced.py:59-75 | After a sequence of downloads into an empty directory, a stream answers 404 "File not found" exactly when no download saved that name. |
| VideoRoutes.StreamServesFirstDownload | backend/routes/video_enhanced.py:59-75 | A stream of a name serves the bytes of the first download that saved that name, whatever downloads came after it. |
| VideoRoutes.MediaStore.constructor | backend/routes/video_enhanced.py:9-10 | The directory keeps the files already on disk. |
| VideoRoutes.MediaStore.DownloadVideo | backend/routes/video_enhanced.py:45-66 | A missing URL gives 400, with no download call and no file written. Otherwise the downloader gets the URL, the selector and `downloads/<token>.mp4`. Its failure gives 500, and the files it left behind stay, with nothing cleaned up. Success saves that file, keeping one already there, and answers with its name and stream URL. |
| VideoRoutes.MediaStore.StreamVideo | backend/routes/video_enhanced.py:71-75 | 404 "File not found" exactly when the path is absent, otherwise the file's contents. The directory is not changed. |
| Blog.HasRequiredFields | backend/models/blog.py:534 | Title, content and author are all given and non-empty. It has no contract of its own; `BlogStore.CreatePost` states its effect. |
| Blog.NewPost | backend/models/blog.py:537-544 | A created post carries the given title, content and author (all non-empty). Its excerpt and tags default to empty and it is published unless the body says otherwise. |
| Blog.Patch | backend/models/blog.py:573-586 | The update's field assignments. It has no contract of its own; `PatchChangesOnlyCarriedKeys`, `PatchWithEmptyBody` and `PatchIdempotent` state its properties. |
| Blog.PatchChangesOnlyCarriedKeys | backend/models/blog.py:573-586 | A field changes only if the body carries its key, and then takes the body's value. The update time is always refreshed. The id and creation time never change. |
| Blog.PatchWithEmptyBody | backend/models/blog.py:573-586 | A body with no keys changes nothing but the update time. |
| Blog.PatchIdempotent | backend/models/blog.py:573-586 | Applying the same update twice equals applying it once. |
| Blog.Lookup | backend/models/blog.py:514 | `get_or_404`: the post under the id, or 404 exactly when there is none. |
| Blog.ApiLookupAsWritten | backend/models/blog.py:559-563 | As written, the JSON read of a missing id answers 500 with the not-found text, since the handler's `except Exception` catches the 404. |
| Blog.UpdateAsWritten | backend/models/blog.py:567-593 | The update route as written. A missing id gives 500 with the not-found text, since the `except Exception` catches the 404. Every error leaves the table as it was. For a stored id, a successful commit stores and returns the patched post. |
| Blog.DeleteAsWritten | backend/models/blog.py:597-608 | The delete route as written. A missing id gives 500 with the not-found text, and every error leaves the table as it was. For a stored id, a successful commit removes exactly that post. |
| Blog.ApiLookupAsWrittenAnswers500ForMissingId | backend/models/blog.py:557-608 | On an empty table, reading, updating or deleting post 1 through the JSON routes as written gives 500 and leaves the table empty. The corrected lookup gives 404. |
| Blog.InsertNewestFirst | backend/models/blog.py:522 | Inserting into a newest-first list keeps it newest first and adds exactly the one post. |
| Blog.PublishedListingEntries | backend/models/blog.py:522-523 | Every entry of a listing is a published post stored under its own id, no entry appears twice, and every published post appears. |
| Blog.PublishedAmongAddsOne | backend/models/blog.py:522 | Taking one more id into the filter adds its post exactly when that post is published. |
| Blog.ListingStep | backend/models/blog.py:522 | Each step of building the listing keeps it newest first and equal to the published posts seen so far. |
| Blog.TagLabels | backend/models/blog.py:484-487 | Empty tags render no label. Otherwise there is one label per comma-separated piece, each stripped of white space. |
| Blog.TagLabelsAreCleanPieces | backend/models/blog.py:486-487 | No label contains a comma, and none starts or ends with white space. |
| Blog.TagLabelsOfTightTags | backend/models/blog.py:486-487 | Tags without white space render as their pieces, which join back into the stored text. |
| Blog.CardExcerpt | backend/models/blog.py:168 | The excerpt when it is non-empty, otherwise `post.content.substring(0, 150) + '...'`. It has no contract of its own; `CardExcerptFallback` states its properties. |
| Blog.CardExcerptFallback | backend/models/blog.py:168 | A given excerpt is shown as is. Without one, the card shows at most the first 150 characters of the content (all of it when it fits), then `...`. |
| Blog.BlogStore.CreatePost | backend/models/blog.py:529-553 | Missing a title, content or author gives 400 and leaves the table unchanged. A failing commit gives 500 and the table as before. Otherwise the new post is stored under its fresh id and returned with 201. |
| Blog.BlogStore.GetPost | backend/models/blog.py:557-561 | The stored post, or 404 exactly when the id is missing (the corrected lookup). |
| Blog.BlogStore.PostPageFor | backend/models/blog.py:511-515 | The post page shows the stored post and its tag labels, or 404 exactly when the id is missing. |
| Blog.BlogStore.UpdatePost | backend/models/blog.py:567-593 | A missing id gives 404 (the corrected lookup; the route as written gives 500, see `Blog.UpdateAsWritten`). For a stored id the method is the route as written. A failing commit gives 500 and the table as before. Otherwise only the addressed post is replaced, by its patch, which is returned. |
| Blog.BlogStore.DeletePost | backend/models/blog.py:597-608 | A missing id gives 404 (the corrected lookup; the route as written gives 500, see `Blog.DeleteAsWritten`). For a stored id the method is the route as written. A failing commit gives 500 and the table as before. Otherwise exactly the addressed post is removed and every other post is left as it was. |
| Blog.BlogStore.PublishedPosts | backend/models/blog.py:519-525 | A failing query gives 500. Otherwise the reply is newest first and holds each published post exactly once, and nothing else. |
| Client.JsRem | frontend/static/script_enhanced.js:355-356 | JavaScript's `%`: the Euclidean remainder for a non-negative dividend, and the dividend's sign otherwise. |
| Client.ClockOf | frontend/static/script_enhanced.js:354-356 | For a non-negative count, hours×3600 + minutes×60 + seconds equals the count, with minutes and seconds below 60. There are hours exactly from 3600 seconds on. |
| Client.Pad2 | frontend/static/script_enhanced.js:359-361 | `n.toString().padStart(2, '0')`. It has no contract of its own; `Pad2ReadsBack` states its property. |
| Client.ClockText | frontend/static/script_enhanced.js:358-362 | The two template literals. It has no contract of its own; `ClockTextFields` and `ClockTextReadsBack` state its properties. |
| Client.FormatDuration | frontend/static/script_enhanced.js:352 | A missing or zero duration shows "Unknown". |
| Client.Pad2ReadsBack | frontend/static/script_enhanced.js:359-361 | A field below 60 is padded to exactly two digits, which read back as the field. |
| Client.ClockTextFields | frontend/static/script_enhanced.js:358-362 | The clock text has three `:`-separated fields when there are hours and two otherwise. Each field is a run of digits reading back as its clock field. The minutes take two digits under hours, the seconds always do, and the first field has no leading zero. |
| Client.DurationFields | frontend/static/script_enhanced.js:351-362 | A positive duration shows `h:mm:ss` from 3600 seconds on and `m:ss` below. Its fields read back as hours, minutes and seconds that add up to the duration. |
| Client.ClockTextReadsBack | frontend/static/script_enhanced.js:358-362 | Parsing the text of an in-range clock gives the seconds it stands for. |
| Client.DurationReadsBack | frontend/static/script_enhanced.js:351-362 | Parsing the text of a positive duration gives back the duration, so different durations never share a text. |
| Client.FormatViews | frontend/static/script_enhanced.js:365-374 | The bucket is unknown exactly for a missing or zero count, millions exactly from 1,000,000, thousands exactly from 1,000 to below 1,000,000, and the plain count otherwise. |
| Client.ViewsText | frontend/static/script_enhanced.js:366-373 | The unknown and plain texts end in their bucket's suffix. |
| Client.ViewsBucketsAreMonotone | frontend/static/script_enhanced.js:368-373 | More views never land in a smaller bucket. |
| Client.PlainViewsReadBack | frontend/static/script_enhanced.js:373 | A count below 1000 reads back from the digits before " views". |
| Client.Offered | frontend/static/script_enhanced.js:251 | `format.quality && format.quality !== 'Unknown'`. It has no contract of its own; `OfferedIndices` and `ReportedFormatsAreAllOffered` state what it selects. |
| Client.OptionFor | frontend/static/script_enhanced.js:253-254 | An option's value is the format id, and its label is `quality + "p (" + upper-cased ext + ")"`. |
| Client.OfferedIndices | frontend/static/script_enhanced.js:250-251 | The positions of the offered formats: in range, strictly increasing, and none missing. |
| Client.FilledBy | frontend/static/script_enhanced.js:250-257 | The `forEach`, one format at a time. It has no contract of its own; `FilledListsOfferedFormats`, `FilledCrashesOnMissingExt`, `CrashIsFinal` and `PopulateFormatSelect` state its properties. |
| Client.FilledListsOfferedFormats | frontend/static/script_enhanced.js:249-257 | When no offered format lacks an extension, the loop appends one option per offered format, in input order, each the option of its format. |
| Client.FilledCrashesOnMissingExt | frontend/static/script_enhanced.js:250-257 | The loop throws exactly when an offered format lacks an extension. It then keeps the options appended before the first such format. |
| Client.PopulateFormatSelect | frontend/static/script_enhanced.js:248-257 | The select always starts with the best option. Without formats it holds only that option. Otherwise what follows is what the `forEach` appends, and the method reports whether the loop threw. |
| Client.CrashIsFinal | frontend/static/script_enhanced.js:250-257 | Once the loop has thrown, the remaining formats change nothing. |
| Client.AllOfferedIndices | frontend/static/script_enhanced.js:251 | When every format is offered, the offered positions are all positions. |
| Client.ReportedFormatsAreAllOffered | frontend/static/script_enhanced.js:249-257 | Every format `/info` reports is offered. When none lacks an extension, the select holds after "best" one option per reported format, in the reported order. |
| Client.InfoReplyShown | frontend/static/script_enhanced.js:236-257 | For a successful `/info` reply, the page shows the duration and view texts of the reply's numbers, and every reported format is offered. When none lacks an extension, the best option is followed by one option per reported format, in order. |
| Client.CheckUrl | frontend/static/script_enhanced.js:43-53 | The trimmed URL is checked in order: empty exactly gives "missing", unparsable (and non-empty) exactly gives "invalid". Otherwise the trimmed URL is accepted. |
| Client.BlankInputIsMissing | frontend/static/script_enhanced.js:43-48 | White-space-only input is reported as missing, whatever the URL parser says. |
| Client.UrlCheckMessage | frontend/static/script_enhanced.js:45-52 | Exactly the failing checks have a message. |
| Client.RejectionView | frontend/static/script_enhanced.js:87-93 | Status 429 shows the bot alert with the body's error and suggestion. Any other status shows the body's error, or the fallback text when that is missing or empty. |
| Client.Shown | frontend/static/script_enhanced.js:236-258 | After display the select starts with, and is set to, the best option, and the duration and views texts are those of the info. |
| Client.ClientState.constructor | frontend/static/script_enhanced.js:25-26 | No video info and no downloaded file yet, and nothing requested or clicked. |
| Client.ClientState.TypeUrl | frontend/static/script_enhanced.js:43 | Typing changes only the URL box. |
| Client.ClientState.ChooseFormat | frontend/static/script_enhanced.js:124 | Choosing an option changes only the select's value. |
| Client.ClientState.DisplayVideoInfo | frontend/static/script_enhanced.js:236-261 | Texts and select as `Shown` gives them. The info section is shown unless rebuilding the select threw. The globals are untouched. |
| Client.ClientState.HandleDownload | frontend/static/script_enhanced.js:42-107 | A failing URL check changes only the error box and requests nothing. Otherwise exactly one info request for the trimmed URL is made. A failing reply shows its error. A successful one becomes `currentVideoInfo` and is displayed, and a display that throws shows that error. |
| Client.ClientState.DownloadRequestNow | frontend/static/script_enhanced.js:122-125 | The body both download buttons send: the trimmed URL box and the select's value. It has no contract of its own; `HandlePlay` and `HandleConfirmDownload` state when it is sent. |
| Client.ClientState.HandlePlay | frontend/static/script_enhanced.js:110-169 | Without video info nothing happens. Otherwise one download request (trimmed URL, selected format) is made. Success sets `currentDownloadedFile` and points the player at `/api/video/stream/<filename>`. |
| Client.ClientState.HandleConfirmDownload | frontend/static/script_enhanced.js:172-233 | Without video info nothing happens. Otherwise one download request is made. Success clicks a link to the download URL named after the file and shows the success notice. |
| Client.ClientState.ClosePlayer | frontend/static/script_enhanced.js:408-416 | The player is hidden and its source cleared, nothing else changes. |

## Left out

- `yt_dlp`: information extraction and downloading are foreign calls. They are the `Extraction` and `DownloadOutcome` inputs. The model records the call the route would make but does not model what the library does with it.
- `uuid.uuid4()`: a `token` parameter. That tokens are fresh is not something the source can guarantee, so the model does not assume it.
- VideoRoutes.MediaStore.DownloadVideo: what the library leaves on disk is an input. A failed download carries the files it left behind, such as a `.part` file. A successful one saves its bytes at `downloads/<token>.mp4` only when no file is there yet, which follows the library's default of not overwriting videos. The route itself guarantees neither. Other files a successful download may create or remove are not modelled.
- VideoRoutes.MediaStore.StreamVideo: the directory map holds regular files only. For `.` and `..`, `os.path.exists` is true and `send_file` then fails with 500. The model answers 404, so `StreamAfterDownloads` does not describe these two names.
- VideoRoutes.MediaStore.StreamVideo: the model assumes the server runs with `backend/` as its working directory, the application's root path. `os.makedirs`, `os.path.exists` and the downloader's output template resolve `downloads/<name>` against the working directory. `send_file` resolves it against the application's root path. Started from elsewhere, for instance from the repository root, the existence check finds the file and `send_file` does not, which gives 500 where `StreamAfterDownloads` and `StreamServesFirstDownload` promise the file.
- Flask's routing and argument parsing, `jsonify`, `send_file` and CORS. The thumbnail, uploader and view count are passed through untouched.
- SQLAlchemy and the `BlogPost` model, whose file is not part of this model:
  - `to_dict` and `datetime.utcnow()` are left out. Ids and times are integers given as parameters.
  - Blog.BlogStore.CreatePost: `requires id !in posts` stands for the database handing out an unused row id.
  - Blog.NewPost: `createdAt == updatedAt == now` assumes the model's column defaults stamp both times with the same clock reading at creation. The column definitions are not part of this model.
  - Ties between equal creation times are in no particular order, as `ORDER BY created_at DESC` leaves them.
- Blog.CardExcerptFallback: the cut counts characters (Unicode scalar values). JavaScript's `substring(0, 150)` counts UTF-16 code units, so content with characters outside the Basic Multilingual Plane is cut earlier in the browser, possibly inside a surrogate pair.
- Request values are typed: the blog's body fields are strings (and `is_published` a boolean), and the video routes' values are scalar JSON. A body such as `{"is_published": "no"}`, which makes the commit fail (rollback and 500), is covered only as a failing commit (`dbError`). Lists and objects as values are not modelled.
- The listing card's tag chips (`post.tags.map(...)` in the listing template): they depend on the shape `to_dict` gives `tags`, which is not part of this model.
- The HTML of the templates, the blog's own page scripts, and `backend/main.py` (app and database setup, static files).
- `frontend/static/script.js`: its handlers duplicate those of `script_enhanced.js`.
- The DOM:
  - Each `hidden` class is a boolean field of the page.
  - The bot alert replaces the error box's content, while `showError` writes only its message. The page keeps one error view for both.
  - `showSuccess`'s timed removal (`setTimeout`) is left out: notices are only appended.
  - The thumbnail is left out.
- The JSON-parse fallback chain of each `fetch`: replies are already parsed into `ServerReply` values. Network failures are not modelled.
- Client.CheckUrl: `isValidUrl` (the `URL` constructor) is the `parses` parameter.
- The supported-sites modal.
- Client.FormatViews: the decimal text `toFixed(1)` of the millions and thousands buckets is floating point. Only the bucket and the count are modelled.
- Client.ClockOf: the sum identity and ranges are stated for non-negative counts only. For a negative count JavaScript's `%` keeps the sign, and the fields do not add up.
- Client.FormatDuration: durations are integers. `yt_dlp` can report a fractional one, whose `%` and text are floating point.
- Text.ToUpper: only ASCII letters are upper-cased. JavaScript's full Unicode case mapping is not modelled.
- The `Unknown` fallback of `f.get("height", "Unknown")`: it cannot be reached, since entries without a height are filtered out first. The script's `!== 'Unknown'` test is modelled all the same.

## Findings

| source | as written | input that shows it | evidently intended | confidence | as-written member | corrected member |
|---|---|---|---|---|---|---|
| backend/models/blog.py:559-563 (also 570, 591-593 and 600, 606-608) | `get_or_404` runs inside `try ... except Exception`. The `NotFound` it raises is an `Exception`, so a missing id is answered with 500 and the not-found text. | `GET /api/blog/posts/1` on an empty table | 404 for a missing id, as the page route `blog_post` (line 514) answers | not executed | Blog.ApiLookupAsWritten, Blog.UpdateAsWritten, Blog.DeleteAsWritten, Blog.ApiLookupAsWrittenAnswers500ForMissingId | Blog.Lookup, Blog.BlogStore.GetPost, Blog.BlogStore.UpdatePost, Blog.BlogStore.DeletePost |
