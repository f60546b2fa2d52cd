/** The video routes of the backend, mounted under `/api/video`: the info
    request and its reduction of the extractor's format list, the download
    request with its generated file name, and the streaming of a downloaded
    file. The extraction library is an input: its answer to an info request
    (`Extraction`) and to a download (`DownloadOutcome`) are parameters, and
    each handler reports the call it makes to it (`AdapterCall`). */
module VideoRoutes {
  import opened Values
  import opened Text

  const DownloadDir: string := "downloads"
  const StreamRoute: string := "/api/video/stream/"
  const UrlRequired: string := "URL is required"
  const FileNotFound: string := "File not found"
  const BestFormat: string := "best"
  /** The text of `KeyError('format_id')`, raised for a kept entry without a format id. */
  const MissingFormatId: string := "'format_id'"

  // ---------------------------------------------------------------------------
  // What the extraction library hands back

  /** One entry of the extractor's raw `formats` list; absent keys are `None`.
      A key present with the value `None` is not told apart from a missing
      one: the extractor always fills `format_id` (and `formats`), so the
      difference, a `null` id in the reply or a `TypeError` on a `None`
      list, cannot arise. */
  datatype RawFormat = RawFormat(formatId: Option<string>, ext: Option<string>, height: Option<int>)

  datatype RawInfo = RawInfo(
    title: Option<string>,
    uploader: Option<string>,
    duration: Option<int>,
    viewCount: Option<int>,
    thumbnail: Option<string>,
    formats: Option<seq<RawFormat>>)

  /** The outcome of `extract_info(url, download=False)`: the info, or the exception's text. */
  datatype Extraction = Extracted(info: RawInfo) | ExtractionFailed(message: string)

  /** The outcome of `download([url])`: the bytes of the downloaded video, or
      the exception's text together with the files the interrupted download
      left behind (a `.part` file, say), by path. */
  datatype DownloadOutcome =
    | Downloaded(contents: seq<bv8>)
    | DownloadFailed(message: string, leftovers: map<string, seq<bv8>>)

  /** A call a handler makes into the extraction library. */
  datatype AdapterCall =
    | ExtractInfo(url: JsonValue)
    | DownloadMedia(url: JsonValue, format: JsonValue, outputPath: string)

  // ---------------------------------------------------------------------------
  // What the routes answer

  /** One entry of the `formats` list of an info reply. */
  datatype Format = Format(formatId: string, ext: Option<string>, quality: int)

  datatype VideoMetadata = VideoMetadata(
    title: Option<string>,
    uploader: Option<string>,
    duration: Option<int>,
    viewCount: Option<int>,
    thumbnail: Option<string>,
    formats: seq<Format>)

  datatype DownloadLink = DownloadLink(filename: string, downloadUrl: string)

  /** A reply together with the call made into the extraction library, if any. */
  datatype Handled<T> = Handled(response: Response<T>, adapterCall: Option<AdapterCall>)

  // ---------------------------------------------------------------------------
  // GET INFO: the format list

  /** `f.get("height")` is truthy. */
  predicate HasHeight(f: RawFormat) {
    f.height.Some? && f.height.value != 0
  }

  /** The reply entry built from a raw entry that has a height and a format id;
      `f.get("height", "Unknown")` is the height itself, since it is present. */
  function Project(f: RawFormat): Format
    requires HasHeight(f) && f.formatId.Some?
  {
    Format(f.formatId.value, f.ext, f.height.value)
  }

  /** The positions, from `i` on, of the raw entries that have a height, in order. */
  function KeptIndicesFrom(raw: seq<RawFormat>, i: nat): (ix: seq<nat>)
    requires i <= |raw|
    ensures |ix| <= |raw| - i
    ensures forall k :: 0 <= k < |ix| ==> i <= ix[k] < |raw| && HasHeight(raw[ix[k]])
    ensures forall k, l :: 0 <= k < l < |ix| ==> ix[k] < ix[l]
    ensures forall j :: i <= j < |raw| && HasHeight(raw[j]) ==> j in ix
    decreases |raw| - i
  {
    if i == |raw| then []
    else if HasHeight(raw[i]) then [i] + KeptIndicesFrom(raw, i + 1)
    else KeptIndicesFrom(raw, i + 1)
  }

  /** Every raw entry from `i` on that has a height also has a format id. */
  ghost predicate KeptHaveIds(raw: seq<RawFormat>, i: nat) {
    forall j :: i <= j < |raw| && HasHeight(raw[j]) ==> raw[j].formatId.Some?
  }

  /** The list comprehension over `raw[i..]`: entries without a height are
      skipped, the others are projected; `None` stands for the KeyError that
      `f["format_id"]` raises on a kept entry without a format id. */
  function FormatsFrom(raw: seq<RawFormat>, i: nat): Option<seq<Format>>
    requires i <= |raw|
    decreases |raw| - i
  {
    if i == |raw| then Some([])
    else if !HasHeight(raw[i]) then FormatsFrom(raw, i + 1)
    else if raw[i].formatId.None? then None
    else
      match FormatsFrom(raw, i + 1)
      case None => None
      case Some(rest) => Some([Project(raw[i])] + rest)
  }

  /** The comprehension fails exactly when a kept entry lacks a format id. */
  lemma {:induction false} FormatsFromFailsIffKeptEntryLacksId(raw: seq<RawFormat>, i: nat)
    requires i <= |raw|
    ensures FormatsFrom(raw, i).Some? <==> KeptHaveIds(raw, i)
    decreases |raw| - i
  {
    if i < |raw| {
      FormatsFromFailsIffKeptEntryLacksId(raw, i + 1);
      if HasHeight(raw[i]) && raw[i].formatId.None? {
        assert !KeptHaveIds(raw, i);
      } else {
        assert KeptHaveIds(raw, i) <==> KeptHaveIds(raw, i + 1);
      }
    }
  }

  /** When it succeeds, the comprehension lists, in their original order,
      exactly the entries that have a height, each with its format id and
      extension and with its height as quality. */
  lemma {:induction false} FormatsFromKeepsExactlyTheEntriesWithHeight(raw: seq<RawFormat>, i: nat)
    requires i <= |raw|
    requires FormatsFrom(raw, i).Some?
    ensures var out := FormatsFrom(raw, i).value;
            var ix := KeptIndicesFrom(raw, i);
            && |out| == |ix|
            && forall k :: 0 <= k < |out| ==>
                 && raw[ix[k]].formatId.Some?
                 && out[k] == Project(raw[ix[k]])
    decreases |raw| - i
  {
    if i < |raw| {
      if !HasHeight(raw[i]) {
        FormatsFromKeepsExactlyTheEntriesWithHeight(raw, i + 1);
      } else {
        FormatsFromKeepsExactlyTheEntriesWithHeight(raw, i + 1);
        var out := FormatsFrom(raw, i).value;
        var rest := FormatsFrom(raw, i + 1).value;
        var tail := KeptIndicesFrom(raw, i + 1);
        var ix := KeptIndicesFrom(raw, i);
        assert out == [Project(raw[i])] + rest;
        assert ix == [i] + tail;
        forall k | 0 <= k < |out|
          ensures raw[ix[k]].formatId.Some? && out[k] == Project(raw[ix[k]])
        {
          if k > 0 {
            assert out[k] == rest[k - 1];
            assert ix[k] == tail[k - 1];
          }
        }
      }
    }
  }

  /** Each reply entry copies the format id and extension of its source entry
      and carries that entry's height as its quality. */
  lemma FormatEntryCopiesSource(raw: seq<RawFormat>, k: nat)
    requires FormatsFrom(raw, 0).Some? && k < |FormatsFrom(raw, 0).value|
    ensures |FormatsFrom(raw, 0).value| == |KeptIndicesFrom(raw, 0)|
    ensures var out := FormatsFrom(raw, 0).value[k];
            var src := raw[KeptIndicesFrom(raw, 0)[k]];
            && HasHeight(src)
            && src.formatId == Some(out.formatId)
            && src.ext == out.ext
            && src.height == Some(out.quality)
            && out.quality != 0
  {
    FormatsFromKeepsExactlyTheEntriesWithHeight(raw, 0);
  }

  /** The raw list `info.get("formats", [])`. */
  function RawFormats(info: RawInfo): seq<RawFormat> {
    info.formats.GetOr([])
  }

  /** The reply's format list is never longer than the extractor's. */
  lemma FormatsNoLongerThanRaw(info: RawInfo)
    requires FormatsFrom(RawFormats(info), 0).Some?
    ensures |FormatsFrom(RawFormats(info), 0).value| <= |RawFormats(info)|
  {
    FormatsFromKeepsExactlyTheEntriesWithHeight(RawFormats(info), 0);
  }

  /** POST /info. A missing or falsy `url` is answered with 400 before the
      extractor is called; an extractor failure, or a kept entry without a
      format id, with 500 and the exception's text. */
  function GetVideoInfo(body: map<string, JsonValue>, extraction: Extraction): (r: Handled<VideoMetadata>)
    ensures !TruthyAt(body, "url") ==> r == Handled(Error(400, UrlRequired), None)
    ensures TruthyAt(body, "url") ==> r.adapterCall == Some(ExtractInfo(body["url"]))
    ensures TruthyAt(body, "url") && extraction.ExtractionFailed? ==>
              r.response == Error(500, extraction.message)
    ensures r.response.Error? ==> r.response.status in {400, 500}
    ensures TruthyAt(body, "url") ==> r.response.status != 400
    ensures TruthyAt(body, "url") && extraction.Extracted? ==>
              (r.response.Reply? <==> FormatsFrom(RawFormats(extraction.info), 0).Some?)
    ensures TruthyAt(body, "url") && extraction.Extracted? && FormatsFrom(RawFormats(extraction.info), 0).None? ==>
              r.response == Error(500, MissingFormatId)
    ensures r.response.Reply? ==>
              && r.response.status == 200
              && extraction.Extracted?
              && Some(r.response.body.formats) == FormatsFrom(RawFormats(extraction.info), 0)
              && r.response.body.title == extraction.info.title
              && r.response.body.uploader == extraction.info.uploader
              && r.response.body.duration == extraction.info.duration
              && r.response.body.viewCount == extraction.info.viewCount
              && r.response.body.thumbnail == extraction.info.thumbnail
  {
    if !TruthyAt(body, "url") then Handled(Error(400, UrlRequired), None)
    else
      var call := Some(ExtractInfo(body["url"]));
      match extraction
      case ExtractionFailed(message) => Handled(Error(500, message), call)
      case Extracted(info) =>
        match FormatsFrom(RawFormats(info), 0)
        case None => Handled(Error(500, MissingFormatId), call)
        case Some(formats) =>
          var meta := VideoMetadata(info.title, info.uploader, info.duration,
                                    info.viewCount, info.thumbnail, formats);
          Handled(Reply(200, meta), call)
  }

  /** Without a url the reply does not depend on the extractor at all. */
  lemma InfoWithoutUrlIgnoresExtractor(body: map<string, JsonValue>, e1: Extraction, e2: Extraction)
    requires !TruthyAt(body, "url")
    ensures GetVideoInfo(body, e1) == GetVideoInfo(body, e2)
  {
  }

  // ---------------------------------------------------------------------------
  // DOWNLOAD and STREAM: naming and the download directory

  /** `data.get("format_id", "best")`: the selector handed to the downloader. */
  function Selector(body: map<string, JsonValue>): (v: JsonValue)
    ensures "format_id" !in body ==> v == JString(BestFormat)
    ensures "format_id" in body ==> v == body["format_id"]
  {
    if "format_id" in body then body["format_id"] else JString(BestFormat)
  }

  /** `os.path.join(DOWNLOAD_DIR, name)`: an absolute name replaces the directory. */
  function PathInDownloads(name: string): string {
    if |name| > 0 && name[0] == '/' then name else DownloadDir + "/" + name
  }

  /** Different names never share a path, so a file is found only by its own name. */
  lemma PathInDownloadsInjective(a: string, b: string)
    requires PathInDownloads(a) == PathInDownloads(b)
    ensures a == b
  {
    var p := PathInDownloads(a);
    var relA := !(|a| > 0 && a[0] == '/');
    var relB := !(|b| > 0 && b[0] == '/');
    if relA && relB {
      assert a == p[|DownloadDir| + 1..];
      assert b == p[|DownloadDir| + 1..];
    }
  }

  /** The name of a downloaded file: the fresh token followed by `.mp4`. */
  function DownloadFilename(token: string): (name: string)
    ensures |name| == |token| + 4 && name[..|token|] == token && EndsWith(name, ".mp4")
  {
    token + ".mp4"
  }

  /** The stream path the download reply points at. */
  function StreamUrl(filename: string): (url: string)
    ensures |url| == |StreamRoute| + |filename|
    ensures url[..|StreamRoute|] == StreamRoute && EndsWith(url, filename)
  {
    StreamRoute + filename
  }

  /** GET /stream/<filename> on the directory `files` (contents by path). */
  function StreamResponse(files: map<string, seq<bv8>>, filename: string): Response<seq<bv8>> {
    var path := PathInDownloads(filename);
    if path in files then Reply(200, files[path]) else Error(404, FileNotFound)
  }

  /** The directory after the downloader saves a video at `path`. Like the
      library's default (no `overwrites` option is passed), a file already at
      that path is kept as it is and the download does not replace it. */
  function SaveVideo(files: map<string, seq<bv8>>, path: string, contents: seq<bv8>): (r: map<string, seq<bv8>>)
    ensures r.Keys == files.Keys + {path}
    ensures r[path] == if path in files then files[path] else contents
    ensures forall q :: q in files && q != path ==> r[q] == files[q]
  {
    if path in files then files else files[path := contents]
  }

  /** The files on disk after the successful downloads `(name, contents)`,
      in order, into an empty download directory. */
  function AfterDownloads(downloads: seq<(string, seq<bv8>)>): map<string, seq<bv8>>
    decreases |downloads|
  {
    if downloads == [] then map[]
    else
      var last := downloads[|downloads| - 1];
      SaveVideo(AfterDownloads(downloads[..|downloads| - 1]), PathInDownloads(last.0), last.1)
  }

  /** Starting from an empty directory, a stream request is answered with 404
      exactly when no download saved that name. */
  lemma {:induction false} StreamAfterDownloads(downloads: seq<(string, seq<bv8>)>, filename: string)
    ensures StreamResponse(AfterDownloads(downloads), filename).Error? <==>
              forall k :: 0 <= k < |downloads| ==> downloads[k].0 != filename
    ensures StreamResponse(AfterDownloads(downloads), filename).Error? ==>
              StreamResponse(AfterDownloads(downloads), filename) == Error(404, FileNotFound)
    decreases |downloads|
  {
    if downloads != [] {
      var init := downloads[..|downloads| - 1];
      var last := downloads[|downloads| - 1];
      StreamAfterDownloads(init, filename);
      if last.0 != filename {
        if PathInDownloads(last.0) == PathInDownloads(filename) {
          PathInDownloadsInjective(last.0, filename);
        }
        assert forall k :: 0 <= k < |init| ==> init[k] == downloads[k];
      } else {
        assert downloads[|downloads| - 1].0 == filename;
      }
    }
  }

  /** A stream serves the bytes of the first download that saved that name:
      later downloads of the same name find the file and keep it. */
  lemma {:induction false} StreamServesFirstDownload(downloads: seq<(string, seq<bv8>)>, filename: string, k: nat)
    requires k < |downloads| && downloads[k].0 == filename
    requires forall j :: 0 <= j < k ==> downloads[j].0 != filename
    ensures StreamResponse(AfterDownloads(downloads), filename) == Reply(200, downloads[k].1)
    decreases |downloads|
  {
    var n := |downloads| - 1;
    var init := downloads[..n];
    var last := downloads[n];
    var path := PathInDownloads(filename);
    if k == n {
      StreamAfterDownloads(init, filename);
      assert forall j :: 0 <= j < |init| ==> init[j] == downloads[j];
      assert path !in AfterDownloads(init);
    } else {
      assert forall j :: 0 <= j < |init| ==> init[j] == downloads[j];
      StreamServesFirstDownload(init, filename, k);
      assert path in AfterDownloads(init);
    }
  }

  /** The download directory, created when the routes are loaded
      (`os.makedirs(DOWNLOAD_DIR, exist_ok=True)` keeps what is already there). */
  class MediaStore {
    /** The contents of the files on disk, by path. */
    var files: map<string, seq<bv8>>

    constructor (existing: map<string, seq<bv8>>)
      ensures files == existing
    {
      files := existing;
    }

    /** POST /download. `token` is the text of the fresh `uuid4()`, `outcome`
        what the downloader does with the request. A missing or falsy `url` is
        answered with 400 and writes nothing; a downloader failure with 500 and
        its text, and the files it left behind stay (nothing cleans them up).
        On success the file `<token>.mp4` is saved, unless it already
        exists, and the reply names it together with its stream path. */
    method DownloadVideo(body: map<string, JsonValue>, token: string, outcome: DownloadOutcome)
      returns (response: Response<DownloadLink>, call: Option<AdapterCall>)
      modifies this
      ensures !TruthyAt(body, "url") ==>
                response == Error(400, UrlRequired) && call == None && files == old(files)
      ensures TruthyAt(body, "url") ==>
                call == Some(DownloadMedia(body["url"], Selector(body),
                                           PathInDownloads(DownloadFilename(token))))
      ensures TruthyAt(body, "url") && outcome.DownloadFailed? ==>
                response == Error(500, outcome.message) && files == old(files) + outcome.leftovers
      ensures TruthyAt(body, "url") && outcome.Downloaded? ==>
                && response == Reply(200, DownloadLink(DownloadFilename(token),
                                                       StreamUrl(DownloadFilename(token))))
                && files == SaveVideo(old(files), PathInDownloads(DownloadFilename(token)), outcome.contents)
    {
      if !TruthyAt(body, "url") {
        return Error(400, UrlRequired), None;
      }
      var formatId := Selector(body);
      var filename := DownloadFilename(token);
      var filepath := PathInDownloads(filename);
      call := Some(DownloadMedia(body["url"], formatId, filepath));
      match outcome {
        case DownloadFailed(message, leftovers) =>
          files := files + leftovers;
          response := Error(500, message);
        case Downloaded(contents) =>
          files := SaveVideo(files, filepath, contents);
          response := Reply(200, DownloadLink(filename, StreamUrl(filename)));
      }
    }

    /** GET /stream/<filename>: 404 when the file does not exist under the
        download directory, its contents otherwise; the directory is only read. */
    method StreamVideo(filename: string) returns (response: Response<seq<bv8>>)
      ensures response == StreamResponse(files, filename)
      ensures response.Error? <==> PathInDownloads(filename) !in files
      ensures response.Reply? ==> response.body == files[PathInDownloads(filename)]
    {
      var filepath := PathInDownloads(filename);
      if filepath !in files {
        return Error(404, FileNotFound);
      }
      response := Reply(200, files[filepath]);
    }
  }

  /** A download without `format_id` into an empty directory, then a stream of
      the file it names: the stream serves the downloaded bytes. */
  method DownloadThenStreamScenario(token: string, bytes: seq<bv8>)
  {
    var store := new MediaStore(map[]);
    var body := map["url" := JString("https://example.com/v1")];
    var response, call := store.DownloadVideo(body, token, Downloaded(bytes));
    assert call == Some(DownloadMedia(JString("https://example.com/v1"), JString(BestFormat),
                                      PathInDownloads(token + ".mp4")));
    assert response.Reply? && EndsWith(response.body.filename, ".mp4");
    assert response.body.downloadUrl == StreamRoute + response.body.filename;
    var served := store.StreamVideo(response.body.filename);
    assert served == Reply(200, bytes);
  }
}
