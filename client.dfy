/** The browser script of the video page: the text it shows for a duration
    and a view count, the options it puts into the format select, and its
    click handlers, which keep the loaded video info and the downloaded file
    name in globals. The page is a record of the visible state; a server
    reply and the `URL` constructor's verdict are parameters of the handlers. */
module Client {
  import opened Values
  import opened Text
  import VideoRoutes

  const UnknownDuration: string := "Unknown"
  const EnterUrl: string := "Please enter a video URL"
  const EnterValidUrl: string := "Please enter a valid URL"
  const InfoFailed: string := "Failed to get video information"
  const DownloadFailedText: string := "Failed to download video"
  const DownloadDone: string := "Video downloaded successfully!"
  /** The status the bot-detection alert answers to. */
  const TooManyRequests: int := 429

  // ---------------------------------------------------------------------------
  // Durations

  /** The three numbers `formatDuration` computes from a count of seconds. */
  datatype Clock = Clock(hours: int, minutes: int, seconds: int)

  /** JavaScript's `a % b` for a positive `b`: the remainder takes the sign of `a`. */
  function JsRem(a: int, b: int): (r: int)
    requires b > 0
    ensures a >= 0 ==> r == a % b
    ensures -b < r < b && (r == 0 || (r < 0 <==> a < 0))
  {
    if a >= 0 then a % b else -((-a) % b)
  }

  /** `Math.floor(s / 3600)`, `Math.floor((s % 3600) / 60)` and `s % 60`.
      Dafny's `/` by a positive divisor rounds down, as `Math.floor` does. */
  function ClockOf(s: int): (c: Clock)
    ensures s >= 0 ==> c.hours * 3600 + c.minutes * 60 + c.seconds == s
    ensures s >= 0 ==> 0 <= c.hours && 0 <= c.minutes < 60 && 0 <= c.seconds < 60
    ensures s >= 0 ==> (c.hours > 0 <==> s >= 3600)
  {
    ClockFieldsAddUp(s);
    Clock(s / 3600, JsRem(s, 3600) / 60, JsRem(s, 60))
  }

  /** For a non-negative count, hours, minutes and seconds add back up to it. */
  lemma ClockFieldsAddUp(s: int)
    ensures s >= 0 ==> (s / 3600) * 3600 + ((s % 3600) / 60) * 60 + s % 60 == s
    ensures s >= 0 ==> 0 <= (s % 3600) / 60 < 60
  {
    if s < 0 { return; }
    var q := s / 3600;
    var r := s % 3600;
    var m := r / 60;
    var t := r % 60;
    assert s == 3600 * q + r;
    assert r == 60 * m + t;
    assert s == 60 * (60 * q + m) + t;
    DivMod60(s, 60 * q + m, t);
  }

  /** Division by 60 with remainder is unique. */
  lemma DivMod60(x: int, k: int, t: int)
    requires 0 <= t < 60 && x == 60 * k + t
    ensures x % 60 == t && x / 60 == k
  {
  }

  /** A clock field as `n.toString().padStart(2, '0')`. */
  function Pad2(n: int): string {
    PadStart(IntToString(n), 2, '0')
  }

  /** The clock text: `h:mm:ss` when there are hours, `m:ss` otherwise. */
  function ClockText(c: Clock): string {
    if c.hours > 0 then IntToString(c.hours) + ":" + Pad2(c.minutes) + ":" + Pad2(c.seconds)
    else IntToString(c.minutes) + ":" + Pad2(c.seconds)
  }

  /** `formatDuration(seconds)`: "Unknown" for a missing or zero duration,
      otherwise the clock text of the duration. */
  function FormatDuration(duration: Option<int>): (r: string)
    ensures duration == None || duration == Some(0) ==> r == UnknownDuration
  {
    if duration.None? || duration.value == 0 then UnknownDuration
    else ClockText(ClockOf(duration.value))
  }

  /** The number of seconds clock fields denote: two or three non-empty runs
      of digits, the last ones worth 60 and 1, the first of three worth 3600;
      `None` for anything else. */
  function FieldsValue(f: seq<string>): (r: Option<nat>) {
    if (|f| == 2 || |f| == 3) && forall i :: 0 <= i < |f| ==> f[i] != "" && AllDigits(f[i]) then
      if |f| == 2 then Some(DigitsValue(f[0]) * 60 + DigitsValue(f[1]))
      else Some(DigitsValue(f[0]) * 3600 + DigitsValue(f[1]) * 60 + DigitsValue(f[2]))
    else None
  }

  /** The number of seconds a clock text denotes: its `:`-separated fields read as above. */
  function ParseClock(t: string): (r: Option<nat>) {
    FieldsValue(Split(t, ':'))
  }

  lemma DigitsHaveNoColon(s: string)
    requires AllDigits(s)
    ensures ':' !in s
  {
    forall i | 0 <= i < |s| ensures s[i] != ':' {
      assert IsDigit(s[i]);
    }
  }

  /** A field below 60 is written with exactly two digits that read back as it. */
  lemma Pad2ReadsBack(n: int)
    requires 0 <= n < 60
    ensures |Pad2(n)| == 2 && AllDigits(Pad2(n)) && DigitsValue(Pad2(n)) == n
  {
    var d := NatToString(n);
    IntToStringReadsBack(n);
    if n >= 10 {
      assert d == NatToString(n / 10) + [DigitChar(n % 10)];
      assert |d| == 2;
    } else {
      assert |d| == 1;
      DigitsValueLeadingZero(d);
      assert Pad2(n) == "0" + d;
    }
  }

  /** A clock of a non-negative count: no negative field, minutes and seconds below 60. */
  predicate InRange(c: Clock) {
    0 <= c.hours && 0 <= c.minutes < 60 && 0 <= c.seconds < 60
  }

  /** `t` is a non-empty run of digits, free of `:`, that reads as `n`. */
  predicate Field(t: string, n: nat) {
    DigitPiece(t) && DigitsValue(t) == n
  }

  /** A non-empty run of digits, so free of `:`. */
  predicate DigitPiece(t: string) {
    t != "" && AllDigits(t) && ':' !in t
  }

  lemma IntField(n: nat)
    ensures Field(IntToString(n), n)
    ensures IntToString(n)[0] == '0' ==> IntToString(n) == "0"
  {
    if n == 0 {
      assert IntToString(n) == [DigitChar(0)];
    }
    IntToStringReadsBack(n);
    DigitsHaveNoColon(IntToString(n));
  }

  lemma Pad2Field(n: nat)
    requires n < 60
    ensures Field(Pad2(n), n) && |Pad2(n)| == 2
  {
    Pad2ReadsBack(n);
    DigitsHaveNoColon(Pad2(n));
  }

  /** The `:`-separated fields of the clock text, as the template literal writes them. */
  function ClockPieces(c: Clock): (f: seq<string>)
    ensures |f| == if c.hours > 0 then 3 else 2
  {
    if c.hours > 0 then [IntToString(c.hours), Pad2(c.minutes), Pad2(c.seconds)]
    else [IntToString(c.minutes), Pad2(c.seconds)]
  }

  lemma ClockTextJoinsPieces(c: Clock)
    ensures ClockText(c) == Join(ClockPieces(c), ':')
  {
    var f := ClockPieces(c);
    if c.hours > 0 {
      assert Join(f[2..], ':') == f[2];
      assert Join(f[1..], ':') == f[1] + ":" + f[2];
    } else {
      assert Join(f[1..], ':') == f[1];
    }
  }

  /** Every piece of an in-range clock is a field reading back as its clock
      field; the seconds (and the minutes, under hours) take two digits, and
      the first piece has no leading zero unless it is `0`. */
  lemma ClockPiecesAreFields(c: Clock)
    requires InRange(c)
    ensures var f := ClockPieces(c);
            && (c.hours > 0 ==> Field(f[0], c.hours) && Field(f[1], c.minutes) && |f[1]| == 2 && f[0][0] != '0')
            && (c.hours == 0 ==> Field(f[0], c.minutes) && (f[0][0] == '0' ==> f[0] == "0"))
            && Field(f[|f| - 1], c.seconds) && |f[|f| - 1]| == 2
  {
    Pad2Field(c.seconds);
    if c.hours > 0 {
      IntField(c.hours);
      Pad2Field(c.minutes);
    } else {
      IntField(c.minutes);
    }
  }

  /** The fields of an in-range clock text: three (hours, then two-digit
      minutes and seconds) when there are hours, otherwise two (minutes, then
      two-digit seconds); each a non-empty run of digits reading back as its
      clock field, and the first without a leading zero unless it is `0`. */
  lemma ClockTextFields(c: Clock)
    requires InRange(c)
    ensures var f := Split(ClockText(c), ':');
            && (|f| == 3 <==> c.hours > 0)
            && (|f| == 2 <==> c.hours == 0)
            && (forall i :: 0 <= i < |f| ==> f[i] != "" && AllDigits(f[i]))
            && (f[0][0] == '0' ==> |f| == 2 && f[0] == "0")
            && |f[|f| - 1]| == 2 && DigitsValue(f[|f| - 1]) == c.seconds
            && (|f| == 3 ==> |f[1]| == 2 && DigitsValue(f[1]) == c.minutes && DigitsValue(f[0]) == c.hours)
            && (|f| == 2 ==> DigitsValue(f[0]) == c.minutes)
  {
    var f := ClockPieces(c);
    ClockPiecesAreFields(c);
    PiecesSplitBack(f, c.hours > 0);
    ClockTextJoinsPieces(c);
  }

  /** Two or three fields joined by `:` split back into themselves. */
  lemma PiecesSplitBack(f: seq<string>, three: bool)
    requires |f| == if three then 3 else 2
    requires DigitPiece(f[0]) && DigitPiece(f[1]) && DigitPiece(f[|f| - 1])
    ensures Split(Join(f, ':'), ':') == f
    ensures forall i :: 0 <= i < |f| ==> f[i] != "" && AllDigits(f[i])
  {
    assert forall i :: 0 <= i < |f| ==> f[i] == f[0] || f[i] == f[1] || f[i] == f[|f| - 1];
    SplitJoin(f, ':');
  }

  /** The text of a positive duration is `h:mm:ss` from an hour on and `m:ss`
      below, its fields reading back as the hours, minutes and seconds that
      add up to the duration. */
  lemma DurationFields(s: int)
    requires s > 0
    ensures var f := Split(FormatDuration(Some(s)), ':');
            var c := ClockOf(s);
            && (|f| == 3 <==> s >= 3600)
            && (|f| == 2 <==> s < 3600)
            && (|f| == 3 ==> |f[1]| == 2)
            && |f[|f| - 1]| == 2
            && (forall i :: 0 <= i < |f| ==> f[i] != "" && AllDigits(f[i]))
            && c.hours * 3600 + c.minutes * 60 + c.seconds == s
            && (|f| == 3 ==> DigitsValue(f[0]) == c.hours && DigitsValue(f[1]) == c.minutes)
            && (|f| == 2 ==> DigitsValue(f[0]) == c.minutes)
            && DigitsValue(f[|f| - 1]) == c.seconds
  {
    ClockTextFields(ClockOf(s));
  }

  /** Reading back an in-range clock text gives the seconds the clock stands for. */
  lemma ClockTextReadsBack(c: Clock)
    requires InRange(c)
    ensures ParseClock(ClockText(c)) == Some(c.hours * 3600 + c.minutes * 60 + c.seconds)
  {
    ClockTextFields(c);
    FieldsValueOf(Split(ClockText(c), ':'), c.hours, c.minutes, c.seconds);
  }

  lemma FieldsValueOf(f: seq<string>, x: nat, y: nat, z: nat)
    requires |f| == 2 || |f| == 3
    requires forall i :: 0 <= i < |f| ==> f[i] != "" && AllDigits(f[i])
    requires DigitsValue(f[|f| - 1]) == z
    requires |f| == 3 ==> DigitsValue(f[0]) == x && DigitsValue(f[1]) == y
    requires |f| == 2 ==> x == 0 && DigitsValue(f[0]) == y
    ensures FieldsValue(f) == Some(x * 3600 + y * 60 + z)
  {
  }

  /** Reading back the text of a positive duration gives the duration, so
      different durations never show the same text. */
  lemma DurationReadsBack(s: int)
    requires s > 0
    ensures ParseClock(FormatDuration(Some(s))) == Some(s)
  {
    ClockTextReadsBack(ClockOf(s));
  }

  // ---------------------------------------------------------------------------
  // View counts

  /** Which text `formatViews` shows. The millions and thousands buckets show
      `(views / 1e6).toFixed(1)` and `(views / 1000).toFixed(1)` before their
      suffix; that decimal text is not modelled, the count is kept instead. */
  datatype ViewsLabel = UnknownViews | Millions(count: int) | Thousands(count: int) | Plain(count: int)
  {
    /** The text after the number (all of the text for `UnknownViews`). */
    function Suffix(): string {
      match this
      case UnknownViews => "Unknown views"
      case Millions(_) => "M views"
      case Thousands(_) => "K views"
      case Plain(_) => " views"
    }

    /** The buckets in order of size, 0 for an unknown count. */
    function Rank(): nat {
      match this
      case UnknownViews => 0
      case Plain(_) => 1
      case Thousands(_) => 2
      case Millions(_) => 3
    }
  }

  /** `formatViews(views)`: the bucket of a view count. */
  function FormatViews(views: Option<int>): (r: ViewsLabel)
    ensures r.UnknownViews? <==> views == None || views == Some(0)
    ensures r.Millions? <==> views.Some? && views.value >= 1000000
    ensures r.Thousands? <==> views.Some? && 1000 <= views.value < 1000000
    ensures r.Plain? <==> views.Some? && views.value != 0 && views.value < 1000
    ensures !r.UnknownViews? ==> r.count == views.value
  {
    if views.None? || views.value == 0 then UnknownViews
    else if views.value >= 1000000 then Millions(views.value)
    else if views.value >= 1000 then Thousands(views.value)
    else Plain(views.value)
  }

  /** The whole text of the buckets whose text is an integer: `Unknown views`
      and `${views} views`. */
  function ViewsText(l: ViewsLabel): (t: Option<string>)
    ensures t.Some? ==> EndsWith(t.value, l.Suffix())
  {
    match l
    case UnknownViews => Some(l.Suffix())
    case Plain(n) => Some(IntToString(n) + l.Suffix())
    case _ => None
  }

  /** More views never land in a smaller bucket. */
  lemma ViewsBucketsAreMonotone(a: int, b: int)
    requires 0 < a <= b
    ensures FormatViews(Some(a)).Rank() <= FormatViews(Some(b)).Rank()
  {
  }

  /** A small positive count reads back from its text. */
  lemma PlainViewsReadBack(n: int)
    requires 0 < n < 1000
    ensures var t := ViewsText(FormatViews(Some(n))).value;
            |t| > 6 && AllDigits(t[..|t| - 6]) && DigitsValue(t[..|t| - 6]) == n
  {
    IntToStringReadsBack(n);
    var t := ViewsText(FormatViews(Some(n))).value;
    assert t[..|t| - 6] == IntToString(n);
  }

  // ---------------------------------------------------------------------------
  // The format select

  /** One entry of the `formats` list of an info reply, as the script sees it. */
  datatype ClientFormat = ClientFormat(formatId: string, ext: Option<string>, quality: JsonValue)

  /** What the script reads from an info reply. */
  datatype ClientInfo = ClientInfo(
    title: Option<string>,
    uploader: Option<string>,
    duration: Option<int>,
    viewCount: Option<int>,
    formats: Option<seq<ClientFormat>>)

  datatype SelectOption = SelectOption(value: string, text: string)

  const BestOption: SelectOption := SelectOption(VideoRoutes.BestFormat, "Best Quality")

  /** The text a template literal gives a scalar JSON value. */
  function JsText(v: JsonValue): string {
    match v
    case JNull => "null"
    case JBool(b) => if b then "true" else "false"
    case JNumber(n) => IntToString(n)
    case JString(s) => s
  }

  /** `format.quality && format.quality !== 'Unknown'`. */
  predicate Offered(f: ClientFormat) {
    Truthy(f.quality) && f.quality != JString("Unknown")
  }

  /** The option of a format with an extension: its format id, and the label
      `${quality}p (${ext.toUpperCase()})`. */
  function OptionFor(f: ClientFormat): (o: SelectOption)
    requires f.ext.Some?
    ensures o.value == f.formatId
    ensures o.text == JsText(f.quality) + "p (" + ToUpper(f.ext.value) + ")"
  {
    SelectOption(f.formatId, JsText(f.quality) + "p (" + ToUpper(f.ext.value) + ")")
  }

  /** The options the `forEach` has appended after the best option, and
      whether it stopped on the `TypeError` of `null.toUpperCase()`. */
  datatype Filled = Filled(options: seq<SelectOption>, crashed: bool)

  /** The `forEach` over `fs`, one format at a time from the front: a format
      that is not offered is skipped, an offered one without an extension
      throws and ends the loop, any other appends its option. */
  function FilledBy(fs: seq<ClientFormat>): Filled
    decreases |fs|
  {
    if fs == [] then Filled([], false)
    else
      var before := FilledBy(fs[..|fs| - 1]);
      var f := fs[|fs| - 1];
      if before.crashed || !Offered(f) then before
      else if f.ext.None? then Filled(before.options, true)
      else Filled(before.options + [OptionFor(f)], false)
  }

  /** The positions of the offered formats, in order. */
  function OfferedIndices(fs: seq<ClientFormat>): (ix: seq<nat>)
    ensures forall k :: 0 <= k < |ix| ==> ix[k] < |fs| && Offered(fs[ix[k]])
    ensures forall k, l :: 0 <= k < l < |ix| ==> ix[k] < ix[l]
    ensures forall j :: 0 <= j < |fs| && Offered(fs[j]) ==> j in ix
    decreases |fs|
  {
    if fs == [] then []
    else
      var before := OfferedIndices(fs[..|fs| - 1]);
      if Offered(fs[|fs| - 1]) then before + [|fs| - 1] else before
  }

  /** No offered format lacks an extension, so `toUpperCase` never throws. */
  ghost predicate ExtsPresent(fs: seq<ClientFormat>) {
    forall j :: 0 <= j < |fs| && Offered(fs[j]) ==> fs[j].ext.Some?
  }

  /** Without a format that makes it throw, the loop appends one option per
      offered format, in input order, each the option of its format. */
  lemma {:induction false} FilledListsOfferedFormats(fs: seq<ClientFormat>)
    requires ExtsPresent(fs)
    ensures var r := FilledBy(fs);
            var ix := OfferedIndices(fs);
            && !r.crashed
            && |r.options| == |ix|
            && forall k :: 0 <= k < |ix| ==> r.options[k] == OptionFor(fs[ix[k]])
    decreases |fs|
  {
    if fs != [] {
      var init := fs[..|fs| - 1];
      assert ExtsPresent(init) by {
        forall j | 0 <= j < |init| && Offered(init[j]) ensures init[j].ext.Some? {
          assert init[j] == fs[j];
        }
      }
      FilledListsOfferedFormats(init);
      forall k | 0 <= k < |OfferedIndices(init)|
        ensures fs[OfferedIndices(init)[k]] == init[OfferedIndices(init)[k]]
      {
      }
    }
  }

  /** The loop stops on a format exactly when some offered format lacks an
      extension, and then it keeps the options appended before the first one. */
  lemma {:induction false} FilledCrashesOnMissingExt(fs: seq<ClientFormat>)
    ensures FilledBy(fs).crashed <==> !ExtsPresent(fs)
    ensures FilledBy(fs).crashed ==>
              exists j :: 0 <= j < |fs| && Offered(fs[j]) && fs[j].ext.None? && ExtsPresent(fs[..j]) &&
                          FilledBy(fs) == Filled(FilledBy(fs[..j]).options, true)
    decreases |fs|
  {
    if fs != [] {
      var n := |fs| - 1;
      var init := fs[..n];
      FilledCrashesOnMissingExt(init);
      assert forall j :: 0 <= j < n ==> init[j] == fs[j];
      if FilledBy(init).crashed {
        var j :| 0 <= j < n && Offered(init[j]) && init[j].ext.None? && ExtsPresent(init[..j]) &&
                 FilledBy(init) == Filled(FilledBy(init[..j]).options, true);
        assert init[..j] == fs[..j];
        assert !ExtsPresent(fs) by { assert fs[j] == init[j]; }
      } else {
        assert ExtsPresent(init);
        assert fs[..n] == init;
        if Offered(fs[n]) && fs[n].ext.None? {
          assert !ExtsPresent(fs);
        } else {
          assert ExtsPresent(fs) by {
            forall j | 0 <= j < |fs| && Offered(fs[j]) ensures fs[j].ext.Some? {
              if j < n { assert fs[j] == init[j]; }
            }
          }
        }
      }
    }
  }

  /** `displayVideoInfo`'s rebuilding of the select: the best option, then,
      when there is a format list, the options the `forEach` appends; the
      flag says whether the loop threw. */
  method PopulateFormatSelect(formats: Option<seq<ClientFormat>>)
    returns (options: seq<SelectOption>, crashed: bool)
    ensures |options| >= 1 && options[0] == BestOption
    ensures formats.None? ==> options == [BestOption] && !crashed
    ensures formats.Some? ==>
              options[1..] == FilledBy(formats.value).options && crashed == FilledBy(formats.value).crashed
  {
    options := [BestOption];
    crashed := false;
    if formats.Some? && |formats.value| > 0 {
      var fs := formats.value;
      var i := 0;
      while i < |fs| && !crashed
        invariant 0 <= i <= |fs|
        invariant |options| >= 1 && options[0] == BestOption
        invariant Filled(options[1..], crashed) == FilledBy(fs[..i])
        invariant crashed ==> FilledBy(fs) == FilledBy(fs[..i])
      {
        var f := fs[i];
        assert fs[..i + 1][..i] == fs[..i];
        if Offered(f) {
          if f.ext.None? {
            crashed := true;
            CrashIsFinal(fs, i + 1);
          } else {
            options := options + [OptionFor(f)];
          }
        }
        i := i + 1;
      }
      if !crashed {
        assert fs[..i] == fs;
      }
    } else if formats.Some? {
      assert formats.value == [];
    }
  }

  /** Once the loop has thrown, the remaining formats change nothing. */
  lemma {:induction false} CrashIsFinal(fs: seq<ClientFormat>, i: nat)
    requires i <= |fs| && FilledBy(fs[..i]).crashed
    ensures FilledBy(fs) == FilledBy(fs[..i])
    decreases |fs| - i
  {
    if i < |fs| {
      assert fs[..i + 1][..i] == fs[..i];
      CrashIsFinal(fs, i + 1);
    } else {
      assert fs[..i] == fs;
    }
  }

  // ---------------------------------------------------------------------------
  // What the backend sends

  /** A format entry of the info reply after the JSON round trip: the height
      arrives as a number. */
  function ToClientFormat(f: VideoRoutes.Format): ClientFormat {
    ClientFormat(f.formatId, f.ext, JNumber(f.quality))
  }

  function ToClientFormats(fs: seq<VideoRoutes.Format>): (r: seq<ClientFormat>)
    ensures |r| == |fs| && forall k :: 0 <= k < |fs| ==> r[k] == ToClientFormat(fs[k])
  {
    seq(|fs|, k requires 0 <= k < |fs| => ToClientFormat(fs[k]))
  }

  /** The info reply as the script reads it. */
  function ToClientInfo(m: VideoRoutes.VideoMetadata): ClientInfo {
    ClientInfo(m.title, m.uploader, m.duration, m.viewCount, Some(ToClientFormats(m.formats)))
  }

  /** When every format is offered, the offered positions are all positions. */
  lemma {:induction false} AllOfferedIndices(fs: seq<ClientFormat>)
    requires forall k :: 0 <= k < |fs| ==> Offered(fs[k])
    ensures |OfferedIndices(fs)| == |fs| && forall k :: 0 <= k < |fs| ==> OfferedIndices(fs)[k] == k
    decreases |fs|
  {
    if fs != [] {
      var init := fs[..|fs| - 1];
      assert forall k :: 0 <= k < |init| ==> init[k] == fs[k];
      AllOfferedIndices(init);
    }
  }

  /** Every format the info route reports has a non-zero height, so the
      script offers all of them: when none lacks an extension, the select
      holds, after the best option, one option per reported format in the
      reported order. */
  lemma ReportedFormatsAreAllOffered(raw: seq<VideoRoutes.RawFormat>)
    requires VideoRoutes.FormatsFrom(raw, 0).Some?
    ensures var fs := ToClientFormats(VideoRoutes.FormatsFrom(raw, 0).value);
            && (forall k :: 0 <= k < |fs| ==> Offered(fs[k]))
            && (ExtsPresent(fs) ==>
                  && !FilledBy(fs).crashed
                  && |FilledBy(fs).options| == |fs|
                  && forall k :: 0 <= k < |fs| ==> FilledBy(fs).options[k] == OptionFor(fs[k]))
  {
    var out := VideoRoutes.FormatsFrom(raw, 0).value;
    var fs := ToClientFormats(out);
    forall k | 0 <= k < |fs| ensures Offered(fs[k]) {
      VideoRoutes.FormatEntryCopiesSource(raw, k);
    }
    AllOfferedIndices(fs);
    if ExtsPresent(fs) {
      FilledListsOfferedFormats(fs);
    }
  }

  /** What the page shows for a successful `/info` reply: the duration and
      view texts of the reply's numbers and, when no reported format lacks an
      extension, the best option followed by one option per reported format,
      in the reported order. */
  lemma InfoReplyShown(body: map<string, JsonValue>, extraction: VideoRoutes.Extraction, p: Page)
    requires VideoRoutes.GetVideoInfo(body, extraction).response.Reply?
    ensures var info := extraction.info;
            var m := VideoRoutes.GetVideoInfo(body, extraction).response.body;
            var fs := ToClientFormats(m.formats);
            var q := Shown(p, ToClientInfo(m));
            && q.durationText == FormatDuration(info.duration)
            && q.views == Some(FormatViews(info.viewCount))
            && |fs| == |m.formats|
            && (forall k :: 0 <= k < |fs| ==> Offered(fs[k]))
            && (ExtsPresent(fs) ==>
                  && |q.options| == |m.formats| + 1
                  && forall k :: 0 <= k < |m.formats| ==> q.options[k + 1] == OptionFor(fs[k]))
  {
    var raw := VideoRoutes.RawFormats(extraction.info);
    ReportedFormatsAreAllOffered(raw);
  }

  // ---------------------------------------------------------------------------
  // The URL check of the download button

  datatype UrlCheck = MissingUrl | InvalidUrl | Accepted(url: string)

  /** `videoUrlInput.value.trim()`, then the two checks in order: empty, and
      rejected by `new URL(...)` (`parses`). */
  function CheckUrl(input: string, parses: string -> bool): (r: UrlCheck)
    ensures r == MissingUrl <==> Strip(input, JsWhitespace) == ""
    ensures r == InvalidUrl <==> Strip(input, JsWhitespace) != "" && !parses(Strip(input, JsWhitespace))
    ensures r.Accepted? ==> r.url == Strip(input, JsWhitespace) && r.url != "" && parses(r.url)
  {
    var url := Strip(input, JsWhitespace);
    if url == "" then MissingUrl
    else if !parses(url) then InvalidUrl
    else Accepted(url)
  }

  /** Blank input is reported as missing whatever the URL parser says. */
  lemma BlankInputIsMissing(input: string, p: string -> bool, q: string -> bool)
    requires forall i :: 0 <= i < |input| ==> input[i] in JsWhitespace
    ensures CheckUrl(input, p) == CheckUrl(input, q) == MissingUrl
  {
    assert LeadingCount(input, JsWhitespace) == |input|;
  }

  /** The text the URL check shows, if it fails. */
  function UrlCheckMessage(r: UrlCheck): (m: Option<string>)
    ensures m.Some? <==> !r.Accepted?
  {
    match r
    case MissingUrl => Some(EnterUrl)
    case InvalidUrl => Some(EnterValidUrl)
    case Accepted(_) => None
  }

  // ---------------------------------------------------------------------------
  // The page and its handlers

  /** A server reply as the handlers see it: `response.ok` with the parsed
      body, or a failing status with the body's `error` and `suggestion`. */
  datatype ServerReply<T> = Success(data: T) | Rejected(status: int, error: Option<string>, suggestion: Option<string>)

  /** What the error box shows. */
  datatype ErrorView =
    | Message(text: string)
    | BotAlert(message: string, suggestion: string)
      /** The `TypeError` of `null.toUpperCase()`, whose text the browser chooses. */
    | DisplayCrash

  /** A fetch the script makes. */
  datatype Request = InfoRequest(url: string) | DownloadRequest(url: string, formatId: string)

  /** The visible state of the page. `error` is `None` while the error box is hidden. */
  datatype Page = Page(
    loading: bool,
    error: Option<ErrorView>,
    infoVisible: bool,
    titleText: string,
    uploaderText: string,
    durationText: string,
    views: Option<ViewsLabel>,
    options: seq<SelectOption>,
    selected: string,
    playerVisible: bool,
    playerSrc: string,
    notices: seq<string>)

  /** A missing body field interpolated into a template literal. */
  function OrUndefined(v: Option<string>): string {
    match v
    case None => "undefined"
    case Some(s) => s
  }

  /** The error box for a failing reply: the bot-detection alert for 429,
      otherwise `data.error`, or `fallback` when that is missing or empty. */
  function RejectionView(status: int, error: Option<string>, suggestion: Option<string>, fallback: string): (v: ErrorView)
    ensures status == TooManyRequests ==> v == BotAlert(OrUndefined(error), OrUndefined(suggestion))
    ensures status != TooManyRequests && error.Some? && error.value != "" ==> v == Message(error.value)
    ensures status != TooManyRequests && (error.None? || error.value == "") ==> v == Message(fallback)
  {
    if status == TooManyRequests then BotAlert(OrUndefined(error), OrUndefined(suggestion))
    else if error.Some? && error.value != "" then Message(error.value)
    else Message(fallback)
  }

  /** A missing body field interpolated into a template literal after `null` came through JSON. */
  function OrNull(v: Option<string>): string {
    match v
    case None => "null"
    case Some(s) => s
  }

  /** The options appended after the best option for a format list, if any. */
  function FilledOf(formats: Option<seq<ClientFormat>>): Filled {
    if formats.Some? then FilledBy(formats.value) else Filled([], false)
  }

  /** The page after `displayVideoInfo(info)` has written its texts and the
      format select, before it shows the info section. */
  function Shown(p: Page, info: ClientInfo): (q: Page)
    ensures |q.options| >= 1 && q.options[0] == BestOption && q.selected == VideoRoutes.BestFormat
    ensures q.durationText == FormatDuration(info.duration) && q.views == Some(FormatViews(info.viewCount))
  {
    p.(titleText := info.title.GetOr(""),
       uploaderText := "By: " + OrNull(info.uploader),
       durationText := FormatDuration(info.duration),
       views := Some(FormatViews(info.viewCount)),
       options := [BestOption] + FilledOf(info.formats).options,
       selected := VideoRoutes.BestFormat)
  }

  /** The script's globals and the page it drives. */
  class ClientState {
    /** What the URL box holds. */
    var urlInput: string
    var currentVideoInfo: Option<ClientInfo>
    var currentDownloadedFile: Option<string>
    var page: Page
    /** Every request made, in order. */
    var requests: seq<Request>
    /** The `(href, download)` of every download link clicked, in order. */
    var clicked: seq<(string, string)>

    constructor ()
      ensures urlInput == "" && currentVideoInfo == None && currentDownloadedFile == None
      ensures requests == [] && clicked == []
      ensures page == Page(false, None, false, "", "", "", None, [], "", false, "", [])
    {
      urlInput := "";
      currentVideoInfo := None;
      currentDownloadedFile := None;
      page := Page(false, None, false, "", "", "", None, [], "", false, "", []);
      requests := [];
      clicked := [];
    }

    /** The user types into the URL box. */
    method TypeUrl(text: string)
      modifies this
      ensures urlInput == text
      ensures currentVideoInfo == old(currentVideoInfo) && currentDownloadedFile == old(currentDownloadedFile)
      ensures page == old(page) && requests == old(requests) && clicked == old(clicked)
    {
      urlInput := text;
    }

    /** The user picks an option of the format select. */
    method ChooseFormat(value: string)
      requires exists k :: 0 <= k < |page.options| && page.options[k].value == value
      modifies this
      ensures page == old(page).(selected := value)
      ensures urlInput == old(urlInput)
      ensures currentVideoInfo == old(currentVideoInfo) && currentDownloadedFile == old(currentDownloadedFile)
      ensures requests == old(requests) && clicked == old(clicked)
    {
      page := page.(selected := value);
    }

    /** `displayVideoInfo(info)`: title, uploader, duration and views, then the
        format select rebuilt (its value back on the best option); the info
        section is shown only when rebuilding the select did not throw.
        Returns whether it threw. */
    method DisplayVideoInfo(info: ClientInfo) returns (crashed: bool)
      modifies this
      ensures crashed == FilledOf(info.formats).crashed
      ensures page == Shown(old(page), info).(infoVisible := old(page).infoVisible || !crashed)
      ensures urlInput == old(urlInput)
      ensures currentVideoInfo == old(currentVideoInfo) && currentDownloadedFile == old(currentDownloadedFile)
      ensures requests == old(requests) && clicked == old(clicked)
    {
      var options;
      options, crashed := PopulateFormatSelect(info.formats);
      assert options == [BestOption] + options[1..];
      page := page.(titleText := info.title.GetOr(""),
                    uploaderText := "By: " + OrNull(info.uploader),
                    durationText := FormatDuration(info.duration),
                    views := Some(FormatViews(info.viewCount)),
                    options := options,
                    selected := VideoRoutes.BestFormat);
      if !crashed {
        page := page.(infoVisible := true);
      }
    }

    /** `handleDownload()`: the URL checks come first and, when one fails,
        only the error box changes and nothing is requested. Otherwise the
        page is reset (loading shown, error, info and player hidden, player
        source cleared), the info is requested and the reply handled: a failing
        reply shows its error; a successful one becomes the current video info
        before it is displayed, and a display that throws shows that error. */
    method HandleDownload(parses: string -> bool, reply: ServerReply<ClientInfo>)
      modifies this
      ensures urlInput == old(urlInput) && currentDownloadedFile == old(currentDownloadedFile)
      ensures clicked == old(clicked)
      ensures !CheckUrl(old(urlInput), parses).Accepted? ==>
                && page == old(page).(error := Some(Message(UrlCheckMessage(CheckUrl(old(urlInput), parses)).value)))
                && requests == old(requests)
                && currentVideoInfo == old(currentVideoInfo)
      ensures CheckUrl(old(urlInput), parses).Accepted? ==>
                requests == old(requests) + [InfoRequest(CheckUrl(old(urlInput), parses).url)]
      ensures CheckUrl(old(urlInput), parses).Accepted? && reply.Rejected? ==>
                && currentVideoInfo == old(currentVideoInfo)
                && page == old(page).(loading := false, infoVisible := false, playerVisible := false, playerSrc := "",
                                      error := Some(RejectionView(reply.status, reply.error, reply.suggestion, InfoFailed)))
      ensures CheckUrl(old(urlInput), parses).Accepted? && reply.Success? ==>
                var crashed := FilledOf(reply.data.formats).crashed;
                && currentVideoInfo == Some(reply.data)
                && page == Shown(old(page), reply.data).(loading := false, playerVisible := false, playerSrc := "",
                                                         infoVisible := !crashed,
                                                         error := if crashed then Some(DisplayCrash) else None)
    {
      var check := CheckUrl(urlInput, parses);
      if !check.Accepted? {
        page := page.(error := Some(Message(UrlCheckMessage(check).value)));
        return;
      }
      page := page.(loading := true, error := None, infoVisible := false, playerVisible := false, playerSrc := "");
      requests := requests + [InfoRequest(check.url)];
      match reply {
        case Rejected(status, error, suggestion) =>
          page := page.(error := Some(RejectionView(status, error, suggestion, InfoFailed)), loading := false);
        case Success(info) =>
          currentVideoInfo := Some(info);
          var crashed := DisplayVideoInfo(info);
          if crashed {
            page := page.(error := Some(DisplayCrash));
          }
          page := page.(loading := false);
      }
    }

    /** The download request both buttons make: the trimmed URL box and the select's value. */
    function DownloadRequestNow(): Request
      reads this
    {
      DownloadRequest(Strip(urlInput, JsWhitespace), page.selected)
    }

    /** `handlePlay()`: nothing at all happens before video info is loaded.
        Otherwise the file is requested; a failing reply shows its error, a
        successful one becomes the current downloaded file and the player
        plays it from its stream path. */
    method HandlePlay(reply: ServerReply<VideoRoutes.DownloadLink>)
      modifies this
      ensures currentVideoInfo.None? ==>
                && page == old(page) && requests == old(requests)
                && currentDownloadedFile == old(currentDownloadedFile)
      ensures currentVideoInfo.Some? ==> requests == old(requests) + [old(DownloadRequestNow())]
      ensures currentVideoInfo.Some? && reply.Rejected? ==>
                && currentDownloadedFile == old(currentDownloadedFile)
                && page == old(page).(loading := false,
                                      error := Some(RejectionView(reply.status, reply.error, reply.suggestion, DownloadFailedText)))
      ensures currentVideoInfo.Some? && reply.Success? ==>
                && currentDownloadedFile == Some(reply.data.filename)
                && page == old(page).(loading := false, playerVisible := true,
                                      playerSrc := VideoRoutes.StreamUrl(reply.data.filename))
      ensures urlInput == old(urlInput) && currentVideoInfo == old(currentVideoInfo) && clicked == old(clicked)
    {
      if currentVideoInfo.None? {
        return;
      }
      page := page.(loading := true);
      requests := requests + [DownloadRequestNow()];
      match reply {
        case Rejected(status, error, suggestion) =>
          page := page.(error := Some(RejectionView(status, error, suggestion, DownloadFailedText)), loading := false);
        case Success(link) =>
          currentDownloadedFile := Some(link.filename);
          page := page.(playerSrc := VideoRoutes.StreamUrl(link.filename));
          page := page.(playerVisible := true, loading := false);
      }
    }

    /** `handleConfirmDownload()`: nothing at all happens before video info is
        loaded. Otherwise the file is requested; a failing reply shows its
        error, a successful one clicks a link to its download URL and shows
        the success notice. */
    method HandleConfirmDownload(reply: ServerReply<VideoRoutes.DownloadLink>)
      modifies this
      ensures currentVideoInfo.None? ==>
                page == old(page) && requests == old(requests) && clicked == old(clicked)
      ensures currentVideoInfo.Some? ==> requests == old(requests) + [old(DownloadRequestNow())]
      ensures currentVideoInfo.Some? && reply.Rejected? ==>
                && clicked == old(clicked)
                && page == old(page).(loading := false,
                                      error := Some(RejectionView(reply.status, reply.error, reply.suggestion, DownloadFailedText)))
      ensures currentVideoInfo.Some? && reply.Success? ==>
                && clicked == old(clicked) + [(reply.data.downloadUrl, reply.data.filename)]
                && page == old(page).(loading := false, notices := old(page).notices + [DownloadDone])
      ensures urlInput == old(urlInput) && currentVideoInfo == old(currentVideoInfo)
      ensures currentDownloadedFile == old(currentDownloadedFile)
    {
      if currentVideoInfo.None? {
        return;
      }
      page := page.(loading := true);
      requests := requests + [DownloadRequestNow()];
      match reply {
        case Rejected(status, error, suggestion) =>
          page := page.(error := Some(RejectionView(status, error, suggestion, DownloadFailedText)), loading := false);
        case Success(link) =>
          clicked := clicked + [(link.downloadUrl, link.filename)];
          page := page.(loading := false);
          page := page.(notices := page.notices + [DownloadDone]);
      }
    }

    /** `closeVideoPlayer()`: the player is hidden and its source cleared. */
    method ClosePlayer()
      modifies this
      ensures page == old(page).(playerVisible := false, playerSrc := "")
      ensures urlInput == old(urlInput) && currentVideoInfo == old(currentVideoInfo)
      ensures currentDownloadedFile == old(currentDownloadedFile)
      ensures requests == old(requests) && clicked == old(clicked)
    {
      page := page.(playerVisible := false, playerSrc := "");
    }
  }
}
