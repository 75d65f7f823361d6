/**
 * The video list's pure parts: shaping the server's video records into
 * cards with defaults, and `formatDuration`, which reads an ISO 8601
 * duration in the designator format `PT#H#M#S` (section 4.4.3.2 of
 * ISO 8601:2004) and shows it as H:MM:SS or M:SS.
 */
module Video {
  import opened Optional
  import opened JsText

  // ------------------------------------------------------------ durations

  datatype Clock = Clock(hours: nat, minutes: nat, seconds: nat)

  /** Index of the first "PT" in s, or |s| when there is none: where the unanchored pattern matches. */
  function FindDesignator(s: string): (k: nat)
    ensures k <= |s|
    ensures k < |s| ==> k + 1 < |s| && s[k] == 'P' && s[k + 1] == 'T'
    ensures forall j :: 0 <= j < k && j + 1 < |s| ==> !(s[j] == 'P' && s[j + 1] == 'T')
  {
    if |s| < 2 then |s|
    else if s[0] == 'P' && s[1] == 'T' then 0
    else 1 + FindDesignator(s[1..])
  }

  /**
   * The optional group `(?:(\d+)d)?` at the start of s: the value of the
   * whole digit run when the designator d follows it, with the rest of s;
   * otherwise no value and s untouched.
   */
  function Designated(s: string, d: char): (r: (Option<nat>, string))
    ensures r.0.None? ==> r.1 == s
  {
    var k := RunLength(s, 10);
    if 0 < k < |s| && s[k] == d then (Some(ValueIn(s[..k], 10)), s[k + 1..]) else (None, s)
  }

  /**
   * `duration.match(/PT(?:(\d+)H)?(?:(\d+)M)?(?:(\d+)S)?/)` with each
   * captured group through `parseInt(...) || 0`; None when there is no match.
   */
  function ParseDuration(s: string): Option<Clock> {
    var p := FindDesignator(s);
    if p == |s| then None
    else
      var h := Designated(s[p + 2..], 'H');
      var m := Designated(h.1, 'M');
      var sec := Designated(m.1, 'S');
      Some(Clock(h.0.GetOr(0), m.0.GetOr(0), sec.0.GetOr(0)))
  }

  function Pad2(n: nat): string {
    PadStart(NatToString(n), 2, '0')
  }

  /** The fields shown: hours, padded minutes and padded seconds when there are hours; else minutes and padded seconds. */
  function ClockFields(c: Clock): seq<string> {
    if c.hours > 0 then [NatToString(c.hours), Pad2(c.minutes), Pad2(c.seconds)]
    else [NatToString(c.minutes), Pad2(c.seconds)]
  }

  /** `formatDuration(duration)`: "0:00" for '' or no match, else the fields joined by ':'. */
  function FormatDuration(duration: string): string {
    if duration == "" then "0:00"
    else
      var parsed := ParseDuration(duration);
      if parsed.None? then "0:00" else Join(ClockFields(parsed.value), ":")
  }

  /** The text of a clock in the designator format, omitting zero parts (and "PT0S" for zero). */
  function DurationText(c: Clock): string {
    "PT" + Part(c.hours, 'H', c.hours > 0) + Part(c.minutes, 'M', c.minutes > 0)
    + Part(c.seconds, 'S', c.seconds > 0 || (c.hours == 0 && c.minutes == 0))
  }

  function Part(n: nat, d: char, emit: bool): string {
    if emit then NatToString(n) + [d] else ""
  }

  /** A digit run followed by a non-digit: the run is exactly the digits. */
  lemma {:induction false} RunBeforeLetter(digits: string, d: char, tail: string)
    requires AllDigitsIn(digits, 10) && !IsDigitIn(d, 10)
    ensures RunLength(digits + [d] + tail, 10) == |digits|
  {
    if digits != [] {
      assert (digits + [d] + tail)[1..] == digits[1..] + [d] + tail;
      RunBeforeLetter(digits[1..], d, tail);
    }
  }

  /** A group meets its own part and takes it; another group leaves the text alone. */
  lemma PartDesignated(n: nat, d: char, emit: bool, e: char, tail: string)
    requires !IsDigitIn(d, 10)
    ensures emit ==>
              Designated(Part(n, d, emit) + tail, e)
              == if d == e then (Some(n), tail) else (None, Part(n, d, emit) + tail)
    ensures !emit ==> Part(n, d, emit) + tail == tail
  {
    if emit {
      var digits := NatToString(n);
      var s := digits + [d] + tail;
      assert Part(n, d, emit) + tail == s;
      RunBeforeLetter(digits, d, tail);
      assert s[..|digits|] == digits;
      assert s[|digits|] == d;
      assert s[|digits| + 1..] == tail;
    }
  }

  /** The three designator letters are not digits. */
  lemma LettersAreNotDigits()
    ensures !IsDigitIn('H', 10) && !IsDigitIn('M', 10) && !IsDigitIn('S', 10)
  {
  }

  function HoursPart(c: Clock): string { Part(c.hours, 'H', c.hours > 0) }
  function MinutesPart(c: Clock): string { Part(c.minutes, 'M', c.minutes > 0) }
  function SecondsPart(c: Clock): string { Part(c.seconds, 'S', c.seconds > 0 || (c.hours == 0 && c.minutes == 0)) }

  /** The hours group reads the hours (0 when absent) and leaves the minutes and seconds parts. */
  lemma HoursGroup(c: Clock)
    ensures var r := Designated(HoursPart(c) + (MinutesPart(c) + SecondsPart(c)), 'H');
      r.0.GetOr(0) == c.hours && r.1 == MinutesPart(c) + SecondsPart(c)
  {
    LettersAreNotDigits();
    var tail := MinutesPart(c) + SecondsPart(c);
    PartDesignated(c.hours, 'H', c.hours > 0, 'H', tail);
    if c.hours == 0 {
      PartDesignated(c.minutes, 'M', c.minutes > 0, 'H', SecondsPart(c));
      PartDesignated(c.seconds, 'S', c.seconds > 0 || c.minutes == 0, 'H', "");
      assert SecondsPart(c) + "" == SecondsPart(c);
      if c.minutes == 0 {
        assert tail == SecondsPart(c) + "";
      }
    }
  }

  /** The minutes group reads the minutes (0 when absent) and leaves the seconds part. */
  lemma MinutesGroup(c: Clock)
    ensures var r := Designated(MinutesPart(c) + SecondsPart(c), 'M');
      r.0.GetOr(0) == c.minutes && r.1 == SecondsPart(c)
  {
    LettersAreNotDigits();
    PartDesignated(c.minutes, 'M', c.minutes > 0, 'M', SecondsPart(c));
    if c.minutes == 0 {
      PartDesignated(c.seconds, 'S', c.seconds > 0 || c.hours == 0, 'M', "");
      assert SecondsPart(c) + "" == SecondsPart(c);
    }
  }

  /** The seconds group reads the seconds (0 when absent). */
  lemma SecondsGroup(c: Clock)
    ensures Designated(SecondsPart(c), 'S').0.GetOr(0) == c.seconds
  {
    LettersAreNotDigits();
    PartDesignated(c.seconds, 'S', c.seconds > 0 || (c.hours == 0 && c.minutes == 0), 'S', "");
    assert SecondsPart(c) + "" == SecondsPart(c);
    assert Designated("", 'S') == (None, "");
  }

  /**
   * Reading a duration written in the designator format gives back its
   * hours, minutes and seconds; absent parts read as 0.
   */
  lemma DurationRoundTrip(c: Clock)
    ensures ParseDuration(DurationText(c)) == Some(c)
  {
    var rest := HoursPart(c) + (MinutesPart(c) + SecondsPart(c));
    var s := DurationText(c);
    assert s == "PT" + rest;
    assert FindDesignator(s) == 0;
    assert s[2..] == rest;
    HoursGroup(c);
    MinutesGroup(c);
    SecondsGroup(c);
  }

  /** A bare "PT" matches with every group absent: zero hours, minutes and seconds. */
  lemma BareDesignatorIsZero()
    ensures ParseDuration("PT") == Some(Clock(0, 0, 0))
  {
    assert FindDesignator("PT") == 0;
    assert "PT"[2..] == "";
    assert Designated("", 'H') == (None, "");
    assert Designated("", 'M') == (None, "");
    assert Designated("", 'S') == (None, "");
  }

  /** The zero clock shows as "0:00". */
  lemma ZeroClockText()
    ensures Join(ClockFields(Clock(0, 0, 0)), ":") == "0:00"
  {
    assert NatToString(0) == "0";
    assert Pad2(0) == "00";
    assert ClockFields(Clock(0, 0, 0)) == ["0", "00"];
    assert Join(["0", "00"], ":") == "0" + ":" + "00";
  }

  /** An empty duration, a text without "PT", and a bare "PT" all show "0:00". */
  lemma NoDurationShowsZero(s: string)
    ensures FormatDuration("") == "0:00"
    ensures FindDesignator(s) == |s| ==> FormatDuration(s) == "0:00"
    ensures FormatDuration("PT") == "0:00"
  {
    BareDesignatorIsZero();
    ZeroClockText();
  }

  /**
   * With hours, three fields read back: the hours, the minutes padded to two
   * characters (below 100) and the seconds padded likewise.
   */
  lemma HoursFieldsReadBack(c: Clock)
    requires c.hours > 0
    ensures |ClockFields(c)| == 3
    ensures ParseInt(ClockFields(c)[0]) == Some(c.hours)
    ensures ParseInt(ClockFields(c)[1]) == Some(c.minutes)
    ensures ParseInt(ClockFields(c)[2]) == Some(c.seconds)
    ensures c.minutes < 100 ==> |ClockFields(c)[1]| == 2
    ensures c.seconds < 100 ==> |ClockFields(c)[2]| == 2
  {
    var f := ClockFields(c);
    assert f == [NatToString(c.hours), Pad2(c.minutes), Pad2(c.seconds)];
    DigitsParse(f[0]);
    ParsePadded(c.minutes);
    ParsePadded(c.seconds);
    PadShort(c.minutes);
    PadShort(c.seconds);
  }

  /** Without hours, two fields read back: the minutes unpadded and the seconds padded to two characters. */
  lemma MinutesFieldsReadBack(c: Clock)
    requires c.hours == 0
    ensures |ClockFields(c)| == 2
    ensures ParseInt(ClockFields(c)[0]) == Some(c.minutes)
    ensures ParseInt(ClockFields(c)[1]) == Some(c.seconds)
    ensures c.seconds < 100 ==> |ClockFields(c)[1]| == 2
  {
    var f := ClockFields(c);
    assert f == [NatToString(c.minutes), Pad2(c.seconds)];
    DigitsParse(f[0]);
    ParsePadded(c.seconds);
    PadShort(c.seconds);
  }

  /** No field holds ':', so the colons separate the fields unambiguously. */
  lemma ClockFieldsHaveNoColon(c: Clock)
    ensures var f := ClockFields(c);
      forall i, j :: 0 <= i < |f| && 0 <= j < |f[i]| ==> f[i][j] != ':'
  {
    var f := ClockFields(c);
    assert forall i :: 0 <= i < |f| ==> AllDigitsIn(f[i], 10) by {
      PadShort(c.minutes);
      PadShort(c.seconds);
    }
    forall i, j | 0 <= i < |f| && 0 <= j < |f[i]|
      ensures f[i][j] != ':'
    {
      assert IsDigitIn(f[i][j], 10);
    }
  }

  /** A padded number below 100 is two characters, all digits. */
  lemma PadShort(n: nat)
    ensures AllDigitsIn(Pad2(n), 10)
    ensures n < 100 ==> |Pad2(n)| == 2
  {
    var d := NatToString(n);
    if n >= 10 && n < 100 {
      assert NatToString(n / 10) == [DigitChar(n / 10)];
    }
    if |d| < 2 {
      assert Pad2(n) == "0" + d;
    }
  }

  /** A duration in the designator format shows its own clock fields. */
  lemma FormatDurationOfText(c: Clock)
    ensures FormatDuration(DurationText(c)) == Join(ClockFields(c), ":")
  {
    DurationRoundTrip(c);
  }

  // ---------------------------------------------------------------- videos

  datatype Snippet = Snippet(
    title: Option<string>,
    description: Option<string>,
    thumbnailUrl: Option<string>,
    channelTitle: Option<string>,
    publishedAt: Option<string>,
    duration: Option<string>)

  /** The counts, as the numbers they denote. */
  datatype Statistics = Statistics(viewCount: Option<int>, likeCount: Option<int>)

  datatype RawVideo = RawVideo(id: string, snippet: Option<Snippet>, statistics: Option<Statistics>)

  datatype VideoCard = VideoCard(
    id: string,
    title: string,
    description: string,
    thumbnail: string,
    channelTitle: string,
    publishedAt: string,
    viewCount: int,
    likeCount: int,
    duration: string,
    url: string)

  const WatchUrl: string := "https://www.youtube.com/watch?v="

  /** `x || fallback` for an optional text. */
  function TextOr(o: Option<string>, fallback: string): (r: string)
    ensures o.Some? && o.value != "" ==> r == o.value
    ensures o.None? || o.value == "" ==> r == fallback
  {
    if o.Some? && o.value != "" then o.value else fallback
  }

  /** One video record as a card. */
  function ShapeVideo(v: RawVideo): VideoCard {
    var sn := v.snippet;
    var st := v.statistics;
    VideoCard(
      v.id,
      TextOr(if sn.Some? then sn.value.title else None, "タイトルなし"),
      TextOr(if sn.Some? then sn.value.description else None, ""),
      TextOr(if sn.Some? then sn.value.thumbnailUrl else None, ""),
      TextOr(if sn.Some? then sn.value.channelTitle else None, "チャンネル名なし"),
      TextOr(if sn.Some? then sn.value.publishedAt else None, ""),
      if st.Some? && st.value.viewCount.Some? then st.value.viewCount.value else 0,
      if st.Some? && st.value.likeCount.Some? then st.value.likeCount.value else 0,
      TextOr(if sn.Some? then sn.value.duration else None, ""),
      WatchUrl + v.id)
  }

  /** `data.videos?.map(...) || []` */
  function ShapeVideos(videos: Option<seq<RawVideo>>): seq<VideoCard> {
    if videos.None? then []
    else seq(|videos.value|, i requires 0 <= i < |videos.value| => ShapeVideo(videos.value[i]))
  }

  /** `x || fallback` for an optional text: the shown text is x when x is truthy, else the fallback. */
  predicate ShowsOr(x: Option<string>, shown: string, fallback: string) {
    && (x.Some? && x.value != "" ==> shown == x.value)
    && (x.None? || x.value == "" ==> shown == fallback)
  }

  /** `x || 0` for an optional count: the count when present, else 0. */
  predicate CountOr(x: Option<int>, shown: int) {
    && (x.Some? ==> shown == x.value)
    && (x.None? ==> shown == 0)
  }

  /**
   * The card for a video, field by field: each `video.snippet?.f` that is
   * truthy is shown as it is and otherwise replaced by its default, each
   * count likewise; the id is kept and the link ends in it.
   */
  predicate CardFor(v: RawVideo, c: VideoCard) {
    var sn := v.snippet;
    var st := v.statistics;
    && c.id == v.id
    && c.url == WatchUrl + v.id
    && ShowsOr(if sn.Some? then sn.value.title else None, c.title, "タイトルなし")
    && ShowsOr(if sn.Some? then sn.value.description else None, c.description, "")
    && ShowsOr(if sn.Some? then sn.value.thumbnailUrl else None, c.thumbnail, "")
    && ShowsOr(if sn.Some? then sn.value.channelTitle else None, c.channelTitle, "チャンネル名なし")
    && ShowsOr(if sn.Some? then sn.value.publishedAt else None, c.publishedAt, "")
    && ShowsOr(if sn.Some? then sn.value.duration else None, c.duration, "")
    && CountOr(if st.Some? then st.value.viewCount else None, c.viewCount)
    && CountOr(if st.Some? then st.value.likeCount else None, c.likeCount)
  }

  /**
   * One card per video, in order, keeping the id; the link is the watch URL
   * ending in that id; titles and channel names are never empty; a video
   * without a snippet or statistics gets the placeholders, empty texts and
   * zero counts; every other field is the video's own value when that is
   * truthy and its default otherwise; no video list gives no cards.
   */
  lemma ShapeVideosDefaults(videos: Option<seq<RawVideo>>)
    ensures videos.None? ==> ShapeVideos(videos) == []
    ensures videos.Some? ==>
      var cards := ShapeVideos(videos);
      && |cards| == |videos.value|
      && forall i :: 0 <= i < |cards| ==>
           var v := videos.value[i];
           && cards[i].id == v.id
           && cards[i].url[..|WatchUrl|] == WatchUrl && cards[i].url[|WatchUrl|..] == v.id
           && cards[i].title != "" && cards[i].channelTitle != ""
           && (v.snippet.None? ==>
                 && cards[i].title == "タイトルなし" && cards[i].channelTitle == "チャンネル名なし"
                 && cards[i].description == "" && cards[i].thumbnail == "" && cards[i].duration == ""
                 && cards[i].publishedAt == "")
           && (v.statistics.None? ==> cards[i].viewCount == 0 && cards[i].likeCount == 0)
           && CardFor(v, cards[i])
  {
  }

  /** A card's duration shows "0:00" when the video has none. */
  lemma MissingDurationShowsZero(v: RawVideo)
    requires v.snippet.None? || v.snippet.value.duration.None?
    ensures FormatDuration(ShapeVideo(v).duration) == "0:00"
  {
  }
}
