/**
 * The parsed probe result (the JSON object ffprobe prints for
 * `-show_format -show_streams`), the classified record, and the stream
 * partition both classifiers share.
 */
module Probe {
  import opened Wrappers
  import opened TextOps

  /**
   * A JSON scalar as ffprobe reports bit depths: `bits_per_raw_sample` comes
   * as a string ("10"), `bits_per_sample` as a number.
   */
  datatype Scalar = Str(s: string) | Num(n: int) {
    /** Python truthiness: "" and 0 are false, everything else is true. */
    predicate Truthy() {
      match this
      case Str(s) => s != ""
      case Num(n) => n != 0
    }

    /** The text an f-string substitutes for it. */
    function Render(): string {
      match this
      case Str(s) => s
      case Num(n) => IntToString(n)
    }
  }

  /** Truthiness of an optional scalar: a missing value (`None`) is false. */
  predicate IsTruthy(v: Option<Scalar>) {
    v.Some? && v.value.Truthy()
  }

  /** Python's `a or b` on two optional scalars. */
  function PyOr(a: Option<Scalar>, b: Option<Scalar>): (r: Option<Scalar>)
    ensures IsTruthy(r) <==> IsTruthy(a) || IsTruthy(b)
    ensures IsTruthy(a) ==> r == a
    ensures !IsTruthy(a) ==> r == b
  {
    if IsTruthy(a) then a else b
  }

  /** One entry of the probe's "streams" list; `None` is a key ffprobe left out. */
  datatype Stream = Stream(
    codecType: string,
    codecName: Option<string>,
    width: Option<int>,
    height: Option<int>,
    bitsPerRawSample: Option<Scalar>,
    bitsPerSample: Option<Scalar>,
    colorTransfer: Option<string>,
    profile: Option<string>,
    title: Option<string>)  // the stream's "tags" -> "title"

  /** The probe's "format" object; only its byte size is read. */
  datatype Format = Format(size: Option<nat>)

  /**
   * The decoded probe output: its "format" and "streams" keys, each possibly
   * absent, and whether it has any other key (such as "programs"), which only
   * matters to its truthiness.
   */
  datatype ProbeInfo = ProbeInfo(format: Option<Format>, streams: Option<seq<Stream>>, otherKeys: bool) {
    /** `info.get("streams", [])` */
    function StreamList(): seq<Stream> {
      streams.GetOr([])
    }

    /** `info.get("format", {}).get("size", 0)` */
    function SizeBytes(): nat {
      match format
      case Some(Format(Some(n))) => n
      case _ => 0
    }
  }

  /**
   * `if info:` on what the probe returned: `None` (the probe raised) and an
   * empty object are false; an object with any key at all is true, even one
   * without "format" and "streams".
   */
  predicate ProbeSucceeded(probe: Option<ProbeInfo>)
    ensures ProbeSucceeded(probe) <==> probe.Some? && probe.value != ProbeInfo(None, None, false)
  {
    probe.Some? && (probe.value.format.Some? || probe.value.streams.Some? || probe.value.otherKeys)
  }

  /**
   * A value of the classified record. `Size` keeps the byte count the source
   * turns into its "X MB" text.
   */
  datatype Field = Flag(on: bool) | Text(text: string) | Bytes(count: nat)

  /**
   * A key of the classified record. `Key` gives the dictionary key it stands
   * for; an audio-codec column carries its upper-cased codec name.
   */
  datatype Column =
    | File | Size | MKV | MP4 | HEVC | H264 | AV1 | FourK
    | HDR | DolbyVision | DolbyAtmos | Resolution | BitDepth
    | AudioCodec(name: string)
  {
    function Key(): string {
      match this
      case File => "File"
      case Size => "Size"
      case MKV => "MKV"
      case MP4 => "MP4"
      case HEVC => "HEVC"
      case H264 => "H264"
      case AV1 => "AV1"
      case FourK => "4K"
      case HDR => "HDR"
      case DolbyVision => "DolbyVision"
      case DolbyAtmos => "DolbyAtmos"
      case Resolution => "Resolution"
      case BitDepth => "BitDepth"
      case AudioCodec(name) => name
    }
  }

  /**
   * The classified record: the dictionary `detect_features` returns. Its
   * thirteen fixed keys are fields; the audio-codec columns, keyed by the
   * upper-cased codec name, are `audioCodecs`.
   */
  datatype Record = Record(
    file: string, size: nat, mkv: bool, mp4: bool, hevc: bool, h264: bool, av1: bool,
    fourK: bool, hdr: bool, dolbyVision: bool, dolbyAtmos: bool,
    resolution: string, bitDepth: string, audioCodecs: map<string, bool>)
  {
    /** `record.get(column.Key())`: the value under a column, `None` when it is absent. */
    function Get(c: Column): (v: Option<Field>)
      ensures !c.AudioCodec? ==> v.Some?
      ensures c.AudioCodec? ==> (v.Some? <==> c.name in audioCodecs)
    {
      match c
      case File => Some(Text(file))
      case Size => Some(Bytes(size))
      case MKV => Some(Flag(mkv))
      case MP4 => Some(Flag(mp4))
      case HEVC => Some(Flag(hevc))
      case H264 => Some(Flag(h264))
      case AV1 => Some(Flag(av1))
      case FourK => Some(Flag(fourK))
      case HDR => Some(Flag(hdr))
      case DolbyVision => Some(Flag(dolbyVision))
      case DolbyAtmos => Some(Flag(dolbyAtmos))
      case Resolution => Some(Text(resolution))
      case BitDepth => Some(Text(bitDepth))
      case AudioCodec(name) => if name in audioCodecs then Some(Flag(audioCodecs[name])) else None
    }
  }

  /** The exception `detect_features` raises: `video_streams[0]` on an empty list. */
  datatype Error = NoVideoStream

  /** A list comprehension `[x for x in s if keep(x)]`. */
  function Filter<T(!new)>(s: seq<T>, keep: T -> bool): (r: seq<T>)
    ensures |r| <= |s|
    ensures forall x :: x in r <==> x in s && keep(x)
  {
    if s == [] then []
    else Filter(s[..|s| - 1], keep) + (if keep(s[|s| - 1]) then [s[|s| - 1]] else [])
  }

  /** Filtering distributes over concatenation, so it keeps the order of what it keeps. */
  lemma {:induction false} FilterAppend<T(!new)>(a: seq<T>, b: seq<T>, keep: T -> bool)
    ensures Filter(a + b, keep) == Filter(a, keep) + Filter(b, keep)
  {
    if b != [] {
      assert (a + b)[..|a + b| - 1] == a + b[..|b| - 1];
      FilterAppend(a, b[..|b| - 1], keep);
    } else {
      assert a + b == a;
    }
  }

  /** The first element kept is the first element of `s` that passes `keep`. */
  lemma {:induction false} FilterFirst<T(!new)>(s: seq<T>, keep: T -> bool, i: nat)
    requires i < |s| && keep(s[i])
    requires forall j :: 0 <= j < i ==> !keep(s[j])
    ensures Filter(s, keep) != [] && Filter(s, keep)[0] == s[i]
  {
    var pre, post := s[..i], s[i + 1..];
    assert s == pre + ([s[i]] + post);
    assert Filter(pre, keep) == [] by {
      FilterNone(pre, keep);
    }
    FilterSingleton(s[i], keep);
    FilterAppend(pre, [s[i]] + post, keep);
    FilterAppend([s[i]], post, keep);
  }

  /** A single element is kept exactly when it passes. */
  lemma FilterSingleton<T(!new)>(x: T, keep: T -> bool)
    ensures Filter([x], keep) == if keep(x) then [x] else []
  {
    assert [x][..0] == [];
  }

  /** Nothing is kept from a sequence none of whose elements pass. */
  lemma FilterNone<T(!new)>(s: seq<T>, keep: T -> bool)
    requires forall j :: 0 <= j < |s| ==> !keep(s[j])
    ensures Filter(s, keep) == []
  {
  }

  /** A sequence is what comes before index `i`, the element there, and the rest. */
  lemma SplitAt<T>(s: seq<T>, i: nat)
    requires i < |s|
    ensures s == s[..i] + ([s[i]] + s[i + 1..])
  {
  }

  /** Splitting a sequence at the length of its first part. */
  lemma PrefixOfConcat<T>(before: seq<T>, x: T, after: seq<T>)
    ensures (before + ([x] + after))[..|before|] == before
    ensures (before + ([x] + after))[|before|] == x
  {
  }

  predicate IsVideo(s: Stream) {
    s.codecType == "video"
  }

  predicate IsAudio(s: Stream) {
    s.codecType == "audio"
  }

  /** `[s for s in info.get("streams", []) if s["codec_type"] == "video"]` */
  function VideoStreams(info: ProbeInfo): (r: seq<Stream>)
    ensures |r| <= |info.StreamList()|
    ensures forall s :: s in r <==> s in info.StreamList() && s.codecType == "video"
  {
    Filter(info.StreamList(), IsVideo)
  }

  /** `[s for s in info.get("streams", []) if s["codec_type"] == "audio"]` */
  function AudioStreams(info: ProbeInfo): (r: seq<Stream>)
    ensures |r| <= |info.StreamList()|
    ensures forall s :: s in r <==> s in info.StreamList() && s.codecType == "audio"
  {
    Filter(info.StreamList(), IsAudio)
  }

  /**
   * "The first video stream" both classifiers read is the first stream whose
   * kind is "video", wherever it stands among the others.
   */
  lemma FirstVideoStream(info: ProbeInfo, i: nat)
    requires i < |info.StreamList()| && IsVideo(info.StreamList()[i])
    requires forall j :: 0 <= j < i ==> !IsVideo(info.StreamList()[j])
    ensures VideoStreams(info) != [] && VideoStreams(info)[0] == info.StreamList()[i]
  {
    FilterFirst(info.StreamList(), IsVideo, i);
  }

  /** There is a video stream exactly when some stream's kind is "video". */
  lemma HasVideoStream(info: ProbeInfo)
    ensures VideoStreams(info) != [] <==>
            exists j :: 0 <= j < |info.StreamList()| && IsVideo(info.StreamList()[j])
  {
    if VideoStreams(info) != [] {
      assert VideoStreams(info)[0] in VideoStreams(info);
    }
    if exists j :: 0 <= j < |info.StreamList()| && IsVideo(info.StreamList()[j]) {
      var j :| 0 <= j < |info.StreamList()| && IsVideo(info.StreamList()[j]);
      assert info.StreamList()[j] in VideoStreams(info);
    }
  }

  /** Reads a "WxH" resolution text back into its two numbers. */
  function ParseResolution(text: string): Option<(int, int)> {
    var x := FirstIndex(text, 'x');
    if x == |text| then None
    else match (ParseInt(text[..x]), ParseInt(text[x + 1..]))
      case (Some(w), Some(h)) => Some((w, h))
      case _ => None
  }

  /** The "{width}x{height}" text determines both numbers. */
  lemma ResolutionRoundTrip(w: int, h: int)
    ensures ParseResolution(IntToString(w) + "x" + IntToString(h)) == Some((w, h))
  {
    var a, b := IntToString(w), IntToString(h);
    var text := a + "x" + b;
    assert text[|a|] == 'x';
    assert forall j :: 0 <= j < |a| ==> text[j] == a[j] && a[j] != 'x';
    assert FirstIndex(text, 'x') == |a|;
    assert text[..|a|] == a;
    assert text[|a| + 1..] == b;
    IntToStringRoundTrip(w);
    IntToStringRoundTrip(h);
  }
}
