/**
 * The command-line scanner (scanner.py): the full classifier, with the
 * audio-codec taxonomy, and the folder scan that collects one record per
 * probed video file.
 */
module Scanner {
  import opened Wrappers
  import opened TextOps
  import opened PosixPath
  import opened Probe

  /** The extensions (lower-cased, with the dot) a file needs to be probed at all. */
  const VideoExtensions: seq<string> := [".mp4", ".mkv", ".avi", ".mov", ".webm"]

  /** The audio codecs the record has a column for, as ffprobe names them. */
  const AudioFormats: seq<string> :=
    ["aac", "mp3", "ac3", "eac3", "truehd", "dts", "opus", "flac", "vorbis", "pcm"]

  /** The columns every record has besides the audio-codec ones. */
  const BaseColumns: set<Column> :=
    {File, Size, MKV, MP4, HEVC, H264, AV1, FourK,
     HDR, DolbyVision, DolbyAtmos, Resolution, BitDepth}

  /** The codec name the audio-codec loop looks up: `stream.get("codec_name", "").lower()`. */
  function AudioCodecKey(s: Stream): string {
    Lower(s.codecName.GetOr(""))
  }

  /**
   * What `audio_codecs` holds after the loop over `audio`: every listed format,
   * mapped to whether some stream's lower-cased codec name is that format.
   */
  function AudioPresence(audio: seq<Stream>): map<string, bool> {
    map f | f in AudioFormats :: exists j | 0 <= j < |audio| :: AudioCodecKey(audio[j]) == f
  }

  /** No two of `keys` upper-case to the same text. */
  predicate UpperInjective(keys: set<string>) {
    forall f, g :: f in keys && g in keys && Upper(f) == Upper(g) ==> f == g
  }

  /** `{fmt.upper(): found for fmt, found in audio_codecs.items()}` */
  function UpperColumns(codecs: map<string, bool>): map<string, bool>
    requires UpperInjective(codecs.Keys)
  {
    map f | f in codecs :: Upper(f) := codecs[f]
  }

  /** `os.path.splitext(filepath)[1][1:].lower()`: the extension without its dot, lower-cased. */
  function Container(path: string): string {
    Lower(DropFirst(Ext(path)))
  }

  /** `f"{width}x{height}"` of a video stream, 0 for a missing value. */
  function ResolutionText(v: Stream): string {
    IntToString(v.width.GetOr(0)) + "x" + IntToString(v.height.GetOr(0))
  }

  /** `f"{bit_depth or 'N/A'}-bit"` with `bit_depth` the raw sample depth `or` the per-sample one. */
  function BitDepthText(v: Stream): string {
    var bitDepth := PyOr(v.bitsPerRawSample, v.bitsPerSample);
    (if IsTruthy(bitDepth) then bitDepth.value.Render() else "N/A") + "-bit"
  }

  /** The two `any` passes over the audio streams that set `atmos`. */
  function Atmos(audio: seq<Stream>): bool {
    (exists j | 0 <= j < |audio| :: Contains(Lower(audio[j].title.GetOr("")), "atmos")) ||
    (exists j | 0 <= j < |audio| :: audio[j].codecName in [Some("truehd"), Some("eac3")])
  }

  /**
   * The record `detect_features` builds before the audio-codec columns are
   * merged in; `NoVideoStream` where it reads `video_streams[0]` of an empty list.
   */
  function BaseFields(info: ProbeInfo, path: string): (r: Result<Record, Error>)
    ensures r.Ok? <==> VideoStreams(info) != []
    ensures r.Err? ==> r.error == NoVideoStream
  {
    var container := Container(path);
    var video := VideoStreams(info);
    if video == [] then Err(NoVideoStream)
    else
      var v := video[0];
      var videoCodec := v.codecName.GetOr("N/A");
      Ok(Record(
        file := Basename(path),
        size := info.SizeBytes(),
        mkv := container == "mkv",
        mp4 := container == "mp4",
        hevc := videoCodec == "hevc",
        h264 := videoCodec == "h264",
        av1 := videoCodec == "av1",
        fourK := v.width.GetOr(0) >= 3840,
        hdr := Contains(Lower(v.colorTransfer.GetOr("")), "smpte2084"),
        dolbyVision := Contains(Lower(v.profile.GetOr("")), "dvhe"),
        dolbyAtmos := Atmos(AudioStreams(info)),
        resolution := ResolutionText(v),
        bitDepth := BitDepthText(v),
        audioCodecs := map[]))
  }

  /** `{fmt.upper(): found ...}` for the `audio_codecs` the loop leaves: the merged audio columns. */
  function AudioColumnsOf(info: ProbeInfo): map<string, bool> {
    AudioFormatsUpperInjective();
    UpperColumns(AudioPresence(AudioStreams(info)))
  }

  /** The full record of `detect_features(info, filepath)`, or the error it raises. */
  function Features(info: ProbeInfo, path: string): (r: Result<Record, Error>)
    ensures r.Ok? <==> VideoStreams(info) != []
    ensures r.Err? ==> r.error == NoVideoStream
  {
    match BaseFields(info, path)
    case Err(e) => Err(e)
    case Ok(base) => Ok(base.(audioCodecs := AudioColumnsOf(info)))
  }

  /** One stream more marks its codec, when listed, and leaves every other entry as it was. */
  lemma PresenceOfAppend(audio: seq<Stream>, s: Stream)
    ensures AudioPresence(audio + [s]).Keys == AudioPresence(audio).Keys
    ensures forall f :: f in AudioFormats ==>
              AudioPresence(audio + [s])[f] == (AudioPresence(audio)[f] || AudioCodecKey(s) == f)
  {
    var a := audio + [s];
    forall f | f in AudioFormats
      ensures AudioPresence(a)[f] == (AudioPresence(audio)[f] || AudioCodecKey(s) == f)
    {
      if AudioPresence(audio)[f] {
        var j :| 0 <= j < |audio| && AudioCodecKey(audio[j]) == f;
        assert a[j] == audio[j];
      }
      if AudioCodecKey(s) == f {
        assert a[|audio|] == s;
      }
      if AudioPresence(a)[f] && AudioCodecKey(s) != f {
        var j :| 0 <= j < |a| && AudioCodecKey(a[j]) == f;
        assert a[j] == audio[j];
      }
    }
  }

  /** The loop body at index `i`: it sets the stream's codec to true when it is a listed one. */
  lemma AudioPresenceStep(audio: seq<Stream>, i: nat)
    requires i < |audio|
    ensures var before, key := AudioPresence(audio[..i]), AudioCodecKey(audio[i]);
            AudioPresence(audio[..i + 1]) == if key in before then before[key := true] else before
  {
    assert audio[..i + 1] == audio[..i] + [audio[i]];
    PresenceOfAppend(audio[..i], audio[i]);
  }

  /**
   * The loop of `detect_features` over the audio streams: every listed format
   * starts out false and a stream whose lower-cased codec name is listed sets
   * it to true.
   */
  method MarkAudioCodecs(audio: seq<Stream>) returns (audioCodecs: map<string, bool>)
    ensures audioCodecs == AudioPresence(audio)
  {
    audioCodecs := map f | f in AudioFormats :: false;
    var i := 0;
    while i < |audio|
      invariant 0 <= i <= |audio|
      invariant audioCodecs == AudioPresence(audio[..i])
    {
      var codec := Lower(audio[i].codecName.GetOr(""));
      AudioPresenceStep(audio, i);
      if codec in audioCodecs {
        audioCodecs := audioCodecs[codec := true];
      }
      i := i + 1;
    }
    assert audio[..i] == audio;
  }

  /**
   * `detect_features` as written: the record's fields, then the loop that
   * marks each audio stream's codec in `audio_codecs`, then the record with
   * the upper-cased audio columns merged in.
   */
  method DetectFeatures(info: ProbeInfo, path: string) returns (r: Result<Record, Error>)
    ensures r == Features(info, path)
  {
    var base := BaseFields(info, path);
    if base.Err? {
      return Err(base.error);
    }
    var audioCodecs := MarkAudioCodecs(AudioStreams(info));
    AudioFormatsUpperInjective();
    r := Ok(base.value.(audioCodecs := UpperColumns(audioCodecs)));
  }

  /** Every column a successful record has: the base ones and one per audio codec. */
  const AllColumns: set<Column> := BaseColumns + set f | f in AudioFormats :: AudioCodec(Upper(f))

  /** No two audio codec names upper-case to the same column. */
  lemma AudioFormatsUpperInjective()
    ensures UpperInjective(set f | f in AudioFormats)
  {
    assert forall f :: f in AudioFormats ==> NoUpperCase(f);
    forall f, g | f in AudioFormats && g in AudioFormats && Upper(f) == Upper(g)
      ensures f == g
    {
      UpperInjectiveOn(f, g);
    }
  }

  /** No audio-codec key is one of the thirteen base keys, so the merge at the end overwrites none of them. */
  lemma AudioKeysAreNotBaseKeys()
    ensures forall f, c :: f in AudioFormats && c in BaseColumns ==> Upper(f) != c.Key()
  {
    UpperFormatNames();
    UpperNamesAreNotBaseKeys();
    forall f, c | f in AudioFormats && c in BaseColumns ensures Upper(f) != c.Key() {
      var j :| 0 <= j < |AudioFormats| && AudioFormats[j] == f;
      assert Upper(f) in UpperFormats;
    }
  }

  /** The ten audio-codec keys, as `fmt.upper()` spells them. */
  const UpperFormats: seq<string> :=
    ["AAC", "MP3", "AC3", "EAC3", "TRUEHD", "DTS", "OPUS", "FLAC", "VORBIS", "PCM"]

  lemma UpperFormatNames()
    ensures |UpperFormats| == |AudioFormats|
    ensures forall j :: 0 <= j < |AudioFormats| ==> Upper(AudioFormats[j]) == UpperFormats[j]
  {
    forall j | 0 <= j < |AudioFormats| ensures Upper(AudioFormats[j]) == UpperFormats[j] {
      if j == 0 {
        assert AudioFormats[j] == "aac" && UpperFormats[j] == "AAC";
        UpperSpells("aac", "AAC");
      } else if j == 1 {
        assert AudioFormats[j] == "mp3" && UpperFormats[j] == "MP3";
        UpperSpells("mp3", "MP3");
      } else if j == 2 {
        assert AudioFormats[j] == "ac3" && UpperFormats[j] == "AC3";
        UpperSpells("ac3", "AC3");
      } else if j == 3 {
        assert AudioFormats[j] == "eac3" && UpperFormats[j] == "EAC3";
        UpperSpells("eac3", "EAC3");
      } else if j == 4 {
        assert AudioFormats[j] == "truehd" && UpperFormats[j] == "TRUEHD";
        UpperSpells("truehd", "TRUEHD");
      } else if j == 5 {
        assert AudioFormats[j] == "dts" && UpperFormats[j] == "DTS";
        UpperSpells("dts", "DTS");
      } else if j == 6 {
        assert AudioFormats[j] == "opus" && UpperFormats[j] == "OPUS";
        UpperSpells("opus", "OPUS");
      } else if j == 7 {
        assert AudioFormats[j] == "flac" && UpperFormats[j] == "FLAC";
        UpperSpells("flac", "FLAC");
      } else if j == 8 {
        assert AudioFormats[j] == "vorbis" && UpperFormats[j] == "VORBIS";
        UpperSpells("vorbis", "VORBIS");
      } else if j == 9 {
        assert AudioFormats[j] == "pcm" && UpperFormats[j] == "PCM";
        UpperSpells("pcm", "PCM");
      }
    }
  }

  /** `Upper(s)` is `u` once it is so character by character. */
  lemma UpperSpells(s: string, u: string)
    requires |s| == |u| && forall i :: 0 <= i < |s| ==> UpperChar(s[i]) == u[i]
    ensures Upper(s) == u
  {
  }

  lemma UpperNamesAreNotBaseKeys()
    ensures forall u, c :: u in UpperFormats && c in BaseColumns ==> u != c.Key()
  {
  }

  /** The audio columns of a record: exactly the ten upper-cased names, each carrying its flag. */
  lemma AudioColumnsBuilt(codecs: map<string, bool>)
    requires codecs.Keys == set f | f in AudioFormats
    ensures UpperInjective(codecs.Keys)
    ensures UpperColumns(codecs).Keys == set f | f in AudioFormats :: Upper(f)
    ensures forall f :: f in AudioFormats ==> UpperColumns(codecs)[Upper(f)] == codecs[f]
  {
    AudioFormatsUpperInjective();
  }

  /**
   * The full record fails exactly where `BaseFields` does, that is without a
   * video stream; otherwise it is the base record with the audio columns
   * merged in, and the base record has no audio column of its own.
   */
  lemma FeaturesExtendBase(info: ProbeInfo, path: string)
    ensures Features(info, path).Ok? <==> VideoStreams(info) != []
    ensures BaseFields(info, path).Ok? <==> VideoStreams(info) != []
    ensures BaseFields(info, path).Ok? ==> BaseFields(info, path).value.audioCodecs == map[]
    ensures Features(info, path).Ok? ==>
              Features(info, path).value == BaseFields(info, path).value.(audioCodecs := AudioColumnsOf(info))
  {
  }

  /**
   * A record comes back exactly when the probe lists a video stream; it then
   * has every column, base and audio, and nothing else: a missing tag is never
   * a missing key.
   */
  lemma EveryColumnPresent(info: ProbeInfo, path: string)
    ensures Features(info, path).Ok? <==>
            exists j :: 0 <= j < |info.StreamList()| && IsVideo(info.StreamList()[j])
    ensures Features(info, path).Ok? ==>
              forall c :: Features(info, path).value.Get(c).Some? <==> c in AllColumns
  {
    HasVideoStream(info);
    FeaturesExtendBase(info, path);
    if Features(info, path).Ok? {
      var r := Features(info, path).value;
      assert r.audioCodecs.Keys == set f | f in AudioFormats :: Upper(f) by {
        AudioColumnsBuilt(AudioPresence(AudioStreams(info)));
      }
      ColumnsOfRecord(r);
    }
  }

  /** The keys of a record: the thirteen base columns, and one per entry of `audioCodecs`. */
  lemma ColumnsOfRecord(r: Record)
    ensures forall c :: r.Get(c).Some? <==> c in BaseColumns || (c.AudioCodec? && c.name in r.audioCodecs)
  {
    forall c ensures r.Get(c).Some? <==> c in BaseColumns || (c.AudioCodec? && c.name in r.audioCodecs) {
      if !c.AudioCodec? {
        assert c in BaseColumns;
      }
    }
  }

  /** `container == name` reads the extension without its dot: ".MKV" gives "mkv". */
  lemma ContainerIs(path: string, name: string)
    requires |name| > 0
    ensures Container(path) == name <==> Lower(Ext(path)) == "." + name
  {
    var e := Ext(path);
    if e != [] {
      assert e == [e[0]] + DropFirst(e);
      assert Lower(e) == [LowerChar('.')] + Lower(DropFirst(e));
    }
  }

  /**
   * MKV and MP4 say whether the file's extension is ".mkv" or ".mp4" in any
   * letter case; at most one of them holds.
   */
  lemma ContainerFlags(info: ProbeInfo, path: string)
    requires VideoStreams(info) != []
    ensures BaseFields(info, path).Ok?
    ensures var r := BaseFields(info, path).value;
            && r.mkv == (Lower(Ext(path)) == ".mkv")
            && r.mp4 == (Lower(Ext(path)) == ".mp4")
            && !(r.mkv && r.mp4)
  {
    var r, c := BaseFields(info, path).value, Container(path);
    assert r.mkv == (c == "mkv") && r.mp4 == (c == "mp4");
    ContainerNames(path);
  }

  /** The container is "mkv" or "mp4" exactly for those extensions, and never both. */
  lemma ContainerNames(path: string)
    ensures (Container(path) == "mkv") == (Lower(Ext(path)) == ".mkv")
    ensures (Container(path) == "mp4") == (Lower(Ext(path)) == ".mp4")
    ensures !(Container(path) == "mkv" && Container(path) == "mp4")
  {
    assert "." + "mkv" == ".mkv" && "." + "mp4" == ".mp4";
    assert "mkv"[1] != "mp4"[1];
    ContainerIs(path, "mkv");
    ContainerIs(path, "mp4");
  }

  /**
   * HEVC, H264 and AV1 compare the first video stream's codec name exactly
   * (letter case included); a missing name sets none, and at most one is set.
   */
  lemma VideoCodecFlags(info: ProbeInfo, path: string)
    requires VideoStreams(info) != []
    ensures BaseFields(info, path).Ok?
    ensures var r, codec := BaseFields(info, path).value, VideoStreams(info)[0].codecName;
            && r.hevc == (codec == Some("hevc"))
            && r.h264 == (codec == Some("h264"))
            && r.av1 == (codec == Some("av1"))
            && !(r.hevc && r.h264) && !(r.hevc && r.av1) && !(r.h264 && r.av1)
  {
    assert "hevc"[1] != "h264"[1] && "hevc"[0] != "av1"[0] && "h264"[0] != "av1"[0];
    assert "N/A"[0] != "hevc"[0] && "N/A"[0] != "h264"[0] && "N/A"[0] != "av1"[0];
    var codec := VideoStreams(info)[0].codecName;
    DefaultedName(codec, "hevc");
    DefaultedName(codec, "h264");
    DefaultedName(codec, "av1");
    var r, name := BaseFields(info, path).value, codec.GetOr("N/A");
    assert r.hevc == (name == "hevc") && r.h264 == (name == "h264") && r.av1 == (name == "av1");
  }

  /** `stream.get("codec_name", "N/A") == want` for a name other than "N/A". */
  lemma DefaultedName(codec: Option<string>, want: string)
    requires want != "N/A"
    ensures (codec.GetOr("N/A") == want) == (codec == Some(want))
  {
  }

  /**
   * 4K holds exactly when the first video stream reports a width of at least
   * 3840: 3840 is 4K, 3839 is not, and a missing width is not.
   */
  lemma FourKFlag(info: ProbeInfo, path: string)
    requires VideoStreams(info) != []
    ensures BaseFields(info, path).Ok?
    ensures var on, width := BaseFields(info, path).value.fourK, VideoStreams(info)[0].width;
            && (on <==> width.Some? && width.value >= 3840)
            && (width == Some(3840) ==> on)
            && (width == Some(3839) ==> !on)
  {
    var width := VideoStreams(info)[0].width;
    DefaultedWidth(width);
    assert BaseFields(info, path).value.fourK == (width.GetOr(0) >= 3840);
  }

  /** `stream.get("width", 0) >= 3840` for a width that may be missing. */
  lemma DefaultedWidth(width: Option<int>)
    ensures (width.GetOr(0) >= 3840) == (width.Some? && width.value >= 3840)
  {
  }

  /**
   * HDR holds exactly when some part of the first video stream's transfer
   * characteristic reads "smpte2084" in any letter case, DolbyVision when some
   * part of its profile reads "dvhe"; a missing value sets neither.
   */
  lemma HdrAndDolbyVisionFlags(info: ProbeInfo, path: string)
    requires VideoStreams(info) != []
    ensures BaseFields(info, path).Ok?
    ensures var r, v := BaseFields(info, path).value, VideoStreams(info)[0];
            && (r.hdr <==> exists i :: OccursIgnoringCaseAt(v.colorTransfer.GetOr(""), "smpte2084", i))
            && (r.dolbyVision <==> exists i :: OccursIgnoringCaseAt(v.profile.GetOr(""), "dvhe", i))
            && (Lower(v.colorTransfer.GetOr("")) == "smpte2084" ==> r.hdr)
            && (v.colorTransfer.None? ==> !r.hdr)
            && (v.profile.None? ==> !r.dolbyVision)
  {
    var v := VideoStreams(info)[0];
    var ct, pr := v.colorTransfer.GetOr(""), v.profile.GetOr("");
    ContainsLowered(ct, "smpte2084");
    ContainsLowered(pr, "dvhe");
    if Lower(ct) == "smpte2084" {
      assert OccursIgnoringCaseAt(ct, "smpte2084", 0) by {
        assert ct[0..9] == ct;
      }
    }
  }

  /** An audio stream that counts as Dolby Atmos: "atmos" in its title, or a TrueHD or E-AC-3 codec name. */
  predicate AtmosHint(s: Stream) {
    Contains(Lower(s.title.GetOr("")), "atmos") || s.codecName == Some("truehd") || s.codecName == Some("eac3")
  }

  /**
   * DolbyAtmos holds exactly when some stream of kind "audio" has "atmos" in
   * its lower-cased title or the exact codec name "truehd" or "eac3"; video
   * and other streams never count.
   */
  lemma AtmosFlag(info: ProbeInfo, path: string)
    requires VideoStreams(info) != []
    ensures BaseFields(info, path).Ok?
    ensures var on, streams := BaseFields(info, path).value.dolbyAtmos, info.StreamList();
            on <==> exists j :: 0 <= j < |streams| && IsAudio(streams[j]) && AtmosHint(streams[j])
  {
    assert BaseFields(info, path).value.dolbyAtmos == Atmos(AudioStreams(info));
    AtmosAmongStreams(info);
  }

  /** `atmos` over the audio streams is `AtmosHint` of some stream of kind "audio". */
  lemma AtmosAmongStreams(info: ProbeInfo)
    ensures var streams := info.StreamList();
            Atmos(AudioStreams(info)) <==>
            exists j :: 0 <= j < |streams| && IsAudio(streams[j]) && AtmosHint(streams[j])
  {
    AtmosAny(AudioStreams(info));
    AudioHintFromStream(info);
    AudioHintToStream(info);
  }

  /** A hinting stream of kind "audio" is among the audio streams. */
  lemma AudioHintFromStream(info: ProbeInfo)
    ensures var streams := info.StreamList();
            (exists j :: 0 <= j < |streams| && IsAudio(streams[j]) && AtmosHint(streams[j])) ==>
            exists k :: 0 <= k < |AudioStreams(info)| && AtmosHint(AudioStreams(info)[k])
  {
    var streams, audio := info.StreamList(), AudioStreams(info);
    if exists j :: 0 <= j < |streams| && IsAudio(streams[j]) && AtmosHint(streams[j]) {
      var j :| 0 <= j < |streams| && IsAudio(streams[j]) && AtmosHint(streams[j]);
      assert streams[j] in audio;
      var k :| 0 <= k < |audio| && audio[k] == streams[j];
    }
  }

  /** Every audio stream is a stream of kind "audio". */
  lemma AudioHintToStream(info: ProbeInfo)
    ensures var streams := info.StreamList();
            (exists k :: 0 <= k < |AudioStreams(info)| && AtmosHint(AudioStreams(info)[k])) ==>
            exists j :: 0 <= j < |streams| && IsAudio(streams[j]) && AtmosHint(streams[j])
  {
    var streams, audio := info.StreamList(), AudioStreams(info);
    if exists k :: 0 <= k < |audio| && AtmosHint(audio[k]) {
      var k :| 0 <= k < |audio| && AtmosHint(audio[k]);
      assert audio[k] in streams;
      var j :| 0 <= j < |streams| && streams[j] == audio[k];
    }
  }

  /** The two `any` passes together are one `any` over `AtmosHint`. */
  lemma AtmosAny(audio: seq<Stream>)
    ensures Atmos(audio) <==> exists k :: 0 <= k < |audio| && AtmosHint(audio[k])
  {
    if Atmos(audio) {
      if exists j | 0 <= j < |audio| :: Contains(Lower(audio[j].title.GetOr("")), "atmos") {
        var j :| 0 <= j < |audio| && Contains(Lower(audio[j].title.GetOr("")), "atmos");
        assert AtmosHint(audio[j]);
      } else {
        var j :| 0 <= j < |audio| && audio[j].codecName in [Some("truehd"), Some("eac3")];
        assert AtmosHint(audio[j]);
      }
    }
    if exists k :: 0 <= k < |audio| && AtmosHint(audio[k]) {
      var k :| 0 <= k < |audio| && AtmosHint(audio[k]);
      assert AtmosHint(audio[k]);
    }
  }

  /**
   * The merged audio columns are exactly the ten upper-cased names, and each
   * holds exactly when some stream of kind "audio" has that codec name,
   * compared lower-cased.
   */
  lemma AudioCodecColumns(info: ProbeInfo)
    ensures AudioColumnsOf(info).Keys == set f | f in AudioFormats :: Upper(f)
    ensures var cols, streams := AudioColumnsOf(info), info.StreamList();
            forall f :: f in AudioFormats ==>
              cols[Upper(f)] == exists j :: 0 <= j < |streams| && IsAudio(streams[j]) &&
                                            AudioCodecKey(streams[j]) == f
  {
    var codecs := AudioPresence(AudioStreams(info));
    AudioColumnsBuilt(codecs);
    forall f | f in AudioFormats {
      PresenceAmongStreams(info, f);
    }
  }

  /** `audio_codecs[fmt]` after the loop: some stream of kind "audio" has codec `fmt`, lower-cased. */
  lemma PresenceAmongStreams(info: ProbeInfo, f: string)
    requires f in AudioFormats
    ensures var streams := info.StreamList();
            AudioPresence(AudioStreams(info))[f] ==
              exists j :: 0 <= j < |streams| && IsAudio(streams[j]) && AudioCodecKey(streams[j]) == f
  {
    var streams, audio := info.StreamList(), AudioStreams(info);
    assert AudioPresence(audio)[f] == exists k :: 0 <= k < |audio| && AudioCodecKey(audio[k]) == f;
    if exists j :: 0 <= j < |streams| && IsAudio(streams[j]) && AudioCodecKey(streams[j]) == f {
      var j :| 0 <= j < |streams| && IsAudio(streams[j]) && AudioCodecKey(streams[j]) == f;
      assert streams[j] in audio;
      var k :| 0 <= k < |audio| && audio[k] == streams[j];
    }
    if exists k :: 0 <= k < |audio| && AudioCodecKey(audio[k]) == f {
      var k :| 0 <= k < |audio| && AudioCodecKey(audio[k]) == f;
      assert audio[k] in streams;
      var j :| 0 <= j < |streams| && streams[j] == audio[k];
    }
  }

  /** An audio stream whose codec is not one of the ten changes no audio column. */
  lemma UnlistedCodecChangesNothing(audio: seq<Stream>, s: Stream)
    requires AudioCodecKey(s) !in AudioFormats
    ensures AudioPresence(audio + [s]) == AudioPresence(audio)
  {
    PresenceOfAppend(audio, s);
  }

  /** The Resolution text reads back as the first video stream's width and height, 0 where missing. */
  lemma ResolutionColumn(info: ProbeInfo, path: string)
    requires VideoStreams(info) != []
    ensures BaseFields(info, path).Ok?
    ensures var r, v := BaseFields(info, path).value, VideoStreams(info)[0];
            ParseResolution(r.resolution) == Some((v.width.GetOr(0), v.height.GetOr(0)))
  {
    var v := VideoStreams(info)[0];
    ResolutionRoundTrip(v.width.GetOr(0), v.height.GetOr(0));
  }

  /**
   * BitDepth is the raw sample depth when it is set and non-zero, otherwise
   * the per-sample depth when that is, followed by "-bit"; "N/A-bit" when neither is.
   */
  lemma BitDepthColumn(info: ProbeInfo, path: string)
    requires VideoStreams(info) != []
    ensures BaseFields(info, path).Ok?
    ensures var r, v := BaseFields(info, path).value, VideoStreams(info)[0];
            var raw, perSample := v.bitsPerRawSample, v.bitsPerSample;
            r.bitDepth == if IsTruthy(raw) then raw.value.Render() + "-bit"
                          else if IsTruthy(perSample) then perSample.value.Render() + "-bit"
                          else "N/A-bit"
  {
    var v := VideoStreams(info)[0];
    var raw, perSample := v.bitsPerRawSample, v.bitsPerSample;
    if !IsTruthy(raw) && !IsTruthy(perSample) {
      assert !IsTruthy(PyOr(raw, perSample));
      assert "N/A" + "-bit" == "N/A-bit";
    }
  }

  /** File is the last component of the path; Size is the probe's byte count, 0 when missing. */
  lemma FileAndSizeColumns(info: ProbeInfo, path: string)
    requires VideoStreams(info) != []
    ensures BaseFields(info, path).Ok?
    ensures var r := BaseFields(info, path).value;
            && LastComponent(path, r.file)
            && r.size == if info.format.Some? && info.format.value.size.Some?
                         then info.format.value.size.value else 0
  {
    var b := Basename(path);
    assert LastComponent(path, b);
    var r := BaseFields(info, path).value;
    assert r.file == b && r.size == info.SizeBytes();
  }

  /**
   * One file the walk yields: the directory it was found in, its name, and
   * what `get_video_info` returned for it (`None` when the probe failed).
   */
  datatype Entry = Entry(root: string, name: string, probe: Option<ProbeInfo>)

  /** `os.path.join(root, file)` */
  function PathOf(e: Entry): string {
    Join(e.root, e.name)
  }

  /** `os.path.splitext(file)[1].lower() in VIDEO_EXTENSIONS`, the list search written out. */
  predicate IsCandidate(name: string) {
    var ext := Lower(Ext(name));
    ext == ".mp4" || ext == ".mkv" || ext == ".avi" || ext == ".mov" || ext == ".webm"
  }

  /** `IsCandidate` searches exactly the listed extensions. */
  lemma CandidateIsListed(name: string)
    ensures IsCandidate(name) <==> Lower(Ext(name)) in VideoExtensions
    ensures IsCandidate(name) ==> 4 <= |Ext(name)| <= 5 && Ext(name)[0] == '.'
  {
  }

  /** A candidate whose probe came back non-empty (`if info:`): one record is made for it. */
  predicate Probed(e: Entry) {
    IsCandidate(e.name) && ProbeSucceeded(e.probe)
  }

  /** The classification of a probed file. */
  function RecordOf(e: Entry): Result<Record, Error>
    requires e.probe.Some?
  {
    Features(e.probe.value, PathOf(e))
  }

  /**
   * A probe that answers with an object holding neither "format" nor
   * "streams" (only, say, "programs") is non-empty, so the file is classified,
   * and the classification raises for want of a video stream.
   */
  lemma OtherKeysOnlyRaises(e: Entry)
    requires IsCandidate(e.name) && e.probe == Some(ProbeInfo(None, None, true))
    ensures Probed(e) && RecordOf(e) == Err(NoVideoStream)
  {
    assert VideoStreams(e.probe.value) == [];
  }

  /** Every file `scan_folder` classifies, in walk order. */
  function ProbedFiles(entries: seq<Entry>): (files: seq<Entry>)
    ensures |files| <= |entries|
  {
    if entries == [] then []
    else
      var last := entries[|entries| - 1];
      ProbedFiles(entries[..|entries| - 1]) + if Probed(last) then [last] else []
  }

  /** The probed files of a walk are those of its two parts, in order. */
  lemma {:induction false} ProbedFilesAppend(a: seq<Entry>, b: seq<Entry>)
    ensures ProbedFiles(a + b) == ProbedFiles(a) + ProbedFiles(b)
  {
    if b == [] {
      assert a + b == a;
    } else {
      assert (a + b)[..|a + b| - 1] == a + b[..|b| - 1];
      ProbedFilesAppend(a, b[..|b| - 1]);
    }
  }

  /** A file is classified exactly when it is among the entries and is a probed candidate. */
  lemma {:induction false} ProbedFilesMembers(entries: seq<Entry>)
    ensures forall e :: e in ProbedFiles(entries) <==> e in entries && Probed(e)
  {
    if entries != [] {
      var init := entries[..|entries| - 1];
      ProbedFilesMembers(init);
      assert entries == init + [entries[|entries| - 1]];
    }
  }

  /** `results` holds, index by index, the records of `files`. */
  predicate RecordsOf(files: seq<Entry>, results: seq<Record>) {
    |results| == |files| &&
    forall k :: 0 <= k < |files| ==> files[k].probe.Some? && RecordOf(files[k]) == Ok(results[k])
  }

  /** Appending a file's record to the records of the files before it. */
  lemma RecordsOfAppend(files: seq<Entry>, results: seq<Record>, e: Entry, rec: Record)
    requires RecordsOf(files, results)
    requires e.probe.Some? && RecordOf(e) == Ok(rec)
    ensures RecordsOf(files + [e], results + [rec])
  {
    forall k | 0 <= k < |files| + 1
      ensures (files + [e])[k].probe.Some? && RecordOf((files + [e])[k]) == Ok((results + [rec])[k])
    {
      if k < |files| {
        assert (files + [e])[k] == files[k] && (results + [rec])[k] == results[k];
      } else {
        assert (files + [e])[k] == e && (results + [rec])[k] == rec;
      }
    }
  }

  /** Every probed file in `files` has a video stream, so none of them raises. */
  predicate AllClassified(files: seq<Entry>) {
    forall k :: 0 <= k < |files| ==> files[k].probe.Some? && RecordOf(files[k]).Ok?
  }

  /**
   * `scan_folder` as written, over the walk given as `entries`: one record
   * per probed candidate, in walk order; the first probed file without a
   * video stream ends the scan with the error `detect_features` raises.
   */
  method ScanFolder(entries: seq<Entry>) returns (r: Result<seq<Record>, Error>)
    ensures r.Ok? <==> AllClassified(ProbedFiles(entries))
    ensures r.Ok? ==> RecordsOf(ProbedFiles(entries), r.value)
  {
    var results: seq<Record> := [];
    var i := 0;
    assert entries[..0] == [];
    while i < |entries|
      invariant 0 <= i <= |entries|
      invariant RecordsOf(ProbedFiles(entries[..i]), results)
    {
      var e := entries[i];
      if IsCandidate(e.name) {
        var path := Join(e.root, e.name);
        var info := e.probe;
        if ProbeSucceeded(info) {
          var features := DetectFeatures(info.value, path);
          if features.Err? {
            ScanFails(entries, i);
            return Err(features.error);
          }
          assert RecordsOf(ProbedFiles(entries[..i + 1]), results + [features.value]) by {
            ScanAppends(entries, i, results, features.value);
          }
          results := results + [features.value];
        } else {
          assert RecordsOf(ProbedFiles(entries[..i + 1]), results) by {
            ScanSkips(entries, i, results);
          }
        }
      } else {
        assert RecordsOf(ProbedFiles(entries[..i + 1]), results) by {
          ScanSkips(entries, i, results);
        }
      }
      assert RecordsOf(ProbedFiles(entries[..i + 1]), results);
      i := i + 1;
    }
    assert entries[..i] == entries;
    RecordsOfClassified(entries, results);
    r := Ok(results);
  }

  /** The probed files up to `entries[i]`: those before it, then it if it is probed. */
  lemma ProbedFilesStep(entries: seq<Entry>, i: nat)
    requires i < |entries|
    ensures ProbedFiles(entries[..i + 1]) ==
            ProbedFiles(entries[..i]) + if Probed(entries[i]) then [entries[i]] else []
  {
    assert entries[..i + 1][..i] == entries[..i];
  }

  /** A turn of the loop that skips `entries[i]` keeps the records as they are. */
  lemma ScanSkips(entries: seq<Entry>, i: nat, results: seq<Record>)
    requires i < |entries| && RecordsOf(ProbedFiles(entries[..i]), results)
    requires !Probed(entries[i])
    ensures RecordsOf(ProbedFiles(entries[..i + 1]), results)
  {
    ProbedFilesStep(entries, i);
  }

  /** A turn of the loop that classifies `entries[i]` appends its record. */
  lemma ScanAppends(entries: seq<Entry>, i: nat, results: seq<Record>, rec: Record)
    requires i < |entries| && RecordsOf(ProbedFiles(entries[..i]), results)
    requires Probed(entries[i]) && RecordOf(entries[i]) == Ok(rec)
    ensures RecordsOf(ProbedFiles(entries[..i + 1]), results + [rec])
  {
    ProbedFilesStep(entries, i);
    RecordsOfAppend(ProbedFiles(entries[..i]), results, entries[i], rec);
  }

  /** A probed entry that raises is a probed file that raises. */
  lemma ScanFails(entries: seq<Entry>, i: nat)
    requires i < |entries| && Probed(entries[i])
    requires entries[i].probe.Some? && RecordOf(entries[i]).Err?
    ensures !AllClassified(ProbedFiles(entries))
  {
    ScanStopsAt(entries, i);
    var files, k := ProbedFiles(entries), |ProbedFiles(entries[..i])|;
    assert files[k].probe.Some? && RecordOf(files[k]).Err?;
  }

  /** Records for every probed file mean that none of them raised. */
  lemma RecordsOfClassified(entries: seq<Entry>, results: seq<Record>)
    requires RecordsOf(ProbedFiles(entries), results)
    ensures AllClassified(ProbedFiles(entries))
  {
  }

  /**
   * When the entry at `i` is probed, it is the probed file just after those
   * of `entries[..i]`.
   */
  lemma ScanStopsAt(entries: seq<Entry>, i: nat)
    requires i < |entries| && Probed(entries[i])
    ensures var files, k := ProbedFiles(entries), |ProbedFiles(entries[..i])|;
            k < |files| && files[k] == entries[i]
  {
    var e := entries[i];
    SplitAt(entries, i);
    ProbedFilesAppend(entries[..i], [e] + entries[i + 1..]);
    ProbedFilesAppend([e], entries[i + 1..]);
    assert ProbedFiles([e]) == [e] by {
      assert [e][..0] == [];
    }
    PrefixOfConcat(ProbedFiles(entries[..i]), e, ProbedFiles(entries[i + 1..]));
  }

  /** Whether a name is a candidate depends only on its lower-cased form: ".MKV" and ".mkv" alike. */
  lemma CandidateIgnoresCase(a: string, b: string)
    requires Lower(a) == Lower(b)
    ensures IsCandidate(a) == IsCandidate(b)
  {
    ExtOfLower(a);
    ExtOfLower(b);
  }

  /**
   * A probed file's record is named after the file itself, and its container
   * flags follow the file's own extension, whatever directory it sits in.
   */
  lemma RecordNamesItsFile(e: Entry)
    requires HasNoSeparator(e.name)
    requires e.probe.Some? && RecordOf(e).Ok?
    ensures RecordOf(e).value.file == e.name
    ensures RecordOf(e).value.mkv == (Lower(Ext(e.name)) == ".mkv")
    ensures RecordOf(e).value.mp4 == (Lower(Ext(e.name)) == ".mp4")
  {
    var info, path := e.probe.value, PathOf(e);
    FeaturesExtendBase(info, path);
    ContainerFlags(info, path);
    BasenameOfJoin(e.root, e.name);
    ExtOfJoin(e.root, e.name);
  }
}
