/**
 * The Tk front end (video_scanner_gui.py): its own thirteen-column
 * classifier, and the window whose scan fills the table row by row and
 * reports progress in a status line.
 */
module GuiScanner {
  import opened Wrappers
  import opened TextOps
  import opened PosixPath
  import opened Probe
  import Scanner

  /**
   * The window's `detect_features`: the same thirteen columns as the full
   * classifier, and no audio-codec column; `NoVideoStream` where it reads
   * `video_streams[0]` of an empty list.
   */
  function DetectFeatures(info: ProbeInfo, path: string): (r: Result<Record, Error>)
    ensures r.Ok? <==> VideoStreams(info) != []
    ensures r.Ok? ==> r.value.audioCodecs == map[]
  {
    var container := Scanner.Container(path);
    var video := VideoStreams(info);
    if video == [] then Err(NoVideoStream)
    else
      var v := video[0];
      var videoCodec := v.codecName.GetOr("N/A");
      Ok(Record(
        file := Basename(path),
        size := info.SizeBytes(),
        mkv := container == "mkv",
        mp4 := container == "mp4",
        hevc := videoCodec == "hevc",
        h264 := videoCodec == "h264",
        av1 := videoCodec == "av1",
        fourK := v.width.GetOr(0) >= 3840,
        hdr := Contains(Lower(v.colorTransfer.GetOr("")), "smpte2084"),
        dolbyVision := Contains(Lower(v.profile.GetOr("")), "dvhe"),
        dolbyAtmos := Scanner.Atmos(AudioStreams(info)),
        resolution := Scanner.ResolutionText(v),
        bitDepth := Scanner.BitDepthText(v),
        audioCodecs := map[]))
  }

  /**
   * A record of the window's classifier has exactly the thirteen columns of
   * its table, whatever the probe says; a missing tag is never a missing key.
   */
  lemma ExactlyTheTableColumns(info: ProbeInfo, path: string)
    requires DetectFeatures(info, path).Ok?
    ensures forall c :: DetectFeatures(info, path).value.Get(c).Some? <==> c in Scanner.BaseColumns
  {
    Scanner.ColumnsOfRecord(DetectFeatures(info, path).value);
  }

  /**
   * The two classifiers agree: on every column they share, the window's
   * record is the full one, and both fail on the same inputs.
   */
  lemma SameAsFullClassifier(info: ProbeInfo, path: string)
    ensures DetectFeatures(info, path) == Scanner.BaseFields(info, path)
    ensures DetectFeatures(info, path).Ok? <==> Scanner.Features(info, path).Ok?
    ensures DetectFeatures(info, path).Ok? ==>
              forall c: Column :: !c.AudioCodec? ==>
                DetectFeatures(info, path).value.Get(c) == Scanner.Features(info, path).value.Get(c)
  {
    var r, base := DetectFeatures(info, path), Scanner.BaseFields(info, path);
    assert r == base;
    Scanner.FeaturesExtendBase(info, path);
    if r.Ok? {
      SharedColumns(r.value, Scanner.AudioColumnsOf(info));
    }
  }

  /** Replacing the audio-codec columns of a record leaves every other column as it was. */
  lemma SharedColumns(r: Record, audio: map<string, bool>)
    ensures forall c: Column :: !c.AudioCodec? ==> r.(audioCodecs := audio).Get(c) == r.Get(c)
  {
  }

  /**
   * File is the last component of the path; MKV and MP4 follow the
   * extension in any letter case, and at most one holds.
   */
  lemma FileAndContainerColumns(info: ProbeInfo, path: string)
    requires VideoStreams(info) != []
    ensures DetectFeatures(info, path).Ok?
    ensures var r := DetectFeatures(info, path).value;
            && LastComponent(path, r.file)
            && r.mkv == (Lower(Ext(path)) == ".mkv")
            && r.mp4 == (Lower(Ext(path)) == ".mp4")
            && !(r.mkv && r.mp4)
  {
    SameAsFullClassifier(info, path);
    Scanner.FileAndSizeColumns(info, path);
    Scanner.ContainerFlags(info, path);
  }

  /**
   * HEVC, H264 and AV1 compare the first video stream's codec name exactly,
   * and 4K is a width of at least 3840, a missing width counting as 0.
   */
  lemma CodecAndFourKColumns(info: ProbeInfo, path: string)
    requires VideoStreams(info) != []
    ensures DetectFeatures(info, path).Ok?
    ensures var r, v := DetectFeatures(info, path).value, VideoStreams(info)[0];
            && r.hevc == (v.codecName == Some("hevc"))
            && r.h264 == (v.codecName == Some("h264"))
            && r.av1 == (v.codecName == Some("av1"))
            && !(r.hevc && r.h264) && !(r.hevc && r.av1) && !(r.h264 && r.av1)
            && (r.fourK <==> v.width.Some? && v.width.value >= 3840)
  {
    SameAsFullClassifier(info, path);
    Scanner.VideoCodecFlags(info, path);
    Scanner.FourKFlag(info, path);
  }

  /**
   * HDR and DolbyVision are case-insensitive searches for "smpte2084" and
   * "dvhe" in the first video stream; DolbyAtmos is some audio stream with
   * "atmos" in its title or a TrueHD or E-AC-3 codec name.
   */
  lemma HdrVisionAndAtmosColumns(info: ProbeInfo, path: string)
    requires VideoStreams(info) != []
    ensures DetectFeatures(info, path).Ok?
    ensures var r, v, streams := DetectFeatures(info, path).value, VideoStreams(info)[0], info.StreamList();
            && (r.hdr <==> exists i :: OccursIgnoringCaseAt(v.colorTransfer.GetOr(""), "smpte2084", i))
            && (r.dolbyVision <==> exists i :: OccursIgnoringCaseAt(v.profile.GetOr(""), "dvhe", i))
            && (r.dolbyAtmos <==>
                  exists j :: 0 <= j < |streams| && IsAudio(streams[j]) && Scanner.AtmosHint(streams[j]))
  {
    SameAsFullClassifier(info, path);
    Scanner.HdrAndDolbyVisionFlags(info, path);
    Scanner.AtmosFlag(info, path);
  }

  /**
   * One file the walk yields: the directory it was found in, its name,
   * whether `os.path.isfile` holds for the joined path, and what
   * `get_video_info` returned for it (`None` when the probe failed).
   */
  datatype WalkEntry = WalkEntry(root: string, name: string, isFile: bool, probe: Option<ProbeInfo>)

  /** `os.path.join(root, file)` */
  function PathOf(e: WalkEntry): string {
    Join(e.root, e.name)
  }

  /**
   * A file that gets a row: a video extension, a regular file, and a
   * non-empty probe result.
   */
  predicate Shown(e: WalkEntry)
    ensures Shown(e) <==> e.isFile && Scanner.Probed(Scanner.Entry(e.root, e.name, e.probe))
  {
    Scanner.IsCandidate(e.name) && e.isFile && ProbeSucceeded(e.probe)
  }

  /** The classification of a file that gets a row. */
  function RowOf(e: WalkEntry): Result<Record, Error>
    requires e.probe.Some?
  {
    DetectFeatures(e.probe.value, PathOf(e))
  }

  /**
   * The file has a probe result with a video stream, so classifying it does
   * not raise (see `DetectFeatures`).
   */
  predicate Classifies(e: WalkEntry) {
    e.probe.Some? && VideoStreams(e.probe.value) != []
  }

  /** Every file the scan classifies, in walk order. */
  function ShownFiles(entries: seq<WalkEntry>): (files: seq<WalkEntry>)
    ensures |files| <= |entries|
  {
    if entries == [] then []
    else
      var last := entries[|entries| - 1];
      ShownFiles(entries[..|entries| - 1]) + if Shown(last) then [last] else []
  }

  /** The files classified from a walk are those of its two parts, in order. */
  lemma {:induction false} ShownFilesAppend(a: seq<WalkEntry>, b: seq<WalkEntry>)
    ensures ShownFiles(a + b) == ShownFiles(a) + ShownFiles(b)
  {
    if b == [] {
      assert a + b == a;
    } else {
      assert (a + b)[..|a + b| - 1] == a + b[..|b| - 1];
      ShownFilesAppend(a, b[..|b| - 1]);
    }
  }

  /**
   * A file is classified exactly when the walk yields it and it is shown: a
   * candidate that is not a regular file, or whose probe failed, is skipped.
   */
  lemma {:induction false} ShownFilesMembers(entries: seq<WalkEntry>)
    ensures forall e :: e in ShownFiles(entries) <==> e in entries && Shown(e)
  {
    if entries != [] {
      var init := entries[..|entries| - 1];
      ShownFilesMembers(init);
      assert entries == init + [entries[|entries| - 1]];
    }
  }

  /** How many files at the front of `files` classify before the first that raises. */
  function OkPrefix(files: seq<WalkEntry>): (n: nat)
    ensures n <= |files|
    ensures forall k :: 0 <= k < n ==> Classifies(files[k])
    ensures n < |files| ==> !Classifies(files[n])
  {
    if files == [] || !Classifies(files[0]) then 0
    else 1 + OkPrefix(files[1..])
  }

  /** `rows` holds, index by index, the records of `files`. */
  predicate RowsOf(files: seq<WalkEntry>, rows: seq<Record>) {
    |rows| == |files| &&
    forall k :: 0 <= k < |files| ==> files[k].probe.Some? && RowOf(files[k]) == Ok(rows[k])
  }

  /** The walk as the command-line scanner sees it, without the regular-file answer. */
  function WithoutFileCheck(entries: seq<WalkEntry>): (r: seq<Scanner.Entry>)
    ensures |r| == |entries|
    ensures forall k :: 0 <= k < |entries| ==>
              r[k] == Scanner.Entry(entries[k].root, entries[k].name, entries[k].probe)
  {
    if entries == [] then []
    else
      var last := entries[|entries| - 1];
      WithoutFileCheck(entries[..|entries| - 1]) + [Scanner.Entry(last.root, last.name, last.probe)]
  }

  /**
   * When every file the walk yields is still a regular file, the window
   * classifies exactly the files the command-line scanner does, in the same
   * order.
   */
  lemma {:induction false} SameFilesAsScanner(entries: seq<WalkEntry>)
    requires forall k :: 0 <= k < |entries| ==> entries[k].isFile
    ensures Scanner.ProbedFiles(WithoutFileCheck(entries)) == WithoutFileCheck(ShownFiles(entries))
  {
    if entries != [] {
      var init, last := entries[..|entries| - 1], entries[|entries| - 1];
      SameFilesAsScanner(init);
      var before := WithoutFileCheck(entries);
      assert before[..|before| - 1] == WithoutFileCheck(init);
      var tail := if Shown(last) then [last] else [];
      WithoutFileCheckAppend(ShownFiles(init), tail);
    }
  }

  lemma WithoutFileCheckAppend(a: seq<WalkEntry>, b: seq<WalkEntry>)
    ensures WithoutFileCheck(a + b) == WithoutFileCheck(a) + WithoutFileCheck(b)
  {
  }

  /** A file the window classifies gets the command-line scanner's record, less its audio-codec columns. */
  lemma SameRowAsScanner(e: WalkEntry)
    requires e.probe.Some?
    ensures var s := Scanner.Entry(e.root, e.name, e.probe);
            && (RowOf(e).Ok? <==> Scanner.RecordOf(s).Ok?)
            && (RowOf(e).Ok? ==> RowOf(e).value == Scanner.RecordOf(s).value.(audioCodecs := map[]))
  {
    SameAsFullClassifier(e.probe.value, PathOf(e));
    Scanner.FeaturesExtendBase(e.probe.value, PathOf(e));
  }

  /** The table of the window and the text of its status line. */
  class ScanWindow {
    var rows: seq<Record>
    var status: string

    /** A fresh window: an empty table, waiting for a folder. */
    constructor()
      ensures rows == [] && status == "Waiting for input..."
    {
      rows := [];
      status := "Waiting for input...";
    }

    /** `add_row`: the record becomes the table's last row. */
    method AddRow(item: Record)
      modifies this
      ensures rows == old(rows) + [item]
      ensures status == old(status)
    {
      rows := rows + [item];
    }

    /**
     * `scan_folder` as written, over the walk given as `entries`: a row per
     * classified file, in walk order, and "Scan complete." at the end. The
     * first classified file without a video stream raises, which ends the
     * scan thread: the rows added so far stay, and the status line still
     * names that file.
     */
    method ScanFolder(entries: seq<WalkEntry>) returns (raised: Option<Error>)
      modifies this
      ensures var files := ShownFiles(entries);
              var n := OkPrefix(files);
              && |rows| == |old(rows)| + n
              && rows[..|old(rows)|] == old(rows)
              && RowsOf(files[..n], rows[|old(rows)|..])
              && (raised.None? <==> n == |files|)
              && (raised.None? ==> status == "Scan complete.")
              && (raised.Some? ==> status == "Scanning: " + files[n].name)
    {
      status := "Scanning folder...";
      var results: seq<Record> := [];
      var i := 0;
      while i < |entries|
        invariant 0 <= i <= |entries|
        invariant rows == old(rows) + results
        invariant RowsOf(ShownFiles(entries[..i]), results)
      {
        var e := entries[i];
        if Scanner.IsCandidate(e.name) {
          var path := Join(e.root, e.name);
          status := "Scanning: " + e.name;
          if !e.isFile {
            assert RowsOf(ShownFiles(entries[..i + 1]), results) by {
              SkipStep(entries, i, results);
            }
            i := i + 1;
            continue;
          }
          var info := e.probe;
          if ProbeSucceeded(info) {
            var features := DetectFeatures(info.value, path);
            if features.Err? {
              RaiseStep(entries, i, results);
              return Some(features.error);
            }
            assert RowsOf(ShownFiles(entries[..i + 1]), results + [features.value]) by {
              AppendStep(entries, i, results, features.value);
            }
            AppendAssoc(old(rows), results, features.value);
            results := results + [features.value];
            AddRow(features.value);
          } else {
            assert RowsOf(ShownFiles(entries[..i + 1]), results) by {
              SkipStep(entries, i, results);
            }
          }
        } else {
          assert RowsOf(ShownFiles(entries[..i + 1]), results) by {
            SkipStep(entries, i, results);
          }
        }
        i := i + 1;
      }
      assert entries[..i] == entries;
      CompleteScan(ShownFiles(entries), results);
      status := "Scan complete.";
      return None;
    }
  }

  /** Adding a row after the earlier ones and the new ones is adding it to the new ones. */
  lemma AppendAssoc(earlier: seq<Record>, added: seq<Record>, row: Record)
    ensures (earlier + added) + [row] == earlier + (added + [row])
  {
  }

  /** The files classified up to `entries[i]`: those before it, then it if it is shown. */
  lemma ShownFilesStep(entries: seq<WalkEntry>, i: nat)
    requires i < |entries|
    ensures ShownFiles(entries[..i + 1]) ==
            ShownFiles(entries[..i]) + if Shown(entries[i]) then [entries[i]] else []
  {
    assert entries[..i + 1][..i] == entries[..i];
  }

  /** A turn of the loop that skips `entries[i]` keeps the rows as they are. */
  lemma SkipStep(entries: seq<WalkEntry>, i: nat, results: seq<Record>)
    requires i < |entries| && RowsOf(ShownFiles(entries[..i]), results)
    requires !Shown(entries[i])
    ensures RowsOf(ShownFiles(entries[..i + 1]), results)
  {
    ShownFilesStep(entries, i);
  }

  /** A turn of the loop that classifies `entries[i]` adds its row. */
  lemma AppendStep(entries: seq<WalkEntry>, i: nat, results: seq<Record>, rec: Record)
    requires i < |entries| && RowsOf(ShownFiles(entries[..i]), results)
    requires Shown(entries[i]) && RowOf(entries[i]) == Ok(rec)
    ensures RowsOf(ShownFiles(entries[..i + 1]), results + [rec])
  {
    ShownFilesStep(entries, i);
    RowsOfAppend(ShownFiles(entries[..i]), results, entries[i], rec);
  }

  /** Appending a file's row to the rows of the files before it. */
  lemma RowsOfAppend(files: seq<WalkEntry>, results: seq<Record>, e: WalkEntry, rec: Record)
    requires RowsOf(files, results)
    requires e.probe.Some? && RowOf(e) == Ok(rec)
    ensures RowsOf(files + [e], results + [rec])
  {
    forall k | 0 <= k < |files| + 1
      ensures (files + [e])[k].probe.Some? && RowOf((files + [e])[k]) == Ok((results + [rec])[k])
    {
      if k < |files| {
        assert (files + [e])[k] == files[k] && (results + [rec])[k] == results[k];
      } else {
        assert (files + [e])[k] == e && (results + [rec])[k] == rec;
      }
    }
  }

  /**
   * A shown entry that raises, after rows for all shown files before it:
   * it is the first classified file that raises, and the rows are those of
   * the files before it.
   */
  lemma RaiseStep(entries: seq<WalkEntry>, i: nat, results: seq<Record>)
    requires i < |entries| && RowsOf(ShownFiles(entries[..i]), results)
    requires Shown(entries[i]) && RowOf(entries[i]).Err?
    ensures var files := ShownFiles(entries);
            && OkPrefix(files) == |results| < |files|
            && RowsOf(files[..OkPrefix(files)], results)
            && files[OkPrefix(files)] == entries[i]
  {
    var files, before := ShownFiles(entries), ShownFiles(entries[..i]);
    var m := |before|;
    ShownPrefix(entries, i);
    RowsClassify(before, results);
    assert forall k :: 0 <= k < m ==> files[k] == files[..m][k];
    assert !Classifies(entries[i]);
    OkPrefixIs(files, m);
  }

  /** A file with a row classifies. */
  lemma RowsClassify(files: seq<WalkEntry>, results: seq<Record>)
    requires RowsOf(files, results)
    ensures forall k :: 0 <= k < |files| ==> Classifies(files[k])
  {
  }

  /**
   * The files classified from `entries` start with those of `entries[..i]`,
   * and a shown `entries[i]` comes right after them.
   */
  lemma ShownPrefix(entries: seq<WalkEntry>, i: nat)
    requires i < |entries| && Shown(entries[i])
    ensures var files, m := ShownFiles(entries), |ShownFiles(entries[..i])|;
            m < |files| && files[..m] == ShownFiles(entries[..i]) && files[m] == entries[i]
  {
    var e := entries[i];
    SplitAt(entries, i);
    ShownFilesAppend(entries[..i], [e] + entries[i + 1..]);
    ShownFilesAppend([e], entries[i + 1..]);
    assert ShownFiles([e]) == [e] by {
      assert [e][..0] == [];
    }
    PrefixOfConcat(ShownFiles(entries[..i]), e, ShownFiles(entries[i + 1..]));
  }

  /** `OkPrefix` is the one index before which everything classifies and at which something raises. */
  lemma OkPrefixIs(files: seq<WalkEntry>, m: nat)
    requires m <= |files|
    requires forall k :: 0 <= k < m ==> Classifies(files[k])
    requires m < |files| ==> !Classifies(files[m])
    ensures OkPrefix(files) == m
  {
  }

  /** Rows for every classified file: none raised, and all of them are in the table. */
  lemma CompleteScan(files: seq<WalkEntry>, results: seq<Record>)
    requires RowsOf(files, results)
    ensures OkPrefix(files) == |files|
    ensures files[..|files|] == files
  {
    RowsClassify(files, results);
    OkPrefixIs(files, |files|);
  }
}
