# Media Scanner: the feature classifier and the folder scans, in Dafny

Media Scanner walks a folder and probes every video file with `ffprobe`. It
turns each probe result into a flat record of taxonomy flags: the container
(MKV, MP4), the video codec (HEVC, H264, AV1), 4K, HDR, DolbyVision and
DolbyAtmos, one flag per audio codec, and the Resolution and BitDepth
texts. This project models two parts of it and proves what they promise:

- `scanner.py`, the command-line scanner, is module `Scanner`. It holds the
  full classifier `detect_features`, whose audio-codec loop is the method
  `Scanner.DetectFeatures`, proved equal to the function `Scanner.Features`.
  It also holds `scan_folder`, the method `Scanner.ScanFolder`, which
  collects one record per probed video file in walk order.
- `video_scanner_gui.py`, the Tk front end, is module `GuiScanner`. It holds
  the thirteen-column classifier `GuiScanner.DetectFeatures`, and the window
  as the class `GuiScanner.ScanWindow`. The window's table (`rows`) and its
  status line (`status`) are fields that `ScanFolder` and `AddRow` update in
  place.

Supporting modules:

- `Probe`: the probe result as a datatype, the classified record, and the
  partition of streams by kind.
- `TextOps`: `str.lower`, `str.upper`, the `in` substring test and `str(int)`.
- `PosixPath`: `os.path.splitext`, `basename` and `join` for '/' paths.
- `Wrappers`: `Option` and `Result`.

The directory walk, `os.path.isfile` and the probe are inputs. Each walk
entry carries:

- the directory it was found in and the file name;
- for the window, whether the joined path is a regular file;
- what the probe returned: `None` when `get_video_info` failed, otherwise
  the decoded object.

A record is the datatype `Probe.Record`. It has the thirteen fixed keys as
fields and the audio-codec keys as a map. `Record.Get(c)` reads it the way
the dictionary is read by key, with `Probe.Column` naming the keys.

Behaviour of the code worth knowing, which the model keeps:

- A probe result without a video stream makes `detect_features` raise at
  `video_streams[0]` (`scanner.py:31`, `video_scanner_gui.py:42`). It does
  not give a record with "N/A" and false values. The model returns
  `Err(NoVideoStream)`.
  - `scanner.py`'s `scan_folder` then stops with that error.
  - The window's scan thread ends: the rows added so far stay, and the
    status line still names that file.
- With neither bit depth set, BitDepth is "N/A-bit", not "N/A".
- A failed or empty probe result means the file is skipped. No record with
  default values is made for it, and there is no skipped-file count.
- A probe object holding neither "format" nor "streams" but some other key
  (such as "programs") is not empty. The file is classified and raises for
  want of a video stream. `Probe.ProbeInfo` keeps a flag for such keys.
- The video codec flags compare `codec_name` exactly, letter case included.
  Only the container, HDR, DolbyVision, Atmos title and audio-codec tests
  lower-case.
- The scan runs file by file in walk order, with no pool of workers, no
  timeout and no cancellation.

## Model

| member | source | states |
|---|---|---|
| Scanner.BaseFields | scanner.py:21-57 | The thirteen base fields come back exactly when the probe lists a video stream; otherwise the error is `NoVideoStream`, raised at `video_streams[0]`. |
| Scanner.Features | scanner.py:21-59 | The full record comes back exactly when the probe lists a video stream; otherwise the error is `NoVideoStream`. |
| Scanner.MarkAudioCodecs | scanner.py:38-42 | The loop leaves every listed format as a key, true exactly when some audio stream's lower-cased codec name is that format. |
| Scanner.DetectFeatures | scanner.py:21-59 | The loop that marks each audio stream's lower-cased codec in `audio_codecs`, followed by the upper-cased merge, yields exactly the full record: the thirteen base fields plus the ten audio columns. It gives the `NoVideoStream` error when there is no video stream. |
| Scanner.AudioPresenceStep | scanner.py:39-42 | One turn of the audio loop sets the stream's lower-cased codec to true when it is a listed format, and changes no other entry. |
| Scanner.PresenceOfAppend | scanner.py:39-42 | One more audio stream keeps the ten keys. Each entry becomes its old value or'ed with "this stream has that codec". |
| Scanner.UnlistedCodecChangesNothing | scanner.py:41-42 | An audio stream whose lower-cased codec is not one of the ten changes no audio column. |
| Scanner.AudioFormatsUpperInjective | scanner.py:7 | No two of the ten audio format names upper-case to the same key, so the merge at `scanner.py:58` loses no entry. |
| Scanner.UpperFormatNames | scanner.py:7 | The ten format names upper-case, in order, to AAC, MP3, AC3, EAC3, TRUEHD, DTS, OPUS, FLAC, VORBIS and PCM. |
| Scanner.AudioKeysAreNotBaseKeys | scanner.py:44-58 | No upper-cased audio format is one of the thirteen base keys, so the `**` merge overwrites none of them. |
| Scanner.AudioColumnsBuilt | scanner.py:58 | The merged audio columns are exactly the ten upper-cased names, each carrying the flag of its lower-case name. |
| Scanner.AudioCodecColumns | scanner.py:38-58 | The record's audio columns are exactly AAC … PCM. Each is true exactly when some stream of kind "audio" has that codec name, compared lower-cased. |
| Scanner.PresenceAmongStreams | scanner.py:38-42 | After the loop, `audio_codecs[fmt]` holds exactly when some stream of kind "audio" (and no other kind) has the lower-cased codec `fmt`. |
| Scanner.FeaturesExtendBase | scanner.py:44-59 | A record comes back exactly when there is a video stream. It is the thirteen-field record with the audio columns merged in. |
| Scanner.EveryColumnPresent | scanner.py:44-59 | A record comes back exactly when some stream's kind is "video". It then has every base and audio key and no other, so a missing tag is never a missing key. |
| Scanner.ColumnsOfRecord | scanner.py:44-58 | The keys of a record are the thirteen base columns plus one per audio-codec entry. |
| Scanner.ContainerIs | scanner.py:22 | The container is a given name exactly when the lower-cased extension is "." followed by that name: ".MKV" gives "mkv". |
| Scanner.ContainerNames | scanner.py:22 | The container is "mkv" (or "mp4") exactly for the extension ".mkv" (or ".mp4") in any letter case, and never both. |
| Scanner.ContainerFlags | scanner.py:47-48 | MKV and MP4 are true exactly for those extensions in any letter case, and at most one of them holds. |
| Scanner.DefaultedName | scanner.py:29 | A codec name read with the "N/A" default equals a real codec name exactly when the stream has that name. |
| Scanner.VideoCodecFlags | scanner.py:49-51 | HEVC, H264 and AV1 are true exactly when the first video stream's `codec_name` is that exact text, letter case included. A missing name sets none, and at most one holds. |
| Scanner.FourKFlag | scanner.py:52 | 4K holds exactly when the first video stream's width is present and at least 3840. So 3840 is 4K, 3839 is not, and a missing width is not. |
| Scanner.HdrAndDolbyVisionFlags | scanner.py:33-34 | HDR holds exactly when some window of the first video stream's `color_transfer` lower-cases to "smpte2084". DolbyVision holds the same way for "dvhe" in `profile`. A missing value sets neither. |
| Scanner.AtmosAny | scanner.py:35-36 | The two `any` passes or'ed together are one `any` over the audio streams of "atmos in the lower-cased title, or codec exactly truehd or eac3". |
| Scanner.AtmosAmongStreams | scanner.py:35-36 | That `any` over the audio streams holds exactly when some stream of kind "audio" gives the hint. Streams of other kinds never count. |
| Scanner.AtmosFlag | scanner.py:35-36 | DolbyAtmos holds exactly when some stream of kind "audio" has "atmos" in its lower-cased title or the exact codec name "truehd" or "eac3". |
| Scanner.ResolutionColumn | scanner.py:30 | The Resolution text reads back as the first video stream's width and height, with 0 where one is missing. |
| Scanner.BitDepthColumn | scanner.py:57 | BitDepth is the raw-sample depth followed by "-bit" when that depth is truthy, otherwise the per-sample depth when that is truthy, otherwise "N/A-bit". |
| Scanner.FileAndSizeColumns | scanner.py:45-46 | File is the path's last component: it has no '/', and the path ends with it, right after a '/' or as the whole path. Size is the probe's byte count, 0 when it is missing. |
| Scanner.IsCandidate | scanner.py:65 | The extension test itself, with the list search written out; `CandidateIsListed` and `CandidateIgnoresCase` state what it means. |
| Scanner.CandidateIsListed | scanner.py:65 | A file is probed exactly when its lower-cased extension is one of the five in `VIDEO_EXTENSIONS`. Its extension is then a '.' and three or four more characters, so a name without an extension is never probed. |
| Scanner.CandidateIgnoresCase | scanner.py:65 | Whether a name is a candidate depends only on its lower-cased form. |
| Scanner.ProbedFiles | scanner.py:63-69 | The files `scan_folder` classifies are never more than the walk yields. |
| Scanner.OtherKeysOnlyRaises | scanner.py:68-70 | A probe object with only keys other than "format" and "streams" is non-empty, so the file is classified, and classifying it raises `NoVideoStream`. |
| Scanner.ProbedFilesMembers | scanner.py:63-69 | A file is classified exactly when the walk yields it, its extension is listed, and its probe result is non-empty. |
| Scanner.ProbedFilesAppend | scanner.py:63-70 | The classified files of a walk are those of its first part followed by those of the rest, so walk order is kept. |
| Scanner.ScanFolder | scanner.py:61-71 | The scan succeeds exactly when every classified file has a video stream. The results are then, index by index, the records of the classified files in walk order. |
| Scanner.RecordNamesItsFile | scanner.py:66-70 | A record made from `join(root, file)` is named `file`, and its MKV and MP4 flags follow the file's own extension, whatever the directory. |
| Probe.PyOr | scanner.py:32 | Python's `a or b`: the result is `a` when `a` is truthy, otherwise `b`, and it is truthy exactly when one of them is. |
| Probe.ProbeSucceeded | scanner.py:69 | `if info:` holds exactly when the probe returned an object and that object is not the empty one. |
| Probe.VideoStreams | scanner.py:26 | The video streams are exactly the listed streams whose kind is "video", and there are no more of them than streams. A missing "streams" key lists none. |
| Probe.AudioStreams | scanner.py:27 | The audio streams are exactly the listed streams whose kind is "audio", and there are no more of them than streams. |
| Probe.Filter | scanner.py:26-27 | The comprehension keeps exactly the elements that pass the test and never grows the list. |
| Probe.FilterAppend | scanner.py:26-27 | Filtering distributes over concatenation, so the kept streams stay in their original order. |
| Probe.FirstVideoStream | scanner.py:26-29 | `video_streams[0]` is the first stream whose kind is "video", wherever it stands among the others. |
| Probe.HasVideoStream | scanner.py:26 | There is a video stream exactly when some stream's kind is "video". |
| Probe.ResolutionRoundTrip | scanner.py:30 | The text "{width}x{height}" determines both numbers, negative ones included. |
| TextOps.Lower | scanner.py:22 | `lower()` keeps the length and lower-cases each ASCII letter in place. |
| TextOps.Upper | scanner.py:58 | `upper()` keeps the length and upper-cases each ASCII letter in place. |
| TextOps.Contains | scanner.py:33-35 | `sub in s` fails when `sub` is longer than `s`, and holds for the empty `sub` and for an `s` that ends with `sub`. |
| TextOps.DropFirst | scanner.py:22 | `[1:]` drops the first character, and gives "" for "". |
| TextOps.UpperInjectiveOn | scanner.py:58 | `upper()` loses nothing on texts with no upper-case letter. |
| TextOps.ContainsLowered | scanner.py:33-34 | `sub in s.lower()` holds exactly when some window of `s` lower-cases to `sub`, which makes it a case-insensitive search. |
| TextOps.IntToStringRoundTrip | scanner.py:30 | Reading back `str(i)` gives `i`. |
| PosixPath.Ext | scanner.py:22 | The extension `splitext` returns is a suffix of the path. It is empty or starts with its only '.', and it has no '/'. |
| PosixPath.ExtStartsAtLastDot | scanner.py:22 | The extension is non-empty exactly when the path has a '.' with some character other than '.' before it and no '/' from that character on, that is, inside the last component. It then runs from the last '.' to the end. |
| PosixPath.ExtKeepsCase | scanner.py:22 | `splitext("a.MKV")` gives ".MKV": the extension keeps its letter case. |
| PosixPath.ExtFromLastDot | scanner.py:22 | `splitext("a.b.mkv")` gives ".mkv": only the last '.' counts. |
| PosixPath.ExtOfLeadingDots | scanner.py:65 | ".mkv" and "..mkv" have no extension: leading dots of a name do not start one. |
| PosixPath.ExtNotInDirectory | scanner.py:22 | "a.b/c" has no extension: a '.' in a directory does not count. |
| PosixPath.ExtOfTrailingDot | scanner.py:22 | "a." has the extension ".". |
| PosixPath.Join | scanner.py:66 | `join(root, file)` ends with `file`. For a relative `file` it also starts with `root`. |
| PosixPath.Basename | scanner.py:45 | `basename` returns the part of the path after its last '/': a suffix with no '/'. |
| PosixPath.BasenameOfJoin | scanner.py:66 | The basename of `join(root, file)` is `file` when the name has no '/'. |
| PosixPath.ExtOfJoin | scanner.py:66 | Joining a name under a directory does not change its extension. |
| PosixPath.ExtOfLower | scanner.py:65 | The extension of the lower-cased name is the lower-cased extension. |
| GuiScanner.DetectFeatures | video_scanner_gui.py:32-64 | The window's classifier gives a record exactly when there is a video stream, and that record has no audio-codec column. |
| GuiScanner.ExactlyTheTableColumns | video_scanner_gui.py:50-64 | A record has exactly the thirteen keys File … BitDepth, the table's columns at lines 82-85, and nothing else. |
| GuiScanner.SameAsFullClassifier | video_scanner_gui.py:33-63 | The window's record equals the full classifier's base record. Both fail on the same inputs, and every shared key has the same value in both. |
| GuiScanner.FileAndContainerColumns | video_scanner_gui.py:51-54 | File is the path's last component. MKV and MP4 follow the extension in any letter case, and at most one holds. |
| GuiScanner.CodecAndFourKColumns | video_scanner_gui.py:55-58 | HEVC, H264 and AV1 compare the first video stream's codec exactly, and at most one holds. 4K is a present width of at least 3840. |
| GuiScanner.HdrVisionAndAtmosColumns | video_scanner_gui.py:44-48 | HDR and DolbyVision are case-insensitive searches in the first video stream. DolbyAtmos is some audio stream with "atmos" in its title or an exact "truehd"/"eac3" codec. |
| GuiScanner.Shown | video_scanner_gui.py:106-113 | The window classifies a walked file exactly when the command-line scanner would and the joined path is a regular file. |
| GuiScanner.ShownFiles | video_scanner_gui.py:104-113 | The files the window classifies are never more than the walk yields. |
| GuiScanner.ShownFilesMembers | video_scanner_gui.py:104-113 | A file gets classified exactly when the walk yields it, its extension is listed, it is a regular file, and its probe result is non-empty. |
| GuiScanner.ShownFilesAppend | video_scanner_gui.py:104-116 | The classified files of a walk are those of its first part followed by those of the rest, so walk order is kept. |
| GuiScanner.OkPrefix | video_scanner_gui.py:113-116 | It counts the classified files before the first one without a video stream: all files before it classify, and the one at it does not. |
| GuiScanner.SameFilesAsScanner | video_scanner_gui.py:104-113 | When every yielded file is still a regular file, the window classifies exactly the files the command-line scan does, in the same order. |
| GuiScanner.SameRowAsScanner | video_scanner_gui.py:114 | A file's row is the command-line scanner's record for it without the audio columns, and one fails exactly when the other does. |
| GuiScanner.ScanWindow.constructor | video_scanner_gui.py:79 | A new window has an empty table, and its status reads "Waiting for input...". |
| GuiScanner.ScanWindow.AddRow | video_scanner_gui.py:119-134 | The record becomes the table's last row, and the status line is unchanged. |
| GuiScanner.ScanWindow.ScanFolder | video_scanner_gui.py:101-117 | The rows before the scan stay. After them come, in walk order, the rows of the classified files up to the first file without a video stream. Without such a file every classified file gets a row and the status reads "Scan complete.". With one, the error is raised and the status reads "Scanning: " followed by that file's name. |

## Left out

- `get_video_info` is not part of this model. It covers the `ffprobe` subprocess and the JSON decoding (`scanner.py:9-19`, `video_scanner_gui.py:15-30`); its result is an input to each walk entry.
- The `ffprobe` availability check at start-up (`video_scanner_gui.py:9-10`) is left out: it is a check of the environment.
- `os.walk`, `os.path.isfile` and `os.path.normpath` are left out; the walk is an input sequence in walk order, and so is the regular-file answer.
- Scanner.FileAndSizeColumns: Size is the byte count from the probe, not the "X.XX MB" text. The text is float division, rounding and float formatting.
- `format_name` is left out, because it is computed and never used.
- The `print` calls ("Scanning: …", "Skipped missing file: …") are left out: they are console output only.
- Tk is left out: the widgets, the button, the scrollbar, the emoji that `add_row` shows for each flag, and the background thread that runs the scan. The table is the sequence of records, in the order rows are added.
- GuiScanner.ScanWindow.ScanFolder: states the status line only at the end of the scan. The intermediate "Scanning folder..." and "Scanning: <file>" values are overwritten before then, and nothing else reads them while the scan runs.
- The window's local `results` list is never read after the scan, so it is not a field. It always equals the rows the scan added.
- `str.lower` and `str.upper` are modelled on ASCII letters only; Python maps all of Unicode.
- Paths use '/' as the only separator, as on POSIX.
- Every stream is assumed to have a `codec_type`. A stream without one makes the source raise `KeyError`; that case is left out.
- Dictionary key order is left out: a record is a value with named fields and a map of audio columns. `Scanner.AudioKeysAreNotBaseKeys` shows that the merged audio keys never collide with the base keys.
- `main.py` is not part of this model.
