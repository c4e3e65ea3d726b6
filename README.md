# TransFlix subtitle builder, modelled in Dafny

TransFlix turns a video into a subtitled video. It extracts the audio,
transcribes it with an offline speech recogniser, lets the user edit and
translate the transcript, and burns the subtitles back into the video. This
project models the deterministic core of `ProcessVideo` in `main.py`: the
SubRip (SRT) subtitle builder.

- **Timestamp formatter** (`Timestamp`): `_format_timestamp` renders a time as
  `HH:MM:SS,mmm`. `Format` takes whole milliseconds. It builds the Python
  string `f"{hours:02d}:{minutes:02d}:{secs:06.3f}"` and then replaces the
  point with a comma, as the source does. `Parse` reads a timestamp back.
  `ParseFormat` states the round trip through it; the layout and arithmetic
  lemmas are stated through the field functions and the digit values.
- **Cue builder** (`Subtitles`): the loop of `retrieve_text`. The recogniser is
  replaced by its output: the `recognizer.Result()` values read each time
  `AcceptWaveform` accepts a chunk (`AcceptedResult`, main.py:108-109). Each result may carry a `"result"` word list. Each word
  has a text, a start, an end (milliseconds) and a confidence (an exact
  rational). A non-empty word list becomes the cue
  `"{index}\n{start} --> {end}\n{text}\n"`. The start is the first word's
  start and the end is the last word's end. The text joins, with single
  spaces, the words whose confidence is strictly above 0.6. The index then
  moves on. `BuildSubtitles` is that loop. It is proved equal to the
  functional specification `Cues`, and the properties are lemmas about `Cues`.
- **SRT serialiser** (`Subtitles.SrtContent`, `Workspace.FileSystem.SaveSrt`):
  `_save_srt` writes each cue followed by a line feed. The file system is a
  map from path to contents, held in a `FileSystem` object. The source has no
  reader, so `ParseSrt` is written here to read the four-line blocks back. The
  round-trip lemmas show that the written file is unambiguous.
- **Derived paths** (`Paths`): the working `.srt` and `.wav` files are
  `os.path.join(video_dir, basename(video)[:-4] + ext)`. The output file name is
  `stem + "_subtitled" + suffix`.

Points where the code's behaviour is easy to misread:

- A word list whose words all score 0.6 or less still gets a cue with an empty
  text line and takes an index (main.py:112-117, `FilteredSegmentKeepsIndex`).
- The working name drops the last four characters of the base name, whatever
  the extension. `clip.webm` gives `clip..srt`. `talk.mp4` and `talk.mkv` in
  one directory share their working files (`WorkingPathIdentity`,
  `WorkingPathOfLongExtension`).
- The code's `06.3f` rounds the seconds field to the nearest millisecond. With
  whole-millisecond input, rounding and truncating agree, and the model takes
  whole milliseconds.
- The code does not guarantee that a cue's start is at most its end. Both come
  from the recogniser's words as they are.

## Model

| member | source | states |
|---|---|---|
| `Strings.Decimal` | main.py:116 | `str(n)` gives at least one digit, only digits, no leading zero from 10 up, and the digits read back as `n` |
| `Strings.PadLeftDigits` | main.py:54 | zero padding as in `02d` reaches the width (or keeps a longer string), adds only digits and keeps the value |
| `Strings.SplitJoinSpaces` | main.py:115 | `" ".join` loses nothing: splitting on single spaces gives back the words when none holds a space |
| `Timestamp.FieldsRecompose` | main.py:51-53 | minutes and seconds are below 60 and the milliseconds below 1000, and `3600000*H + 60000*M + 1000*S + mmm` is the input time |
| `Timestamp.FormatLayout` | main.py:50-54 | the result is `H..H:MM:SS,mmm`: at least two hour digits (more from 100 hours up), two minute and two second digits, three millisecond digits, a comma as the only sub-second separator and no point; each field holds its computed value |
| `Timestamp.ParseFormat` | main.py:50-54 | reading a formatted timestamp gives back exactly the time formatted |
| `Timestamp.FormatZero` | main.py:50-54 | time 0 gives `00:00:00,000` |
| `Timestamp.FormatOneHourOneMinute` | main.py:50-54 | 3661.123 s gives `01:01:01,123` |
| `Subtitles.KeptWordsAppend` | main.py:115 | the confidence filter goes word by word: it keeps order and splits over concatenation |
| `Subtitles.KeptWordsEmpty` | main.py:115 | no word is kept exactly when every confidence is at or below 0.6 |
| `Subtitles.CueTextSplits` | main.py:115 | the cue text splits back into exactly the kept words, in order, when some word is kept and no kept word holds a space |
| `Subtitles.CueTextExamples` | main.py:115 | confidences 0.9, 0.5, 0.7 keep the first and third word, joined by one space; a word at exactly 0.6 is dropped |
| `Subtitles.CuesFromAppend` | main.py:110-117 | a result without a `"result"` key or with an empty list adds no cue and takes no index; any other result appends one cue whose index follows the last |
| `Subtitles.CuesFromSegments` | main.py:104-117 | the loop's cues are the non-empty word lists, in recognition order, numbered consecutively from the starting index |
| `Subtitles.CuesOfAt` | main.py:113-117 | the k-th of those cues is built from the k-th word list and numbered k places after the starting index |
| `Subtitles.ContiguousCues` | main.py:100-117 | the k-th cue has index k+1, so there are no gaps; there is one cue per non-empty word list, filtered-out ones included; each cue's start is the first word's start, its end the last word's end, and its text the kept words |
| `Subtitles.FilteredSegmentKeepsIndex` | main.py:112-117 | a word list whose words all fail the filter still yields a cue, with an empty text, and consumes the next index |
| `Subtitles.NoWordsNoCues` | main.py:100-119 | with no non-empty word list (including no results at all) there are no cues and the saved file is empty |
| `Subtitles.BuildSubtitles` | main.py:100-117 | the list the loop builds is exactly the rendering, in order, of the cues `Cues` specifies for the results |
| `Subtitles.SrtContentAppend` | main.py:59-61 | writing one more cue appends the cue and a line feed to what was written |
| `Subtitles.ParseBlockOf` | main.py:116 | a cue string followed by the blank line reads back as the same index, start, end and text, when the text holds no line feed |
| `Subtitles.ParseSrtOf` | main.py:59-61 | the written file reads back, block by block, as exactly the cues written, in order, provided no cue text holds a line feed |
| `Subtitles.SavedSubtitlesReadBack` | main.py:100-119 | the file saved for any recogniser output reads back as the cues the loop built, provided no word holds a line feed |
| `Workspace.FileSystem.SaveSrt` | main.py:57-62 | the file at the working `.srt` path holds every cue followed by a line feed, in order; no other file changes; the path is returned |
| `Workspace.FileSystem.RetrieveText` | main.py:96-119 | without the working `.wav` nothing changes; otherwise the `.wav` is deleted, the `.srt` holds the serialised cues, nothing else changes and the `.srt` path is returned |
| `Paths.Basename` | main.py:58 | `basename` holds no slash and is no longer than the path |
| `Paths.BasenameIsLastComponent` | main.py:58 | `basename` is the tail of the path after its last slash |
| `Paths.BasenameOfName` | main.py:58 | a slash-free name after a directory ending in a slash is its own base name |
| `Paths.DropLastFour` | main.py:66 | `s[:-4]` is the prefix of length `len(s) - 4`, or empty when `s` is shorter |
| `Paths.WorkingFilesShareBase` | main.py:65-68 | the `.srt` and `.wav` working paths are one joined base plus `.srt` or `.wav`, and so are never the same path |
| `Paths.WorkingPathIdentity` | main.py:102 | in one directory two videos share a working file exactly when their base names agree after the last four characters are cut |
| `Paths.WorkingPathOfNestedVideo` | main.py:58 | `videos/talk.mp4` in `out` gives `out/talk.srt` |
| `Paths.WorkingPathInSlashedDir` | main.py:76 | `talk.mkv` in `out/` gives `out/talk.wav`, with no doubled slash |
| `Paths.WorkingPathOfLongExtension` | main.py:58 | `clip.webm` in `out` gives `out/clip..srt` |
| `Paths.OutputFileName` | main.py:432-433 | the output name always differs from the video's own name |
| `Paths.StemSuffixSplit` | main.py:433 | stem and suffix split the name; a suffix is empty or a point, at least one more character and no further point, after a non-empty stem |
| `Paths.OutputFileNameKeepsSuffix` | main.py:432-433 | when the video has a suffix, the output keeps it, its stem is the video's stem plus `_subtitled`, and the video's name can be read back from it |
| `Paths.OutputFileNameWithoutSuffix` | main.py:432-433 | when the video has no suffix, the output is the video's name followed by `_subtitled` |

## Left out

- The Vosk `Model` and `KaldiRecognizer`, the `wave` reading in 4000-frame chunks and the `AcceptWaveform` decisions (main.py:97-109) are foreign code and I/O. The finalised results are an input sequence. Which chunks finalise a result is not visible.
- Loading the acoustic model (`Model("models/" + self.model)`, main.py:97) is not modelled. A missing model makes that call raise before any cue is built. `_model_exists` (main.py:41-47) is defined but never called, so it is not modelled either.
- `retrieve_text` never calls `recognizer.FinalResult()`. When the audio ends (main.py:106-107) it goes straight to `os.remove` and `_save_srt` (main.py:118-119). Speech the recogniser has not finalised by then never becomes a cue. The model's `results` are only the results `AcceptWaveform` finalised, so the model has the same loss.
- Paths are POSIX paths (`posixpath`). On Windows `os.path` is `ntpath`, which also splits on `\` and handles drive letters in `join`. There `Basename` and `Join` would differ, and the path lemmas do not cover it.
- The ffmpeg calls in `extract_audio` and `burn_subtitles` (main.py:75-93, 122-135) are external tools with fixed arguments. Only the `.wav` path of `extract_audio` is modelled, through `Paths.WavPath`.
- `Translator` (main.py:139-157) wraps argostranslate and installs remote packages. It is not modelled.
- `_video_exits`, `_cleanup` and the `os.remove` of the `.srt` after burning (main.py:32-47, 65-72, 493) are not modelled as operations. Only the paths `_cleanup` computes are modelled. The `.wav` deletion inside `retrieve_text` is modelled.
- The PyQt5 windows, the media player, `QSettings`, threads and signals (main.py:161-557) are user interface and concurrency. They are not modelled.
- Output path: only the file name of main.py:433 is modelled. Joining it to the save directory with `Path(save_dir) / output_file` (main.py:434) is not.
- `Paths.PathName`: pathlib's `name` is modelled as the base name after trailing slashes are dropped. pathlib's other normalisations (`.` components, repeated slashes inside the path) are not.
- Floating point: times are whole milliseconds (`nat`) and confidences are exact rationals (`real`). Python works on binary floats, rounds the `06.3f` seconds field to nearest, and compares confidences against the double nearest 0.6. For whole-millisecond times the rendering is the same.
- Encoding: file contents are character sequences. The UTF-8 encoding used by `_save_srt` is not modelled.
- Errors raised by malformed recogniser output (a missing `word`, `start`, `end` or `conf` key, or a `"result"` that is not a list) cannot occur in the typed model.
