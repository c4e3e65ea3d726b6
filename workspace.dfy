/**
 * The files `ProcessVideo` touches while transcribing: `_save_srt` writes
 * the working `.srt`, `retrieve_text` deletes the working `.wav` once the
 * recogniser has consumed it and then saves the cues. The file system is a
 * map from path to contents.
 */
module Workspace {
  import opened Optional
  import opened Subtitles
  import Paths

  class FileSystem {
    var files: map<string, string>

    constructor (initial: map<string, string>)
      ensures files == initial
    {
      files := initial;
    }

    /**
     * `_save_srt` (main.py:57-62): open the working `.srt` for writing, which
     * empties it, write each cue followed by a line feed, return its path.
     */
    method SaveSrt(videoDir: string, video: string, subtitles: seq<string>) returns (srtFile: string)
      modifies this
      ensures srtFile == Paths.SrtPath(videoDir, video)
      ensures files == old(files)[srtFile := SrtContent(subtitles)]
    {
      srtFile := Paths.SrtPath(videoDir, video);
      files := files[srtFile := ""];
      for i := 0 to |subtitles|
        invariant files == old(files)[srtFile := SrtContent(subtitles[..i])]
      {
        SrtContentAppend(subtitles[..i], subtitles[i]);
        assert subtitles[..i + 1] == subtitles[..i] + [subtitles[i]];
        files := files[srtFile := files[srtFile] + subtitles[i] + "\n"];
      }
      assert subtitles[..|subtitles|] == subtitles;
    }

    /**
     * `retrieve_text` (main.py:96-119) once the recogniser has produced
     * `results` from the working `.wav`: build the cues, delete the `.wav`,
     * save the cues. Without the `.wav` the source fails on opening it and
     * nothing changes.
     */
    method RetrieveText(videoDir: string, video: string, results: seq<AcceptedResult>) returns (srtFile: Option<string>)
      modifies this
      ensures Paths.WavPath(videoDir, video) !in old(files) ==> srtFile == None && files == old(files)
      ensures Paths.WavPath(videoDir, video) in old(files) ==>
        srtFile == Some(Paths.SrtPath(videoDir, video)) &&
        files == (old(files) - {Paths.WavPath(videoDir, video)})[Paths.SrtPath(videoDir, video) := SrtContent(RenderAll(Cues(results)))]
    {
      var wavFile := Paths.WavPath(videoDir, video);
      if wavFile !in files {
        return None;
      }
      var subtitles := BuildSubtitles(results);
      files := files - {wavFile};
      var saved := SaveSrt(videoDir, video, subtitles);
      srtFile := Some(saved);
    }
  }
}
