/**
 * The file names `ProcessVideo` derives from the video path: the working
 * `.srt` and `.wav` files `os.path.join(video_dir, basename(video)[:-4] + ext)`
 * and the output name `stem + "_subtitled" + suffix` of the burning step.
 * Paths are POSIX paths.
 */
module Paths {

  /** `os.path.basename`: the text after the last slash. */
  function Basename(p: string): (r: string)
    ensures '/' !in r && |r| <= |p|
  {
    if p == [] || p[|p| - 1] == '/' then [] else Basename(p[..|p| - 1]) + [p[|p| - 1]]
  }

  /** The base name is the longest tail of the path that holds no slash. */
  lemma {:induction false} BasenameIsLastComponent(p: string)
    ensures var r := Basename(p);
      r == p[|p| - |r|..] && (|r| < |p| ==> p[|p| - |r| - 1] == '/')
  {
    if p != [] && p[|p| - 1] != '/' {
      var q := p[..|p| - 1];
      BasenameIsLastComponent(q);
      assert q[|q| - |Basename(q)|..] + [p[|p| - 1]] == p[|p| - |Basename(q)| - 1..];
    }
  }

  /** A slash-free name after a slash, or on its own, is its own base name. */
  lemma {:induction false} BasenameOfName(dir: string, name: string)
    requires '/' !in name
    requires dir == [] || dir[|dir| - 1] == '/'
    ensures Basename(dir + name) == name
    decreases |name|
  {
    if name == [] {
      assert dir + name == dir;
    } else {
      var last := name[|name| - 1];
      assert (dir + name)[..|dir + name| - 1] == dir + name[..|name| - 1];
      BasenameOfName(dir, name[..|name| - 1]);
      assert name[..|name| - 1] + [last] == name;
    }
  }

  /** Python's `s[:-4]`: all but the last four characters; empty when `s` is shorter. */
  function DropLastFour(s: string): (r: string)
    ensures |r| == if |s| >= 4 then |s| - 4 else 0
    ensures r == s[..|r|]
  {
    if |s| >= 4 then s[..|s| - 4] else []
  }

  /** `os.path.join(a, b)`: an absolute `b` wins, otherwise one slash between. */
  function Join(a: string, b: string): string
  {
    if |b| > 0 && b[0] == '/' then b
    else if a == [] || a[|a| - 1] == '/' then a + b
    else a + "/" + b
  }

  /** The name both working files share, before the extension is added. */
  function WorkingName(video: string): string
  {
    DropLastFour(Basename(video))
  }

  /** The working file `basename(video)[:-4] + ext` placed in `dir`. */
  function WorkingPath(dir: string, video: string, ext: string): string
  {
    Join(dir, WorkingName(video) + ext)
  }

  /** main.py:58 and 67: the working subtitle file. */
  function SrtPath(dir: string, video: string): string
  {
    WorkingPath(dir, video, ".srt")
  }

  /** main.py:68, 76 and 102: the working audio file. */
  function WavPath(dir: string, video: string): string
  {
    WorkingPath(dir, video, ".wav")
  }

  /** The working path is the joined working name with the extension appended. */
  lemma WorkingPathAppends(dir: string, video: string, ext: string)
    requires |ext| > 0 && ext[0] == '.'
    ensures WorkingPath(dir, video, ext) == Join(dir, WorkingName(video)) + ext
  {
    var n := WorkingName(video);
    assert n == [] || n[0] != '/' by {
      if n != [] {
        assert n[0] == Basename(video)[0];
      }
    }
    var m := n + ext;
    assert m[0] != '/';
    if dir == [] || dir[|dir| - 1] == '/' {
      assert Join(dir, m) == dir + m && Join(dir, n) == dir + n;
      assert dir + (n + ext) == (dir + n) + ext;
    } else {
      assert Join(dir, m) == dir + "/" + m && Join(dir, n) == dir + "/" + n;
      assert dir + "/" + (n + ext) == (dir + "/" + n) + ext;
    }
  }

  /**
   * The subtitle and audio working files share one base, differ only in the
   * extension, and so never name the same file.
   */
  lemma WorkingFilesShareBase(dir: string, video: string)
    ensures SrtPath(dir, video) == Join(dir, WorkingName(video)) + ".srt"
    ensures WavPath(dir, video) == Join(dir, WorkingName(video)) + ".wav"
    ensures SrtPath(dir, video) != WavPath(dir, video)
  {
    WorkingPathAppends(dir, video, ".srt");
    WorkingPathAppends(dir, video, ".wav");
    var b := Join(dir, WorkingName(video));
    assert (b + ".srt")[|b| + 1] == 's' && (b + ".wav")[|b| + 1] == 'w';
  }

  /**
   * In one directory two videos get the same working file exactly when their
   * base names agree once the last four characters are cut off, whatever the
   * directories the videos themselves sit in.
   */
  lemma WorkingPathIdentity(dir: string, v1: string, v2: string, ext: string)
    requires |ext| > 0 && ext[0] == '.'
    ensures WorkingPath(dir, v1, ext) == WorkingPath(dir, v2, ext) <==> WorkingName(v1) == WorkingName(v2)
  {
    var n1, n2 := WorkingName(v1) + ext, WorkingName(v2) + ext;
    var a1, a2 := WorkingName(v1), WorkingName(v2);
    assert n1[0] == (if a1 == [] then ext[0] else a1[0]);
    assert n2[0] == (if a2 == [] then ext[0] else a2[0]);
    assert '/' !in a1 && '/' !in a2;
    if WorkingPath(dir, v1, ext) == WorkingPath(dir, v2, ext) {
      var sep := if dir == [] || dir[|dir| - 1] == '/' then dir else dir + "/";
      assert Join(dir, n1) == sep + n1 && Join(dir, n2) == sep + n2;
      assert n1 == (sep + n1)[|sep|..];
      assert n2 == (sep + n2)[|sep|..];
      assert a1 == n1[..|n1| - |ext|] && a2 == n2[..|n2| - |ext|];
    }
  }

  /** A video in a sub-directory: its working files go in `dir`. */
  lemma WorkingPathOfNestedVideo()
    ensures SrtPath("out", "videos/talk.mp4") == "out/talk.srt"
  {
    assert WorkingName("videos/talk.mp4") == "talk" by {
      BasenameOfName("videos/", "talk.mp4");
      assert "videos/" + "talk.mp4" == "videos/talk.mp4";
    }
    assert Join("out", "talk" + ".srt") == "out/talk.srt" by {
      assert "talk" + ".srt" == "talk.srt";
      assert "out" + "/" + "talk.srt" == "out/talk.srt";
    }
  }

  /** A directory that already ends in a slash gets no second one. */
  lemma WorkingPathInSlashedDir()
    ensures WavPath("out/", "talk.mkv") == "out/talk.wav"
  {
    assert WorkingName("talk.mkv") == "talk" by {
      BasenameOfName("", "talk.mkv");
      assert "" + "talk.mkv" == "talk.mkv";
    }
    assert Join("out/", "talk" + ".wav") == "out/talk.wav" by {
      assert "talk" + ".wav" == "talk.wav";
      assert "out/" + "talk.wav" == "out/talk.wav";
    }
  }

  /** The cut is four characters, whatever the extension: a point survives here. */
  lemma WorkingPathOfLongExtension()
    ensures SrtPath("out", "clip.webm") == "out/clip..srt"
  {
    assert WorkingName("clip.webm") == "clip." by {
      BasenameOfName("", "clip.webm");
      assert "" + "clip.webm" == "clip.webm";
    }
    assert Join("out", "clip." + ".srt") == "out/clip..srt" by {
      assert "clip." + ".srt" == "clip..srt";
      assert "out" + "/" + "clip..srt" == "out/clip..srt";
    }
  }

  /** Drops the trailing slashes pathlib ignores. */
  function StripTrailingSlashes(p: string): (r: string)
    ensures |r| <= |p| && r == p[..|r|]
    ensures r == [] || r[|r| - 1] != '/'
  {
    if p != [] && p[|p| - 1] == '/' then StripTrailingSlashes(p[..|p| - 1]) else p
  }

  /** `Path(p).name`: the last component. */
  function PathName(p: string): string
  {
    Basename(StripTrailingSlashes(p))
  }

  /** Python's `s.rfind(c)`: the last position holding `c`, or -1. */
  function LastIndexOf(s: string, c: char): (r: int)
    ensures -1 <= r < |s|
    ensures r >= 0 ==> s[r] == c
    ensures forall j :: r < j < |s| ==> s[j] != c
  {
    if s == [] then -1
    else if s[|s| - 1] == c then |s| - 1
    else LastIndexOf(s[..|s| - 1], c)
  }

  /** `PurePath.suffix`: from the last point on, unless it leads or ends the name. */
  function Suffix(name: string): string
  {
    var i := LastIndexOf(name, '.');
    if 0 < i < |name| - 1 then name[i..] else ""
  }

  /** `PurePath.stem`: the name without its suffix. */
  function Stem(name: string): string
  {
    var i := LastIndexOf(name, '.');
    if 0 < i < |name| - 1 then name[..i] else name
  }

  /** main.py:432-433: `f"{input_path.stem}_subtitled{input_path.suffix}"`. */
  function OutputFileName(video: string): (r: string)
    ensures r != PathName(video)
  {
    var name := PathName(video);
    var r := Stem(name) + "_subtitled" + Suffix(name);
    StemSuffixSplit(name);
    assert |r| == |name| + 10;
    r
  }

  /**
   * Stem and suffix split the name; a non-empty suffix is a point followed
   * by at least one character and no further point, after a non-empty stem.
   */
  lemma StemSuffixSplit(name: string)
    ensures Stem(name) + Suffix(name) == name
    ensures Suffix(name) == "" || (|Suffix(name)| >= 2 && Suffix(name)[0] == '.'
                                   && '.' !in Suffix(name)[1..] && Stem(name) != "")
  {
    var i := LastIndexOf(name, '.');
    if 0 < i < |name| - 1 {
      assert name[..i] + name[i..] == name;
      assert forall j :: 0 <= j < |name[i..][1..]| ==> name[i..][1..][j] == name[i + 1 + j];
    }
  }

  /** The last point of `a + b` is in `b` when `b` holds one. */
  lemma LastIndexOfInTail(a: string, b: string, c: char, k: nat)
    requires k < |b| && b[k] == c && c !in b[k + 1..]
    ensures LastIndexOf(a + b, c) == |a| + k
  {
    var s := a + b;
    assert s[|a| + k] == c;
    assert forall j :: |a| + k < j < |s| ==> s[j] == b[k + 1..][j - |a| - k - 1];
  }

  /**
   * When the video name has a suffix, the output name keeps it (so the output
   * container format is the input's), its stem is the video's stem with
   * `_subtitled` added, and the video's name can be read back from it.
   * Without a suffix the read-back can fail: `a.` becomes `a._subtitled`,
   * whose suffix is `._subtitled`.
   */
  lemma OutputFileNameKeepsSuffix(video: string)
    requires Suffix(PathName(video)) != ""
    ensures Suffix(OutputFileName(video)) == Suffix(PathName(video))
    ensures Stem(OutputFileName(video)) == Stem(PathName(video)) + "_subtitled"
    ensures var st := Stem(OutputFileName(video));
      |st| >= 10 && st[..|st| - 10] + Suffix(OutputFileName(video)) == PathName(video)
  {
    var name := PathName(video);
    StemSuffixSplit(name);
    var a, b := Stem(name) + "_subtitled", Suffix(name);
    assert OutputFileName(video) == a + b;
    LastIndexOfInTail(a, b, '.', 0);
    assert (a + b)[..|a|] == a && (a + b)[|a|..] == b;
    assert a[..|a| - 10] == Stem(name);
  }

  /** A name without a suffix (`talk`, `.hidden`, `a.`) just gets `_subtitled` appended. */
  lemma OutputFileNameWithoutSuffix(video: string)
    requires Suffix(PathName(video)) == ""
    ensures OutputFileName(video) == PathName(video) + "_subtitled"
  {
    StemSuffixSplit(PathName(video));
    assert PathName(video) + "_subtitled" + "" == PathName(video) + "_subtitled";
  }
}
