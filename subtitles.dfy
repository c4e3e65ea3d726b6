/**
 * The SubRip builder inside `ProcessVideo.retrieve_text`: each accepted
 * recogniser result whose `"result"` word list is non-empty becomes one cue
 * `"{index}\n{start} --> {end}\n{text}\n"`, numbered from 1; `_save_srt`
 * writes every cue followed by a line feed. `ParseSrt` reads such a file
 * back and is the inverse the round-trip lemmas are stated against.
 */
module Subtitles {
  import opened Optional
  import opened Strings
  import Timestamp

  /** `self.confidence` (main.py:26): words must score strictly above it. */
  const Confidence: real := 0.6

  /** One recognised word: its text, start and end in milliseconds, and confidence. */
  datatype Word = Word(word: string, start: nat, end: nat, conf: real)

  /**
   * One `recognizer.Result()` read after `AcceptWaveform` accepted a chunk
   * (main.py:108-109): its `"result"` word list when the key is present.
   */
  datatype AcceptedResult = AcceptedResult(result: Option<seq<Word>>)

  /** One SubRip cue: its number, start and end in milliseconds, and its text line. */
  datatype Cue = Cue(index: nat, start: nat, end: nat, text: string)

  predicate Kept(w: Word) {
    w.conf > Confidence
  }

  /** `[word["word"] for word in words if word["conf"] > self.confidence]` */
  function KeptWords(words: seq<Word>): seq<string>
  {
    if words == [] then []
    else (if Kept(words[0]) then [words[0].word] else []) + KeptWords(words[1..])
  }

  /** The filter works word by word: it keeps order and splits over concatenation. */
  lemma {:induction false} KeptWordsAppend(a: seq<Word>, b: seq<Word>)
    ensures KeptWords(a + b) == KeptWords(a) + KeptWords(b)
  {
    if a == [] {
      assert a + b == b;
    } else {
      assert (a + b)[0] == a[0] && (a + b)[1..] == a[1..] + b;
      KeptWordsAppend(a[1..], b);
    }
  }

  /** No word survives exactly when every word scores at or below the threshold. */
  lemma {:induction false} KeptWordsEmpty(words: seq<Word>)
    ensures KeptWords(words) == [] <==> forall k :: 0 <= k < |words| ==> words[k].conf <= Confidence
  {
    if words != [] {
      KeptWordsEmpty(words[1..]);
      assert forall k :: 1 <= k < |words| ==> words[k] == words[1..][k - 1];
    }
  }

  /** Every kept text is one of the words' texts. */
  lemma {:induction false} KeptWordsSingleLine(words: seq<Word>)
    requires forall k :: 0 <= k < |words| ==> '\n' !in words[k].word
    ensures forall k :: 0 <= k < |KeptWords(words)| ==> '\n' !in KeptWords(words)[k]
  {
    if words != [] {
      KeptWordsSingleLine(words[1..]);
    }
  }

  /** `" ".join(...)` of the kept words (main.py:115). */
  function CueText(words: seq<Word>): string
  {
    JoinSpaces(KeptWords(words))
  }

  /**
   * The cue text splits back, on single spaces, into exactly the kept words in
   * their order (when some word is kept and no word holds a space).
   */
  lemma CueTextSplits(words: seq<Word>)
    requires KeptWords(words) != []
    requires forall k :: 0 <= k < |KeptWords(words)| ==> ' ' !in KeptWords(words)[k]
    ensures SplitSpaces(CueText(words)) == KeptWords(words)
  {
    SplitJoinSpaces(KeptWords(words));
  }

  /** Confidences 0.9, 0.5 and 0.7 keep the first and third word; exactly 0.6 is dropped. */
  lemma CueTextExamples()
    ensures CueText([Word("un", 0, 1, 0.9), Word("deux", 1, 2, 0.5), Word("trois", 2, 3, 0.7)]) == "un trois"
    ensures CueText([Word("un", 0, 1, 0.6)]) == ""
  {
    var ws := [Word("un", 0, 1, 0.9), Word("deux", 1, 2, 0.5), Word("trois", 2, 3, 0.7)];
    assert ws[1..][1..][1..] == [];
    assert KeptWords(ws) == ["un", "trois"];
  }

  /** Lines 113-116 for a non-empty word list: the cue numbered `index`. */
  function CueOf(index: nat, words: seq<Word>): Cue
    requires words != []
  {
    Cue(index, words[0].start, words[|words| - 1].end, CueText(words))
  }

  /** `f"{subtitles_index}\n{start} --> {end}\n{text}\n"` (main.py:116) */
  function CueString(index: nat, start: string, end: string, text: string): string
  {
    Decimal(index) + "\n" + start + " --> " + end + "\n" + text + "\n"
  }

  /** The text of one cue, its timestamps formatted. */
  function Render(c: Cue): string
  {
    CueString(c.index, Timestamp.Format(c.start), Timestamp.Format(c.end), c.text)
  }

  function RenderAll(cues: seq<Cue>): (r: seq<string>)
    ensures |r| == |cues|
  {
    seq(|cues|, k requires 0 <= k < |cues| => Render(cues[k]))
  }

  lemma RenderAllAppend(cues: seq<Cue>, c: Cue)
    ensures RenderAll(cues + [c]) == RenderAll(cues) + [Render(c)]
  {
    var all := cues + [c];
    forall k | 0 <= k < |all|
      ensures RenderAll(all)[k] == (RenderAll(cues) + [Render(c)])[k]
    {
      if k < |cues| {
        assert all[k] == cues[k];
      }
    }
  }

  /** Lines 110-112: a result yields a cue when it has a `"result"` key with some word. */
  predicate Emits(r: AcceptedResult) {
    r.result.Some? && r.result.value != []
  }

  /** The cues the loop emits for `results` when the next index is `next`. */
  function CuesFrom(results: seq<AcceptedResult>, next: nat): seq<Cue>
  {
    if results == [] then []
    else if Emits(results[0]) then [CueOf(next, results[0].result.value)] + CuesFrom(results[1..], next + 1)
    else CuesFrom(results[1..], next)
  }

  /** `subtitles` at the end of the loop: the index starts at 1 (main.py:101). */
  function Cues(results: seq<AcceptedResult>): seq<Cue>
  {
    CuesFrom(results, 1)
  }

  /** The word lists that yield cues, in recognition order. */
  function Segments(results: seq<AcceptedResult>): (r: seq<seq<Word>>)
    ensures forall k :: 0 <= k < |r| ==> r[k] != []
  {
    if results == [] then []
    else if Emits(results[0]) then [results[0].result.value] + Segments(results[1..])
    else Segments(results[1..])
  }

  /**
   * One more result: a result with no `"result"` key or an empty word list
   * adds nothing and consumes no index; any other adds one cue whose index
   * follows the last.
   */
  lemma {:induction false} CuesFromAppend(results: seq<AcceptedResult>, r: AcceptedResult, next: nat)
    ensures CuesFrom(results + [r], next) ==
      CuesFrom(results, next) + (if Emits(r) then [CueOf(next + |CuesFrom(results, next)|, r.result.value)] else [])
  {
    var all := results + [r];
    if results == [] {
      assert all == [r] && all[1..] == [];
    } else {
      var tail := results[1..];
      assert all[0] == results[0] && all[1..] == tail + [r];
      if Emits(results[0]) {
        var c := CueOf(next, results[0].result.value);
        CuesFromAppend(tail, r, next + 1);
        assert CuesFrom(all, next) == [c] + CuesFrom(tail + [r], next + 1);
        assert CuesFrom(results, next) == [c] + CuesFrom(tail, next + 1);
      } else {
        CuesFromAppend(tail, r, next);
        assert CuesFrom(all, next) == CuesFrom(tail + [r], next);
        assert CuesFrom(results, next) == CuesFrom(tail, next);
      }
    }
  }

  /** The cues numbered from `next` for word lists that each yield one. */
  function CuesOf(segments: seq<seq<Word>>, next: nat): (r: seq<Cue>)
    requires forall k :: 0 <= k < |segments| ==> segments[k] != []
    ensures |r| == |segments|
  {
    if segments == [] then [] else [CueOf(next, segments[0])] + CuesOf(segments[1..], next + 1)
  }

  /** The loop numbers the word lists that yield a cue, in order, from `next`. */
  lemma {:induction false} CuesFromSegments(results: seq<AcceptedResult>, next: nat)
    ensures CuesFrom(results, next) == CuesOf(Segments(results), next)
  {
    if results != [] {
      if Emits(results[0]) {
        var ws := results[0].result.value;
        CuesFromSegments(results[1..], next + 1);
        assert ([ws] + Segments(results[1..]))[1..] == Segments(results[1..]);
      } else {
        CuesFromSegments(results[1..], next);
      }
    }
  }

  /** The k-th cue is built from the k-th word list and numbered k places after `next`. */
  lemma {:induction false} CuesOfAt(segments: seq<seq<Word>>, next: nat, k: nat)
    requires forall k :: 0 <= k < |segments| ==> segments[k] != []
    requires k < |segments|
    ensures CuesOf(segments, next)[k] == CueOf(next + k, segments[k])
  {
    if k > 0 {
      CuesOfAt(segments[1..], next + 1, k - 1);
    }
  }

  /**
   * The k-th cue carries index k + 1, so the indices run 1..n without a gap,
   * where n counts the results with a non-empty word list (even those whose
   * words are all filtered out). Its start is the first word's start, its end
   * the last word's end, and its text the kept words of the k-th such list.
   */
  lemma ContiguousCues(results: seq<AcceptedResult>)
    ensures |Cues(results)| == |Segments(results)|
    ensures forall k :: 0 <= k < |Cues(results)| ==>
      var c, ws := Cues(results)[k], Segments(results)[k];
      c.index == k + 1 && c.start == ws[0].start && c.end == ws[|ws| - 1].end && c.text == CueText(ws)
  {
    CuesFromSegments(results, 1);
    forall k | 0 <= k < |Cues(results)|
      ensures Cues(results)[k] == CueOf(k + 1, Segments(results)[k])
    {
      CuesOfAt(Segments(results), 1, k);
    }
  }

  /** A list whose every word falls at or below the threshold still takes an index. */
  lemma FilteredSegmentKeepsIndex(results: seq<AcceptedResult>, words: seq<Word>)
    requires words != [] && forall k :: 0 <= k < |words| ==> words[k].conf <= Confidence
    ensures Cues(results + [AcceptedResult(Some(words))]) ==
      Cues(results) + [Cue(|Cues(results)| + 1, words[0].start, words[|words| - 1].end, "")]
  {
    CuesFromAppend(results, AcceptedResult(Some(words)), 1);
    assert CueText(words) == "" by {
      KeptWordsEmpty(words);
    }
  }

  /** Without any non-empty word list there are no cues (and the file is empty). */
  lemma {:induction false} NoWordsNoCues(results: seq<AcceptedResult>)
    requires forall i :: 0 <= i < |results| ==> !Emits(results[i])
    ensures Cues(results) == [] && SrtContent(RenderAll(Cues(results))) == ""
  {
    if results != [] {
      NoWordsNoCues(results[1..]);
    }
  }

  /**
   * The cue loop of `retrieve_text` (main.py:100-117) over the accepted
   * results the recogniser produced, in order.
   */
  method BuildSubtitles(results: seq<AcceptedResult>) returns (subtitles: seq<string>)
    ensures subtitles == RenderAll(Cues(results))
  {
    subtitles := [];
    var index := 1;
    var i := 0;
    while i < |results|
      invariant 0 <= i <= |results|
      invariant index == |Cues(results[..i])| + 1
      invariant subtitles == RenderAll(Cues(results[..i]))
    {
      var result := results[i];
      CuesStep(results, i);
      if result.result.Some? {
        var words := result.result.value;
        if words != [] {
          var start := Timestamp.Format(words[0].start);
          var end := Timestamp.Format(words[|words| - 1].end);
          var text := JoinSpaces(KeptWords(words));
          subtitles := subtitles + [CueString(index, start, end, text)];
          index := index + 1;
        }
      }
      i := i + 1;
    }
    assert results[..i] == results;
  }

  /** What one turn of the loop adds to the rendered cues. */
  lemma CuesStep(results: seq<AcceptedResult>, i: nat)
    requires i < |results|
    ensures var before, after := Cues(results[..i]), Cues(results[..i + 1]);
      if Emits(results[i]) then
        |after| == |before| + 1 &&
        RenderAll(after) == RenderAll(before) + [Render(CueOf(|before| + 1, results[i].result.value))]
      else
        after == before
  {
    assert results[..i + 1] == results[..i] + [results[i]];
    CuesFromAppend(results[..i], results[i], 1);
    if Emits(results[i]) {
      RenderAllAppend(Cues(results[..i]), CueOf(|Cues(results[..i])| + 1, results[i].result.value));
    }
  }

  /** What `_save_srt` writes: each cue followed by a line feed, in order. */
  function SrtContent(subtitles: seq<string>): string
  {
    if subtitles == [] then "" else subtitles[0] + "\n" + SrtContent(subtitles[1..])
  }

  /** Writing one more cue appends it and its line feed to the file. */
  lemma {:induction false} SrtContentAppend(subtitles: seq<string>, s: string)
    ensures SrtContent(subtitles + [s]) == SrtContent(subtitles) + s + "\n"
  {
    if subtitles == [] {
      assert [s][1..] == [];
    } else {
      assert (subtitles + [s])[1..] == subtitles[1..] + [s];
      SrtContentAppend(subtitles[1..], s);
    }
  }

  /** The `start --> end` line of a cue, read back. */
  function ParseTiming(line: string): Option<(nat, nat)>
  {
    if ' ' !in line then None
    else
      var i := IndexOf(line, ' ');
      if |line| < i + 5 || line[i..i + 5] != " --> " then None
      else
        match (Timestamp.Parse(line[..i]), Timestamp.Parse(line[i + 5..]))
        case (Some(start), Some(end)) => Some((start, end))
        case _ => None
  }

  /** Reads one four-line cue block off the front of `s` and returns the rest. */
  function ParseBlock(s: string): (r: Option<(Cue, string)>)
    ensures r.Some? ==> |r.value.1| < |s|
  {
    if '\n' !in s then None else
    var (indexLine, s1) := SplitLine(s);
    if '\n' !in s1 then None else
    var (timingLine, s2) := SplitLine(s1);
    if '\n' !in s2 then None else
    var (text, s3) := SplitLine(s2);
    if '\n' !in s3 then None else
    var (blank, rest) := SplitLine(s3);
    if indexLine == [] || !AllDigits(indexLine) || blank != [] then None
    else
      match ParseTiming(timingLine)
      case None => None
      case Some((start, end)) => Some((Cue(Value(indexLine), start, end, text), rest))
  }

  /** Reads a whole SubRip file as written by `_save_srt`. */
  function ParseSrt(s: string): Option<seq<Cue>>
    decreases |s|
  {
    if s == [] then Some([])
    else
      match ParseBlock(s)
      case None => None
      case Some((c, rest)) =>
        match ParseSrt(rest)
        case None => None
        case Some(cs) => Some([c] + cs)
  }

  /** A timing line splits at its first space, which the start stamp does not hold. */
  lemma ParseTimingSplit(a: string, b: string)
    requires ' ' !in a
    requires Timestamp.Parse(a).Some? && Timestamp.Parse(b).Some?
    ensures ParseTiming(a + " --> " + b) == Some((Timestamp.Parse(a).value, Timestamp.Parse(b).value))
  {
    var line := a + " --> " + b;
    assert line == a + [' '] + ("--> " + b);
    IndexOfAfter(a, ' ', "--> " + b);
    assert line[..|a|] == a;
    assert line[|a|..|a| + 5] == " --> ";
    assert line[|a| + 5..] == b;
  }

  /** A cue string and its blank line, seen as four lines. */
  lemma CueStringLines(index: nat, start: string, end: string, text: string, rest: string)
    ensures CueString(index, start, end, text) + "\n" + rest ==
      Decimal(index) + "\n" + ((start + " --> " + end) + "\n" + (text + "\n" + ("" + "\n" + rest)))
  {
  }

  /** Four lines of the right shape read back as one cue. */
  lemma ParseBlockOfLines(digits: string, timing: string, text: string, rest: string)
    requires digits != [] && AllDigits(digits)
    requires '\n' !in timing && '\n' !in text && ParseTiming(timing).Some?
    ensures ParseBlock(digits + "\n" + (timing + "\n" + (text + "\n" + ("" + "\n" + rest)))) ==
      Some((Cue(Value(digits), ParseTiming(timing).value.0, ParseTiming(timing).value.1, text), rest))
  {
    assert '\n' !in digits by {
      assert forall k :: 0 <= k < |digits| ==> IsDigit(digits[k]);
    }
    var s3 := "" + "\n" + rest;
    var s2 := text + "\n" + s3;
    var s1 := timing + "\n" + s2;
    SplitLineOf(digits, s1);
    SplitLineOf(timing, s2);
    SplitLineOf(text, s3);
    SplitLineOf("", rest);
  }

  /** A cue string followed by a blank line reads back field by field. */
  lemma ParseBlockSplit(index: nat, start: string, end: string, text: string, rest: string)
    requires ' ' !in start && '\n' !in start && '\n' !in end && '\n' !in text
    requires Timestamp.Parse(start).Some? && Timestamp.Parse(end).Some?
    ensures ParseBlock(CueString(index, start, end, text) + "\n" + rest) ==
      Some((Cue(index, Timestamp.Parse(start).value, Timestamp.Parse(end).value, text), rest))
  {
    ParseTimingSplit(start, end);
    CueStringLines(index, start, end, text, rest);
    ParseBlockOfLines(Decimal(index), start + " --> " + end, text, rest);
  }

  /** A rendered cue followed by its blank line reads back as that cue. */
  lemma ParseBlockOf(c: Cue, rest: string)
    requires '\n' !in c.text
    ensures ParseBlock(Render(c) + "\n" + rest) == Some((c, rest))
  {
    Timestamp.FormatLayout(c.start);
    Timestamp.FormatLayout(c.end);
    Timestamp.ParseFormat(c.start);
    Timestamp.ParseFormat(c.end);
    ParseBlockSplit(c.index, Timestamp.Format(c.start), Timestamp.Format(c.end), c.text, rest);
  }

  /**
   * What `_save_srt` writes for a list of cues reads back as exactly those
   * cues (index, start, end and text), provided no text holds a line feed.
   */
  lemma ParseSrtCons(block: string, c: Cue, rest: string)
    requires ParseBlock(block + "\n" + rest) == Some((c, rest))
    ensures ParseSrt(block + "\n" + rest) ==
      match ParseSrt(rest) case None => None case Some(cs) => Some([c] + cs)
  {
    assert block + "\n" + rest != [];
  }

  lemma SrtContentCons(lines: seq<string>)
    requires lines != []
    ensures SrtContent(lines) == lines[0] + "\n" + SrtContent(lines[1..])
  {
  }

  /** The first block of a file is read as the first cue, then the rest of the file. */
  lemma ParseSrtFirstBlock(blocks: seq<string>, c: Cue, cs: seq<Cue>)
    requires blocks != []
    requires ParseBlock(blocks[0] + "\n" + SrtContent(blocks[1..])) == Some((c, SrtContent(blocks[1..])))
    requires ParseSrt(SrtContent(blocks[1..])) == Some(cs)
    ensures ParseSrt(SrtContent(blocks)) == Some([c] + cs)
  {
    SrtContentCons(blocks);
    ParseSrtCons(blocks[0], c, SrtContent(blocks[1..]));
  }

  /** Blocks that each read back as their cue read back, in order, as a file. */
  lemma {:induction false} ParseSrtOfBlocks(blocks: seq<string>, cues: seq<Cue>)
    requires |blocks| == |cues|
    requires forall k, rest :: 0 <= k < |cues| ==> ParseBlock(blocks[k] + "\n" + rest) == Some((cues[k], rest))
    ensures ParseSrt(SrtContent(blocks)) == Some(cues)
  {
    if cues != [] {
      assert [cues[0]] + cues[1..] == cues;
      forall k, rest | 0 <= k < |cues| - 1
        ensures ParseBlock(blocks[1..][k] + "\n" + rest) == Some((cues[1..][k], rest))
      {
        assert blocks[1..][k] == blocks[k + 1] && cues[1..][k] == cues[k + 1];
      }
      ParseSrtOfBlocks(blocks[1..], cues[1..]);
      assert ParseBlock(blocks[0] + "\n" + SrtContent(blocks[1..])) == Some((cues[0], SrtContent(blocks[1..])));
      ParseSrtFirstBlock(blocks, cues[0], cues[1..]);
    }
  }

  lemma ParseSrtOf(cues: seq<Cue>)
    requires forall k :: 0 <= k < |cues| ==> '\n' !in cues[k].text
    ensures ParseSrt(SrtContent(RenderAll(cues))) == Some(cues)
  {
    forall k, rest | 0 <= k < |cues|
      ensures ParseBlock(RenderAll(cues)[k] + "\n" + rest) == Some((cues[k], rest))
    {
      ParseBlockOf(cues[k], rest);
    }
    ParseSrtOfBlocks(RenderAll(cues), cues);
  }

  /** No recognised word holds a line feed. */
  predicate SingleLineWords(results: seq<AcceptedResult>) {
    forall i, k :: 0 <= i < |results| && results[i].result.Some? && 0 <= k < |results[i].result.value|
      ==> '\n' !in results[i].result.value[k].word
  }

  lemma {:induction false} CueTextsSingleLine(results: seq<AcceptedResult>, next: nat)
    requires SingleLineWords(results)
    ensures forall k :: 0 <= k < |CuesFrom(results, next)| ==> '\n' !in CuesFrom(results, next)[k].text
  {
    if results != [] {
      assert SingleLineWords(results[1..]) by {
        assert forall i :: 0 <= i < |results| - 1 ==> results[1..][i] == results[i + 1];
      }
      if Emits(results[0]) {
        var words := results[0].result.value;
        assert forall k :: 0 <= k < |words| ==> '\n' !in words[k].word by {
          assert forall k :: 0 <= k < |words| ==> words[k] == results[0].result.value[k];
        }
        KeptWordsSingleLine(words);
        JoinSpacesNoLineFeed(KeptWords(words));
        CueTextsSingleLine(results[1..], next + 1);
      } else {
        CueTextsSingleLine(results[1..], next);
      }
    }
  }

  /**
   * The saved subtitle file reads back as the cues the loop built: indices,
   * timestamps and texts survive the round trip, blocks stay separated.
   */
  lemma SavedSubtitlesReadBack(results: seq<AcceptedResult>)
    requires SingleLineWords(results)
    ensures ParseSrt(SrtContent(RenderAll(Cues(results)))) == Some(Cues(results))
  {
    CueTextsSingleLine(results, 1);
    ParseSrtOf(Cues(results));
  }
}
