/** `VideoTranscriber` (generate_subtitles.py lines 9-134): the object that
    carries the video path, the audio path, the per-frame captions
    (`text_array`) and the frame rate from one pipeline stage to the next.
    The OpenCV capture, the speech recogniser and moviepy are not modelled:
    what they report becomes a parameter (the frame rate and frame count of
    the capture, the recognised text, the decoded frames, the measured text
    sizes, the audio duration), and the frames folder on disk is a map from
    file name to the image saved under it. */
module Transcriber {
  import opened Outcomes
  import opened Words
  import opened DivArith
  import opened Timeline
  import opened Wrapping
  import opened Placement
  import opened FrameNames
  import opened Assembly

  /** A decoded image; its pixels are not looked at. */
  type Image(==)

  /** A frame returned by `cap.read()`, with its width `frame.shape[1]`. */
  datatype Frame = Frame(image: Image, width: int)

  /** What `cv2.getTextSize` reports for a caption. */
  datatype TextSize = TextSize(width: int, height: int)

  /** A frame after `cv2.putText`: the image, the caption drawn on it and the
      position it was drawn at. */
  datatype Annotated = Annotated(image: Image, caption: string, x: int, y: int)

  /** What `write_videofile` receives: the clip's frames in playing order,
      its frame rate and the duration of the audio attached to it. */
  datatype OutputVideo = OutputVideo(frames: seq<Annotated>, fps: real, audioDuration: real)

  /** Lines 91-101 for one frame: the caption of its `text_array` entry,
      centred horizontally and placed above the bottom edge. */
  function Annotate(frame: Frame, segment: Segment, frameHeight: int,
                    measure: string -> TextSize): Annotated
  {
    var size := measure(segment.text);
    Annotated(frame.image, segment.text, TextX(frame.width, size.width),
              TextY(frameHeight, size.height))
  }

  /** `range(total_frames)` of line 57 runs no iteration for a count below 0. */
  function FrameCount(totalFrames: int): nat {
    if totalFrames < 0 then 0 else totalFrames
  }

  /** Every `.jpg` file already in the folder is the name of one of frames
      0..count-1, so saving those frames overwrites it: a clean folder, or
      one left by an earlier run on the same video. */
  predicate OnlyFrameJpgs(folder: map<string, Annotated>, count: nat) {
    forall name :: name in folder && IsJpg(name) ==> name in FrameFileNames(count)
  }

  /** Every `.jpg` file of the folder has the numeric prefix line 121 sorts by. */
  predicate JpgsNumbered(folder: map<string, Annotated>) {
    forall name :: name in folder && IsJpg(name) ==> HasFrameNumber(name)
  }

  /** The images `extract_frames` saves for the frames read: frame k with
      caption k. */
  function AnnotateAll(frames: seq<Frame>, segs: seq<Segment>, frameHeight: int,
                       measure: string -> TextSize): seq<Annotated>
    requires |frames| <= |segs|
  {
    seq(|frames|, k requires 0 <= k < |frames| => Annotate(frames[k], segs[k], frameHeight, measure))
  }

  /** The words of the captions drawn on a run of frames, read back in order. */
  function ShownWords(out: seq<Annotated>): seq<string> {
    if |out| == 0 then [] else ShownWords(out[..|out| - 1]) + Split(out[|out| - 1].caption)
  }

  /** The frames annotated with the first |out| entries show those entries'
      words. */
  lemma {:induction false} ShownWordsAreCaptionWords(out: seq<Annotated>, frames: seq<Frame>,
                                                     segs: seq<Segment>, frameHeight: int,
                                                     measure: string -> TextSize)
    requires |out| == |frames| <= |segs|
    requires forall k :: 0 <= k < |out| ==> out[k] == Annotate(frames[k], segs[k], frameHeight, measure)
    ensures ShownWords(out) == CaptionWords(segs[..|out|])
  {
    var n := |out|;
    if n > 0 {
      assert segs[..n][..n - 1] == segs[..n - 1];
      ShownWordsAreCaptionWords(out[..n - 1], frames[..n - 1], segs, frameHeight, measure);
    }
  }

  /** End to end: when every frame of the video is annotated with the
      caption the alignment gives it, reading the captions of the output
      frames in order gives back every transcript word exactly once, in
      order. */
  lemma {:induction false} VideoShowsTranscript(out: seq<Annotated>, frames: seq<Frame>,
                                                words: seq<string>, frameHeight: int,
                                                measure: string -> TextSize)
    requires |words| > 0 && AllWords(words) && |frames| > 0 && |out| == |frames|
    requires forall k :: 0 <= k < |out| ==>
      out[k] == Annotate(frames[k], Alignment(words, |frames|)[k], frameHeight, measure)
    ensures ShownWords(out) == words
  {
    var segs := Alignment(words, |frames|);
    ShownWordsAreCaptionWords(out, frames, segs, frameHeight, measure);
    assert segs[..|out|] == segs;
    CaptionsRecoverWords(words, |frames|);
  }

  /** `folder'` is `folder` after saving `written[k]` as "k.jpg" for each k:
      those names hold the saved images, any other file is untouched. */
  ghost predicate SavedFrames(folder: map<string, Annotated>, folder': map<string, Annotated>,
                              written: seq<Annotated>)
  {
    && (forall k :: 0 <= k < |written| ==>
          FrameFileName(k) in folder' && folder'[FrameFileName(k)] == written[k])
    && (forall name :: name in folder' <==> name in folder || name in FrameFileNames(|written|))
    && (forall name :: name in folder && name !in FrameFileNames(|written|) ==>
          folder'[name] == folder[name])
  }

  /** Saving one more frame under the next name keeps `SavedFrames`. */
  lemma SaveNext(folder: map<string, Annotated>, folder': map<string, Annotated>,
                 written: seq<Annotated>, annotated: Annotated)
    requires SavedFrames(folder, folder', written)
    ensures SavedFrames(folder, folder'[FrameFileName(|written|) := annotated], written + [annotated])
  {
    var n := |written|;
    var name := FrameFileName(n);
    var f := folder'[name := annotated];
    var w := written + [annotated];
    NextFileName(n);
    forall k | 0 <= k < |w| ensures FrameFileName(k) in f && f[FrameFileName(k)] == w[k] {
      if k < n {
        FileNameInjective(k, n);
        assert w[k] == written[k];
      }
    }
  }

  /** The names of frames 0..n are those of frames 0..n-1 and one new name. */
  lemma NextFileName(n: nat)
    ensures forall name :: name in FrameFileNames(n + 1) <==> name in FrameFileNames(n) || name == FrameFileName(n)
    ensures FrameFileName(n) !in FrameFileNames(n)
  {
    assert FrameFileNames(n + 1) == FrameFileNames(n) + [FrameFileName(n)];
    forall k | 0 <= k < n ensures FrameFileNames(n)[k] != FrameFileName(n) {
      FileNameInjective(k, n);
    }
  }

  /** Appending the annotation of the next frame keeps `written` the
      annotations of the frames read so far. */
  lemma AnnotatedNext(written: seq<Annotated>, frames: seq<Frame>, captions: seq<Segment>,
                      frameHeight: int, measure: string -> TextSize, annotated: Annotated)
    requires |written| < |frames| && |written| < |captions|
    requires forall k :: 0 <= k < |written| ==>
      written[k] == Annotate(frames[k], captions[k], frameHeight, measure)
    requires annotated == Annotate(frames[|written|], captions[|written|], frameHeight, measure)
    ensures forall k :: 0 <= k < |written| + 1 ==>
      (written + [annotated])[k] == Annotate(frames[k], captions[k], frameHeight, measure)
  {
  }

  /** The clip's frames (line 128): the saved images read back in the order
      of `paths`. */
  function ClipFrames(folder: map<string, Annotated>, paths: seq<string>): seq<Annotated>
    requires forall p :: p in paths ==> p in folder
  {
    seq(|paths|, k requires 0 <= k < |paths| => folder[paths[k]])
  }

  /** Reading back the names of the saved frames, in frame order, gives the
      saved images in the order they were written. */
  lemma ClipOfSaved(folder: map<string, Annotated>, folder': map<string, Annotated>,
                    written: seq<Annotated>)
    requires SavedFrames(folder, folder', written)
    ensures forall p :: p in FrameFileNames(|written|) ==> p in folder'
    ensures ClipFrames(folder', FrameFileNames(|written|)) == written
  {
  }

  /** `frames` is a clip line 128 can build from the folder: its `.jpg`
      names, listed once each in some order, sorted by numeric prefix, and
      the images read back in that order. */
  ghost predicate IsClipOf(frames: seq<Annotated>, folder: map<string, Annotated>,
                           images: seq<string>)
  {
    && (forall name :: name in images <==> name in folder && IsJpg(name))
    && NoDuplicates(images)
    && AllNumbered(images)
    && (forall p :: p in SortByNumber(images) ==> p in folder)
    && frames == ClipFrames(folder, SortByNumber(images))
  }

  lemma SameMembers<T>(a: seq<T>, b: seq<T>)
    requires multiset(a) == multiset(b)
    ensures forall x :: x in a <==> x in b
  {
    forall x ensures x in a <==> x in b {
      assert x in a <==> x in multiset(a);
      assert x in b <==> x in multiset(b);
    }
  }

  class VideoTranscriber {
    var videoPath: string
    var audioPath: string
    var textArray: seq<Segment>
    var fps: real

    /** Lines 10-16; the speech recogniser is not modelled. */
    constructor (videoPath: string)
      ensures this.videoPath == videoPath && audioPath == ""
      ensures textArray == [] && fps == 0.0
    {
      this.videoPath := videoPath;
      audioPath := "";
      textArray := [];
      fps := 0.0;
    }

    /** Lines 18-65. `fpsRead` and `totalFrames` are what the capture
        reports; `recognized` is the recogniser's transcript, or None when
        it returned no usable result. The second result is the transcript
        file as its list of lines, or None when the file is not opened.
        `text_array` only ever grows: earlier entries are kept. */
    method TranscribeVideo(fpsRead: real, totalFrames: int, recognized: Option<string>)
      returns (outcome: Outcome, transcriptFile: Option<seq<string>>)
      modifies this
      ensures fps == fpsRead
      ensures videoPath == old(videoPath) && audioPath == old(audioPath)
      ensures MetadataRejectsFps(fpsRead) ==>
        outcome == Fail(FpsUndetermined) && transcriptFile == None && textArray == old(textArray)
      ensures !MetadataRejectsFps(fpsRead) && recognized.None? ==>
        outcome == Pass && transcriptFile == None && textArray == old(textArray)
      ensures !MetadataRejectsFps(fpsRead) && recognized.Some? ==>
        var words := Split(recognized.value);
        transcriptFile == Some(JoinEach(Chunks(words)))
        && (|words| == 0 ==> outcome == Fail(ZeroDivision) && textArray == old(textArray))
        && (|words| > 0 ==>
              outcome == Pass
              && textArray == old(textArray) + Alignment(words, FrameCount(totalFrames)))
    {
      fps := fpsRead;
      if MetadataRejectsFps(fps) {
        return Fail(FpsUndetermined), None;
      }
      if recognized.None? {
        return Pass, None;
      }
      var text := recognized.value;
      var words := Split(text);
      var lines := WriteTranscript(words);
      transcriptFile := Some(lines);
      var totalWords := |words|;
      if totalWords == 0 {
        // frames_per_word = total_frames / 0
        return Fail(ZeroDivision), transcriptFile;
      }
      var i := 0;
      while i < totalFrames
        invariant 0 <= i <= FrameCount(totalFrames)
        invariant textArray == old(textArray) + Alignment(words, FrameCount(totalFrames))[..i]
        invariant fps == fpsRead && videoPath == old(videoPath) && audioPath == old(audioPath)
      {
        var startWord := i * totalWords / totalFrames;
        var endWord := (i + 1) * totalWords / totalFrames;
        if endWord > totalWords {
          endWord := totalWords;
        }
        SliceBounds(i, totalFrames, totalWords);
        var segmentText := Join(words[startWord..endWord]);
        AlignmentNext(words, totalFrames, i);
        textArray := textArray + [Segment(segmentText, i, i + 1)];
        i := i + 1;
      }
      outcome := Pass;
    }

    /** Lines 78-108. `frames` is the stream `cap.read()` yields until it
        fails, `frameHeight` the capture's reported height, `measure` stands
        for `cv2.getTextSize`, and `folder` is the output folder's content
        before the call. Frame k is annotated with `text_array[k]` and saved
        as "k.jpg"; reading more frames than there are captions stops with
        an IndexError after the frames before it were saved. `written` lists
        the images saved, in order, so its length is the final value of the
        counter `N_frames`. */
    method ExtractFrames(frames: seq<Frame>, frameHeight: int, measure: string -> TextSize,
                         folder: map<string, Annotated>)
      returns (outcome: Outcome, folder': map<string, Annotated>, written: seq<Annotated>)
      ensures |frames| <= |textArray| ==> outcome == Pass && |written| == |frames|
      ensures |frames| > |textArray| ==>
        outcome == Fail(FrameIndexOutOfRange) && |written| == |textArray|
      ensures forall k :: 0 <= k < |written| ==>
        written[k] == Annotate(frames[k], textArray[k], frameHeight, measure)
      ensures SavedFrames(folder, folder', written)
    {
      folder' := folder;
      written := [];
      var nFrames := 0;
      while nFrames < |frames|
        invariant 0 <= nFrames <= |frames| && nFrames <= |textArray|
        invariant |written| == nFrames
        invariant forall k :: 0 <= k < nFrames ==>
          written[k] == Annotate(frames[k], textArray[k], frameHeight, measure)
        invariant SavedFrames(folder, folder', written)
      {
        var frame := frames[nFrames];
        if nFrames >= |textArray| {
          return Fail(FrameIndexOutOfRange), folder', written;
        }
        var segment := textArray[nFrames];
        var size := measure(segment.text);
        var textX := TextX(frame.width, size.width);
        var textY := TextY(frameHeight, size.height);
        var annotated := Annotated(frame.image, segment.text, textX, textY);
        assert annotated == Annotate(frame, segment, frameHeight, measure);
        SaveNext(folder, folder', written, annotated);
        AnnotatedNext(written, frames, textArray, frameHeight, measure, annotated);
        folder' := folder'[FrameFileName(|written|) := annotated];
        written := written + [annotated];
        nFrames := nFrames + 1;
      }
      outcome := Pass;
    }

    /** Line 120: the `.jpg` names of the folder, each once, in whatever
        order the directory listing gives them. */
    static method ListImages(folder: map<string, Annotated>) returns (images: seq<string>)
      ensures forall name :: name in images <==> name in folder && IsJpg(name)
      ensures NoDuplicates(images)
    {
      images := [];
      var unlisted := folder.Keys;
      while unlisted != {}
        invariant unlisted <= folder.Keys
        invariant forall name :: name in images <==> name in folder && IsJpg(name) && name !in unlisted
        invariant NoDuplicates(images)
        decreases |unlisted|
      {
        var name :| name in unlisted;
        if IsJpg(name) {
          images := images + [name];
        }
        unlisted := unlisted - {name};
      }
    }

    /** Lines 110-134: annotate and save the frames, list and sort the saved
        images, check the frame rate, and put the clip together with the
        audio, cut to the clip's length when longer. The checks come in the
        source's order, so the frames are saved before the frame rate is
        looked at, and a `.jpg` name without a numeric prefix stops the sort
        before that. When every `.jpg` already in the folder is overwritten
        by a saved frame, the clip is exactly the annotated frames in frame
        order. */
    method CreateVideo(frames: seq<Frame>, frameHeight: int, measure: string -> TextSize,
                       folder: map<string, Annotated>, audioDuration: real)
      returns (result: Result<OutputVideo>, folder': map<string, Annotated>)
      ensures var saved := Min(|frames|, |textArray|);
        SavedFrames(folder, folder', AnnotateAll(frames[..saved], textArray, frameHeight, measure))
      ensures |frames| > |textArray| ==> result == Err(FrameIndexOutOfRange)
      ensures |frames| <= |textArray| && !JpgsNumbered(folder) ==> result == Err(BadFrameName)
      ensures |frames| <= |textArray| && JpgsNumbered(folder) ==>
        (AssemblyRejectsFps(fps) <==> result == Err(InvalidFps))
        && (!AssemblyRejectsFps(fps) <==> result.Ok?)
      ensures result.Ok? ==>
        !AssemblyRejectsFps(fps) && result.value.fps == fps
        && result.value.audioDuration
           == TrimmedAudio(audioDuration, ClipDuration(|result.value.frames|, fps))
        && exists images :: IsClipOf(result.value.frames, folder', images)
      ensures OnlyFrameJpgs(folder, |frames|) && |frames| <= |textArray| && !AssemblyRejectsFps(fps) ==>
        result.Ok?
        && |result.value.frames| == |frames|
        && (forall k :: 0 <= k < |frames| ==>
              result.value.frames[k] == Annotate(frames[k], textArray[k], frameHeight, measure))
    {
      var outcome, written;
      outcome, folder', written := ExtractFrames(frames, frameHeight, measure, folder);
      var saved := Min(|frames|, |textArray|);
      assert written == AnnotateAll(frames[..saved], textArray, frameHeight, measure);
      if outcome.Fail? {
        return Err(outcome.error), folder';
      }
      var images := ListImages(folder');
      var sorted := SortFrameNames(images);
      ListingSorts(folder, folder', images, |written|);
      if OnlyFrameJpgs(folder, |written|) {
        CleanFolderListing(folder, folder', images, |written|);
      }
      if sorted.Err? {
        return Err(sorted.error), folder';
      }
      if AssemblyRejectsFps(fps) {
        return Err(InvalidFps), folder';
      }
      var paths := sorted.value;
      SameMembers(paths, images);
      var clipFrames := ClipFrames(folder', paths);
      assert IsClipOf(clipFrames, folder', images);
      if OnlyFrameJpgs(folder, |written|) {
        ClipOfSaved(folder, folder', written);
      }
      var clipDuration := ClipDuration(|clipFrames|, fps);
      var audio := TrimmedAudio(audioDuration, clipDuration);
      result := Ok(OutputVideo(clipFrames, fps, audio));
    }

    /** After saving frames 0..count-1, the listing of the folder can be
        sorted exactly when every `.jpg` that was there before has a numeric
        prefix: the saved names always have one. */
    static lemma ListingSorts(folder: map<string, Annotated>, folder': map<string, Annotated>,
                              images: seq<string>, count: nat)
      requires forall name :: name in folder' <==> name in folder || name in FrameFileNames(count)
      requires forall name :: name in images <==> name in folder' && IsJpg(name)
      ensures SortFrameNames(images).Ok? <==> JpgsNumbered(folder)
    {
      FrameFileNamesOrdered(count);
      forall name | name in FrameFileNames(count) ensures IsJpg(name) {
        var k :| 0 <= k < count && FrameFileNames(count)[k] == name;
        FrameNumberOfFileName(k);
      }
      if !JpgsNumbered(folder) {
        var name :| name in folder && IsJpg(name) && !HasFrameNumber(name);
        assert name in images;
      }
    }

    /** When every `.jpg` in the folder beforehand is one of the names
        overwritten, the listing holds exactly the names of the frames saved,
        and sorting it gives them in frame order. */
    static lemma CleanFolderListing(folder: map<string, Annotated>, folder': map<string, Annotated>,
                                    images: seq<string>, count: nat)
      requires OnlyFrameJpgs(folder, count)
      requires forall name :: name in folder' <==> name in folder || name in FrameFileNames(count)
      requires forall name :: name in images <==> name in folder' && IsJpg(name)
      requires NoDuplicates(images)
      ensures SortFrameNames(images) == Ok(FrameFileNames(count))
    {
      forall name | name in FrameFileNames(count) ensures IsJpg(name) {
        var k :| 0 <= k < count && FrameFileNames(count)[k] == name;
        FrameNumberOfFileName(k);
      }
      FrameFileNamesDistinct(count);
      DistinctSameElements(images, FrameFileNames(count));
      SortRestoresFrameOrder(images, count);
    }
  }
}
