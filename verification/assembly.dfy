/** The checks and the duration rule of `create_video` and
    `transcribe_video` that concern the frame rate and the audio track
    (generate_subtitles.py lines 28-29, 124-125, 128-132). Durations are in
    seconds. */
module Assembly {

  /** Line 28: after the metadata read only an fps of exactly zero is
      rejected. */
  predicate MetadataRejectsFps(fps: real) {
    fps == 0.0
  }

  /** Line 124: `not self.fps or self.fps <= 0`. */
  predicate AssemblyRejectsFps(fps: real) {
    fps == 0.0 || fps <= 0.0
  }

  /** The assembly check rejects exactly the non-positive rates, everything
      the metadata check rejects and more: a negative rate passes the first
      check and is stopped by the second. */
  lemma FpsChecks(fps: real)
    ensures AssemblyRejectsFps(fps) <==> fps <= 0.0
    ensures MetadataRejectsFps(fps) ==> AssemblyRejectsFps(fps)
    ensures fps < 0.0 ==> !MetadataRejectsFps(fps) && AssemblyRejectsFps(fps)
  {
  }

  /** `clip.duration` of an image sequence played at `fps`. */
  function ClipDuration(frameCount: nat, fps: real): (d: real)
    requires fps > 0.0
    ensures d * fps == frameCount as real
  {
    frameCount as real / fps
  }

  /** Lines 130-131: audio longer than the clip is cut to the clip's length;
      shorter audio is kept as it is (never looped or padded). */
  function TrimmedAudio(audio: real, clip: real): (d: real)
    ensures d <= audio && d <= clip
    ensures d == audio || d == clip
  {
    if audio > clip then clip else audio
  }

  /** 90 frames at 30 fps last 3 seconds: 5 seconds of audio are cut to 3,
      2 seconds are kept. */
  lemma ExampleThreeSecondClip()
    ensures ClipDuration(90, 30.0) == 3.0
    ensures TrimmedAudio(5.0, ClipDuration(90, 30.0)) == 3.0
    ensures TrimmedAudio(2.0, ClipDuration(90, 30.0)) == 2.0
  {
  }
}
