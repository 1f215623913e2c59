# Subtitle generator — a verified model of `VideoTranscriber`

`generate_subtitles.py` burns speech-recognition subtitles into a video. A
`VideoTranscriber` object takes the video through three stages:

1. `transcribe_video` reads the frame rate and frame count. It turns the
   recognised speech into a transcript file of 15 words per line, then
   spreads the words uniformly over the frames. Frame `i` gets the caption
   `(segment_text, i, i + 1)` in `text_array`.
2. `extract_frames` reads the frames one by one. It draws caption `k`
   centred near the bottom of frame `k` and saves the result as `"k.jpg"`.
3. `create_video` saves the frames, lists the `.jpg` files of the frames
   folder and sorts them by numeric prefix. It checks the frame rate and
   assembles the clip, cutting the audio to the clip's length.

The model keeps the object's own form. `Transcriber.VideoTranscriber` is a
class with the fields `videoPath`, `audioPath`, `textArray` and `fps`. Its
methods update those fields and run the same loops as the source: the
append loop over frames, the 15-word line loop and the `N_frames` counter
loop. Each method is proved against pure specification functions. Those
functions and the lemmas about them are grouped by concern:

| module | concern |
|---|---|
| `Words` | `str.split()` and `' '.join` |
| `Timeline` | the word-to-frame alignment |
| `Wrapping` | the 15-word transcript lines |
| `Placement` | caption position |
| `FrameNames` | `str(k) + ".jpg"`, the `int(name.split(".")[0])` sort key and the sort |
| `Assembly` | frame-rate checks and audio trimming |
| `DivArith` | the minimum of two bounds and facts about integer division |
| `Outcomes` | the raised exceptions, as values |

The alignment uses exact arithmetic. `int(i / (N / W))` is `i*W div N`
for `0 <= i`, `0 < N` and `0 < W`.

## Model

| member | source | states |
|---|---|---|
| Transcriber.VideoTranscriber.constructor | generate_subtitles.py:10-16 | A new transcriber has the given video path, an empty audio path, no captions and frame rate 0. |
| Transcriber.Annotate | generate_subtitles.py:91-101 | Frame `k` as drawn: its image with the caption text at (`TextX` of the frame width and text width, `TextY` of the frame height and text height), the text size being what `measure` gives for the caption, as `cv2.getTextSize` does. |
| Transcriber.AnnotateAll | generate_subtitles.py:88-105 | The images `extract_frames` saves for the frames read: frame `k` annotated with caption `k`. |
| Transcriber.FrameCount | generate_subtitles.py:57 | The number of iterations of `range(total_frames)`: the count itself, or 0 for a negative count. |
| Transcriber.VideoTranscriber.TranscribeVideo | generate_subtitles.py:18-65 | The frame rate is stored first. A rate of 0 raises, with nothing written or appended. A failed recognition returns normally, with nothing written or appended. Otherwise the transcript file holds one line per 15-word chunk. With no words the call raises ZeroDivisionError and leaves `text_array` unchanged. Otherwise the old `text_array` is kept and exactly the alignment of the words over `max(N, 0)` frames is appended. |
| Transcriber.VideoTranscriber.ExtractFrames | generate_subtitles.py:78-108 | Image `k` saved is frame `k` annotated with `text_array[k]`, stored under `"k.jpg"`. All frames are saved when there are enough captions. Otherwise an IndexError is raised after exactly `len(text_array)` frames were saved. Files of the folder that are not overwritten are kept. |
| Transcriber.VideoTranscriber.ListImages | generate_subtitles.py:120 | The listing holds each `.jpg` name of the folder exactly once and nothing else, in any order. |
| Transcriber.VideoTranscriber.CreateVideo | generate_subtitles.py:110-134 | The folder afterwards is the old folder with the saved frames written over it, `"k.jpg"` holding frame `k` annotated with caption `k`. Too many frames raise IndexError, before any other check. Otherwise a `.jpg` name in the folder without a numeric prefix makes the sort raise ValueError. When every `.jpg` name is numbered, a non-positive rate raises ValueError and any other rate succeeds. A successful clip has that frame rate. Its frames are the folder's `.jpg` images, listed once each, sorted by numeric prefix and read back. Its audio is the recorded audio cut to the clip's duration. When every `.jpg` already in the folder is overwritten by a saved frame, the clip's frames are exactly the annotated frames, in frame order. |
| Transcriber.VideoTranscriber.CleanFolderListing | generate_subtitles.py:117-121 | When every `.jpg` in the folder beforehand is among the `k` names saved, the listing sorted by numeric prefix is `"0.jpg", …, "k-1.jpg"`, whatever the listing order. |
| Transcriber.VideoTranscriber.ListingSorts | generate_subtitles.py:117-121 | After the frames are saved, sorting the listing succeeds exactly when every `.jpg` name in the folder beforehand has a numeric prefix. |
| Transcriber.SaveNext | generate_subtitles.py:104 | Saving the next frame as `"k.jpg"` keeps the folder invariant: earlier frames stay under their names and other files are untouched. |
| Transcriber.ClipOfSaved | generate_subtitles.py:128 | Reading back the names of the saved frames, in frame order, gives the saved images in the order they were written. |
| Transcriber.ShownWordsAreCaptionWords | generate_subtitles.py:91-101 | The words drawn on the first `k` annotated frames are the words of the first `k` captions, in order. |
| Transcriber.VideoShowsTranscript | generate_subtitles.py:52-105 | End to end: reading the captions drawn on the output frames in order gives every transcript word exactly once, in order. |
| Words.Split | generate_subtitles.py:52 | Every token of `split()` is non-empty and free of whitespace. With SplitWord, SplitAtSpace and `split("") == []`, this fixes the tokens of every string. |
| Words.SplitWord | generate_subtitles.py:52 | A non-empty string without whitespace is one token. |
| Words.SplitAtSpace | generate_subtitles.py:52 | Splitting text around a whitespace character gives the tokens before it followed by the tokens after it. |
| Words.SplitJoin | generate_subtitles.py:64 | Splitting the space-joined caption of a list of tokens gives the list back. |
| Words.JoinEmpty | generate_subtitles.py:64 | A caption is empty exactly when its frame has no words. |
| Words.Join | generate_subtitles.py:64 | `' '.join(ws)`, also used for the transcript lines at line 47: the tokens in order, one space between neighbours. |
| Timeline.StartWord | generate_subtitles.py:58 | `start_word` of frame `i`: `i*W div N`, the exact value of `int(i / (N / W))`. |
| Timeline.EndWord | generate_subtitles.py:59-62 | `end_word` of frame `i`: `(i+1)*W div N`, clamped to `W` as lines 61-62 do. |
| Timeline.Alignment | generate_subtitles.py:57-65 | The entries the loop appends to `text_array`: for each frame `i < N`, the words `[StartWord(i), EndWord(i))` joined by spaces, with the interval `(i, i+1)`. It uses exact division in place of the float quotient. |
| Timeline.StartMonotone | generate_subtitles.py:58 | `start_word` never decreases from one frame to the next. |
| Timeline.SliceBounds | generate_subtitles.py:58-62 | `0 <= start_word <= end_word <= W` on every frame. |
| Timeline.ClampInactive | generate_subtitles.py:61-62 | The clamp never changes `end_word`: `(i+1)*W div N` is already at most `W`. |
| Timeline.EndIsNextStart | generate_subtitles.py:58-59 | Frame `i` ends where frame `i+1` starts. |
| Timeline.FirstAndLast | generate_subtitles.py:57-62 | Frame 0 starts at word 0 and frame `N-1` ends at word `W`. |
| Timeline.AlignmentEntries | generate_subtitles.py:57-65 | There are exactly `N` entries. Entry `i` spans frames `[i, i+1)`, and its caption, split again, gives frame `i`'s word slice. |
| Timeline.GatheredIsPrefix | generate_subtitles.py:57-64 | The words of frames `0..k-1`, concatenated, are exactly the words before frame `k`'s start. |
| Timeline.Coverage | generate_subtitles.py:54-64 | The words of all frames, concatenated in frame order, are the word list: none dropped, repeated or reordered. |
| Timeline.EachWordInOneFrame | generate_subtitles.py:54-64 | Every word lies in the slice of one frame and of no other. |
| Timeline.WordsPerFrame | generate_subtitles.py:54-59 | Every frame shows `W div N` words, or `W div N + 1` when `N` does not divide `W`. |
| Timeline.SparseFrames | generate_subtitles.py:54-59 | When `W <= N` each frame shows at most one word. |
| Timeline.WholeWordsPerFrame | generate_subtitles.py:54-59 | When `W = m*N`, frame `i` shows exactly words `[i*m, (i+1)*m)`. |
| Timeline.TwoWordsPerFrame | generate_subtitles.py:54-64 | When `W = 2N`, frame `i`'s caption is word `2i`, a space and word `2i+1`. |
| Timeline.TwiceAsManyFrames | generate_subtitles.py:54-64 | When `N = 2W`, odd frame `i` shows word `i div 2` and even frames show an empty caption. |
| Timeline.CaptionsRecoverWords | generate_subtitles.py:52-65 | Splitting all captions of `text_array` in order gives back the transcript's word list. |
| Timeline.ExampleEvenSplit | generate_subtitles.py:57-65 | 3 frames and words a..f give "a b", "c d", "e f". |
| Timeline.ExampleSparse | generate_subtitles.py:57-65 | 10 frames and words a..e give "", "a", "", "b", "", "c", "", "d", "", "e". |
| Wrapping.Chunks | generate_subtitles.py:46-47 | The slices `words[i:i+15]` for `i = 0, 15, 30, …` below `W`, in order: full 15-word chunks and a shorter last one. |
| Wrapping.ChunksFlatten | generate_subtitles.py:45-47 | The lines' chunks, concatenated, are the word list. |
| Wrapping.ChunkCount | generate_subtitles.py:46 | There are `ceil(W / 15)` lines. |
| Wrapping.ChunkAt | generate_subtitles.py:46-47 | Line `k` holds words `[15k, min(15k+15, W))`. |
| Wrapping.ChunkShape | generate_subtitles.py:46-47 | Every line but the last holds 15 words and the last holds 1 to 15. The count and the positions are as in `ChunkCount` and `ChunkAt`. |
| Wrapping.LinesResplit | generate_subtitles.py:47 | Each line of the file, split again, gives back its chunk of words. |
| Wrapping.WriteTranscript | generate_subtitles.py:44-47 | The loop writes one line per 15-word chunk, in order. |
| Placement.HalfTowardZero | generate_subtitles.py:96 | `int(d / 2)` truncates toward zero: it lies within half a pixel of `d / 2`, on the side of 0. |
| Placement.TextX | generate_subtitles.py:96 | A caption no wider than the frame lies inside it, with a right margin equal to the left or one pixel more. A wider caption overhangs both edges by amounts that differ by at most one. |
| Placement.TextY | generate_subtitles.py:97 | The baseline sits at least 10 pixels above the bottom edge. The text rises `textHeight` above the baseline, and its top stays inside the frame exactly when `2*textHeight + 10 <= frameHeight`: a taller caption is cut at the top. When it fits, the whole text box lies inside the frame. |
| Placement.CentredCaptionFits | generate_subtitles.py:96 | The right margin minus the left margin is the parity of the spare width. |
| Placement.WideCaptionOverhangs | generate_subtitles.py:96 | The right overhang minus the left overhang is the parity of the excess width. |
| FrameNames.Decimal | generate_subtitles.py:104 | `str(k)` is a non-empty string of decimal digits. |
| FrameNames.FrameFileName | generate_subtitles.py:104 | `str(k) + ".jpg"`, the name frame `k` is saved under. |
| FrameNames.IsJpg | generate_subtitles.py:120 | `name.endswith(".jpg")`. |
| FrameNames.ParseDecimal | generate_subtitles.py:121 | `int()` on a string of ASCII decimal digits: its base-10 value, with `""` giving 0 only as the base of the recursion. |
| FrameNames.HasFrameNumber | generate_subtitles.py:121 | The sort key `int(name.split(".")[0])` exists: the part before the first dot is a non-empty string of digits. Otherwise `int()` raises ValueError. |
| FrameNames.FrameNumber | generate_subtitles.py:121 | The sort key: the value of the digits before the first dot. |
| FrameNames.ParseDecimalOfDecimal | generate_subtitles.py:121 | `int(str(k)) == k`. |
| FrameNames.BeforeFirstDot | generate_subtitles.py:121 | `name.split(".")[0]` is a dot-free prefix of the name, followed by a dot unless it is the whole name. |
| FrameNames.FrameNumberOfFileName | generate_subtitles.py:121 | The name `"k.jpg"` is a `.jpg` name with sort key `k`. |
| FrameNames.FileNameInjective | generate_subtitles.py:104 | Distinct frames are saved under distinct names. |
| FrameNames.FrameFileNamesOrdered | generate_subtitles.py:104 | The names of frames `0..k-1` have keys `0..k-1`: sorted, with no key repeated. |
| FrameNames.FrameFileNamesDistinct | generate_subtitles.py:104 | The names of frames `0..k-1` are pairwise distinct. |
| FrameNames.Insert | generate_subtitles.py:121 | Inserting a name into a sorted list gives a sorted list with that one name added. |
| FrameNames.SortByNumber | generate_subtitles.py:121 | The sort returns a permutation of its input, ordered by key. |
| FrameNames.SortFrameNames | generate_subtitles.py:121 | Sorting succeeds exactly when every name has a numeric prefix. Otherwise it raises ValueError. On success it returns a permutation of the listing, ordered by key. |
| FrameNames.SortedUnique | generate_subtitles.py:121 | Two key-ordered permutations of names with distinct keys are equal, so the sort's result is determined. |
| FrameNames.SortRestoresFrameOrder | generate_subtitles.py:120-121 | Any listing order of the names of frames `0..k-1` sorts to `"0.jpg", …, "k-1.jpg"`. |
| FrameNames.LaterNameSortsLater | generate_subtitles.py:121 | For `i < j`, the listing `["j.jpg", "i.jpg"]` sorts to `["i.jpg", "j.jpg"]`. |
| FrameNames.NineBeforeTen | generate_subtitles.py:121 | The order is numeric, not lexicographic: "9.jpg" sorts before "10.jpg". |
| Assembly.FpsChecks | generate_subtitles.py:124-125 | The assembly check rejects exactly the rates `<= 0`. It rejects everything the check at line 28 rejects, and a negative rate passes line 28 and is stopped only here. |
| Assembly.MetadataRejectsFps | generate_subtitles.py:28 | `self.fps == 0`: the check right after the frame rate is read. |
| Assembly.AssemblyRejectsFps | generate_subtitles.py:124 | `not self.fps or self.fps <= 0`, which over the reals is a rate `<= 0`, as `FpsChecks` proves. |
| Assembly.ClipDuration | generate_subtitles.py:128 | A clip of `k` images at `fps` lasts `d` seconds with `d * fps == k`. |
| Assembly.TrimmedAudio | generate_subtitles.py:130-131 | The kept audio is the shorter of the audio and the clip. |
| Assembly.ExampleThreeSecondClip | generate_subtitles.py:128-131 | 90 frames at 30 fps last 3 s. 5 s of audio are cut to 3 s and 2 s are kept. |

## Behaviour of the code that the model follows

- With more frames than words, words are not repeated across frames. The
  frames in between get an empty caption. For example, 10 frames and 5
  words give "", "a", "", "b", … (`Timeline.ExampleSparse`). A frame with
  an empty caption is still passed through `putText`, with empty text.
- The clamp at lines 61-62 never fires with exact arithmetic. No trailing
  words are left for the last frame to absorb: frame `N-1` ends at word `W`
  on its own.
- A transcript with no words first writes an empty transcript file. Only
  then does it raise ZeroDivisionError at line 54.
- A failed recognition (lines 37-39) returns normally, so a pipeline goes on
  with an unchanged `text_array`.
- A negative frame rate passes the check at line 28. `create_video` rejects
  it at line 124 only after `extract_frames` has saved the frames.
- `.jpg` files already in the frames folder are listed with the new ones
  and go into the clip. A stale name without a numeric prefix, such as
  `cover.jpg`, makes the sort raise ValueError.
- The text is measured at font scale 0.8 (line 95) but drawn at 0.75
  (line 101). The position is computed from the larger measurement.

## Left out

- OpenCV: the capture, `cap.read`, `cv2.imwrite` and the pixels `cv2.putText` draws. A frame is an opaque image with its width. The frame stream is the finite sequence `cap.read()` yields before it fails. An annotated frame records the caption and its position.
- `cv2.getTextSize` is a parameter (`measure`) of the methods. Text metrics are not modelled.
- The speech recogniser (lines 12, 32-34) and its network call. The result is an `Option<string>`. A result dictionary whose `alternative` list is empty or lacks `transcript` (a KeyError or IndexError at line 41) is not modelled.
- `extract_audio` (lines 67-76) and the audio file: `audioPath` is carried but never set. The audio enters `CreateVideo` as its duration.
- moviepy encoding and `write_videofile`: the output is the clip's frames, frame rate and audio duration.
- Directory creation (lines 113-115), path joining, `print`, the unused `tqdm` and `pydub` imports, and the main script (lines 137-144).
- Transcriber.VideoTranscriber.TranscribeVideo: the word bounds use exact integer division, `i*W div N`, not the float quotient `int(i / (N / W))`. The two can differ when rounding of the float division crosses an integer.
- Assembly.ClipDuration: real division, not float division.
- Assembly.AssemblyRejectsFps: NaN and ±infinity are not representable as `real`. NaN and +inf pass both checks in Python; -inf is stopped at line 124.
- FrameNames.SortFrameNames: `int()` is modelled on ASCII decimal digits only. Prefixes Python also accepts (signs, surrounding whitespace, underscores, non-ASCII digits) are treated as errors. Those names can only come from stale files in the folder.
- FrameNames.SortFrameNames: the stability of Python's sort is not stated. Equal keys only arise from stale names such as `"01.jpg"` next to `"1.jpg"`.
- Transcriber.VideoTranscriber.CreateVideo: moviepy's `ImageSequenceClip` is not part of this model. When no frame is read (an unreadable video), the model returns an empty clip, whereas `ImageSequenceClip` fails on an empty list.
- Transcriber.VideoTranscriber.ListImages: the order of `os.listdir` is left open, as a nondeterministic choice.
- The transcript file is modelled as its list of lines. Each line ends with `'\n'` in the source.
