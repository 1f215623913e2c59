/** The word-to-frame alignment of `VideoTranscriber.transcribe_video`
    (generate_subtitles.py lines 51-65): W transcript words are spread
    uniformly over the N frames of the video, frame i showing the words
    [int(i / (N/W)), min(int((i+1) / (N/W)), W)). With exact arithmetic the
    bounds are i*W div N and min((i+1)*W div N, W). */
module Timeline {
  import opened Words
  import opened DivArith

  /** One entry of `text_array`: the tuple (segment_text, i, i + 1). */
  datatype Segment = Segment(text: string, startFrame: int, endFrame: int)

  /** `start_word` of frame i: int(i / frames_per_word) = i*w div n. */
  function StartWord(i: int, n: int, w: int): int
    requires 0 < n
  {
    i * w / n
  }

  /** `end_word` of frame i, with the clamp of lines 61-62. */
  function EndWord(i: int, n: int, w: int): int
    requires 0 < n
  {
    var e := (i + 1) * w / n;
    if e > w then w else e
  }

  /** Start bounds are monotone in the frame index. */
  lemma StartMonotone(i1: int, i2: int, n: int, w: int)
    requires 0 < n && 0 <= w && i1 <= i2
    ensures StartWord(i1, n, w) <= StartWord(i2, n, w)
  {
    MulMonotone(i1, i2, w);
    DivMonotone(i1 * w, i2 * w, n);
  }

  /** n*w div n == w */
  lemma StartOfEnd(n: int, w: int)
    requires 0 < n
    ensures StartWord(n, n, w) == w
  {
    DivAddMultiple(0, w, n);
    assert n * w == 0 + w * n;
  }

  /** The clamp of lines 61-62 never changes `end_word` when the division is
      exact: (i+1)*w div n is already at most w for every frame. */
  lemma ClampInactive(i: int, n: int, w: int)
    requires 0 <= i < n && 0 <= w
    ensures EndWord(i, n, w) == (i + 1) * w / n
  {
    StartMonotone(i + 1, n, n, w);
    StartOfEnd(n, w);
  }

  /** Every frame's slice is a well-formed slice of the word list. */
  lemma SliceBounds(i: int, n: int, w: int)
    requires 0 <= i < n && 0 <= w
    ensures 0 <= StartWord(i, n, w) <= EndWord(i, n, w) <= w
  {
    StartMonotone(0, i, n, w);
    StartMonotone(i, i + 1, n, w);
    ClampInactive(i, n, w);
  }

  /** Contiguity: each frame ends where the next one starts. */
  lemma EndIsNextStart(i: int, n: int, w: int)
    requires 0 <= i < n && 0 <= w
    ensures EndWord(i, n, w) == StartWord(i + 1, n, w)
  {
    ClampInactive(i, n, w);
  }

  /** The first frame starts at word 0 and the last one ends at word w. */
  lemma FirstAndLast(n: int, w: int)
    requires 0 < n && 0 <= w
    ensures StartWord(0, n, w) == 0
    ensures EndWord(n - 1, n, w) == w
  {
    EndIsNextStart(n - 1, n, w);
    StartOfEnd(n, w);
  }

  /** The words shown on frame i: `words[start_word:end_word]`. */
  function FrameWords(words: seq<string>, n: int, i: int): seq<string>
    requires 0 <= i < n
  {
    SliceBounds(i, n, |words|);
    words[StartWord(i, n, |words|)..EndWord(i, n, |words|)]
  }

  /** `segment_text` of frame i. */
  function Caption(words: seq<string>, n: int, i: int): string
    requires 0 <= i < n
  {
    Join(FrameWords(words, n, i))
  }

  /** The entries lines 57-65 append to `text_array`, one per frame. */
  function Alignment(words: seq<string>, n: nat): seq<Segment>
    requires |words| > 0
  {
    seq(n, i requires 0 <= i < n => Segment(Caption(words, n, i), i, i + 1))
  }

  /** Entry i of the alignment carries frame i's caption and the frame
      interval [i, i+1); there is exactly one entry per frame. */
  lemma AlignmentEntries(words: seq<string>, n: nat)
    requires |words| > 0 && AllWords(words)
    ensures |Alignment(words, n)| == n
    ensures forall i :: 0 <= i < n ==>
      Alignment(words, n)[i].startFrame == i && Alignment(words, n)[i].endFrame == i + 1
      && Split(Alignment(words, n)[i].text) == FrameWords(words, n, i)
  {
    forall i | 0 <= i < n
      ensures Split(Alignment(words, n)[i].text) == FrameWords(words, n, i)
    {
      SliceBounds(i, n, |words|);
      AllWordsSlice(words, StartWord(i, n, |words|), EndWord(i, n, |words|));
      SplitJoin(FrameWords(words, n, i));
      assert Alignment(words, n)[i] == Segment(Caption(words, n, i), i, i + 1);
    }
  }

  /** The alignment of the first i+1 frames extends that of the first i
      frames by frame i's entry. */
  lemma AlignmentNext(words: seq<string>, n: nat, i: int)
    requires |words| > 0 && 0 <= i < n
    ensures Alignment(words, n)[..i + 1] == Alignment(words, n)[..i] + [Segment(Caption(words, n, i), i, i + 1)]
  {
    assert Alignment(words, n)[i] == Segment(Caption(words, n, i), i, i + 1);
  }

  /** The words of frames 0..k-1, concatenated in frame order. */
  function Gathered(words: seq<string>, n: int, k: int): seq<string>
    requires 0 <= k <= n
  {
    if k == 0 then [] else Gathered(words, n, k - 1) + FrameWords(words, n, k - 1)
  }

  /** Frame starts stay within the word list. */
  lemma StartInRange(k: int, n: int, w: int)
    requires 0 <= k <= n && 0 < n && 0 <= w
    ensures 0 <= StartWord(k, n, w) <= w
  {
    StartMonotone(0, k, n, w);
    StartMonotone(k, n, n, w);
    StartOfEnd(n, w);
  }

  /** Frames 0..k-1 together show exactly the words before frame k's start. */
  lemma {:induction false} GatheredIsPrefix(words: seq<string>, n: int, k: int)
    requires 0 <= k <= n && 0 < n
    ensures 0 <= StartWord(k, n, |words|) <= |words|
    ensures Gathered(words, n, k) == words[..StartWord(k, n, |words|)]
  {
    StartInRange(k, n, |words|);
    if k > 0 {
      GatheredIsPrefix(words, n, k - 1);
      var a, b := GatheredStep(words, n, k);
      ExtendPrefix(words, Gathered(words, n, k - 1), words[a..b], a, b);
    }
  }

  /** Frames 0..k-1 add, after frames 0..k-2, the words between the starts
      of frames k-1 and k. */
  lemma GatheredStep(words: seq<string>, n: int, k: int) returns (a: int, b: int)
    requires 0 < k <= n
    ensures a == StartWord(k - 1, n, |words|) && b == StartWord(k, n, |words|)
    ensures 0 <= a <= b <= |words|
    ensures Gathered(words, n, k) == Gathered(words, n, k - 1) + words[a..b]
  {
    SliceBounds(k - 1, n, |words|);
    EndIsNextStart(k - 1, n, |words|);
    a, b := StartWord(k - 1, n, |words|), StartWord(k, n, |words|);
    assert FrameWords(words, n, k - 1) == words[a..b];
  }

  /** A prefix followed by the next slice is the longer prefix. */
  lemma ExtendPrefix<T>(s: seq<T>, prefix: seq<T>, piece: seq<T>, a: int, b: int)
    requires 0 <= a <= b <= |s| && prefix == s[..a] && piece == s[a..b]
    ensures prefix + piece == s[..b]
  {
  }

  /** Coverage: concatenating every frame's words in frame order gives back
      the word list, so no word is dropped, repeated or reordered. */
  lemma Coverage(words: seq<string>, n: int)
    requires 0 < n
    ensures Gathered(words, n, n) == words
  {
    GatheredIsPrefix(words, n, n);
    StartOfEnd(n, |words|);
  }

  /** A word before the end of frame k is shown on some frame up to k. */
  lemma {:induction false} WordShownBy(n: int, w: int, j: int, k: int)
    requires 0 <= k < n && 0 <= w && 0 <= j < EndWord(k, n, w)
    ensures exists i :: 0 <= i <= k && StartWord(i, n, w) <= j < EndWord(i, n, w)
  {
    if k > 0 && j < StartWord(k, n, w) {
      EndIsNextStart(k - 1, n, w);
      WordShownBy(n, w, j, k - 1);
    }
  }

  /** Each word lands in exactly one frame. */
  lemma EachWordInOneFrame(n: int, w: int, j: int)
    requires 0 < n && 0 <= j < w
    ensures exists i :: 0 <= i < n && StartWord(i, n, w) <= j < EndWord(i, n, w)
    ensures forall i1, i2 ::
      (0 <= i1 < n && 0 <= i2 < n
       && StartWord(i1, n, w) <= j < EndWord(i1, n, w)
       && StartWord(i2, n, w) <= j < EndWord(i2, n, w)) ==> i1 == i2
  {
    FirstAndLast(n, w);
    WordShownBy(n, w, j, n - 1);
    forall i1, i2 | 0 <= i1 < i2 < n
      ensures EndWord(i1, n, w) <= StartWord(i2, n, w)
    {
      EndIsNextStart(i1, n, w);
      StartMonotone(i1 + 1, i2, n, w);
    }
  }

  /** Words per frame: every frame shows w div n words, or one more when n
      does not divide w. */
  lemma WordsPerFrame(i: int, n: int, w: int)
    requires 0 <= i < n && 0 <= w
    ensures var count := EndWord(i, n, w) - StartWord(i, n, w);
      count == w / n || (w % n != 0 && count == w / n + 1)
  {
    ClampInactive(i, n, w);
    var a := i * w;
    assert (i + 1) * w == a + w % n + (w / n) * n;
    DivAddMultiple(a + w % n, w / n, n);
    DivStep(a, w % n, n);
  }

  /** With at least as many frames as words, a frame shows at most one word
      (so most captions are blank when frames outnumber words). */
  lemma SparseFrames(i: int, n: int, w: int)
    requires 0 <= i < n && 0 <= w <= n
    ensures EndWord(i, n, w) - StartWord(i, n, w) <= 1
  {
    WordsPerFrame(i, n, w);
    if w < n {
      DivUnique(w, n, 0, w);
    } else {
      DivUnique(w, n, 1, 0);
    }
  }

  /** The words of a run of captions, read back in order. */
  function CaptionWords(segs: seq<Segment>): seq<string> {
    if |segs| == 0 then [] else CaptionWords(segs[..|segs| - 1]) + Split(segs[|segs| - 1].text)
  }

  lemma {:induction false} CaptionWordsPrefix(words: seq<string>, n: nat, k: int)
    requires |words| > 0 && AllWords(words) && 0 <= k <= n
    ensures CaptionWords(Alignment(words, n)[..k]) == Gathered(words, n, k)
  {
    if k > 0 {
      var segs := Alignment(words, n)[..k];
      assert segs[..k - 1] == Alignment(words, n)[..k - 1];
      CaptionWordsPrefix(words, n, k - 1);
      AlignmentEntries(words, n);
    }
  }

  /** Reading the words back from all captions, in frame order, gives the
      transcript's word list exactly. */
  lemma CaptionsRecoverWords(words: seq<string>, n: nat)
    requires |words| > 0 && AllWords(words) && 0 < n
    ensures CaptionWords(Alignment(words, n)) == words
  {
    CaptionWordsPrefix(words, n, n);
    assert Alignment(words, n)[..n] == Alignment(words, n);
    Coverage(words, n);
  }

  /** Three frames and six words: two words per frame. */
  lemma ExampleEvenSplit()
    ensures Alignment(["a", "b", "c", "d", "e", "f"], 3)
      == [Segment("a b", 0, 1), Segment("c d", 1, 2), Segment("e f", 2, 3)]
  {
    var words := ["a", "b", "c", "d", "e", "f"];
    var a := Alignment(words, 3);
    forall i | 0 <= i < 3
      ensures a[i] == Segment(words[2 * i] + " " + words[2 * i + 1], i, i + 1)
    {
      TwoWordsPerFrame(words, 3, i);
    }
    assert "a" + " " + "b" == "a b" && "c" + " " + "d" == "c d" && "e" + " " + "f" == "e f";
  }

  /** With twice as many words as frames, frame i shows words 2i and 2i+1. */
  lemma TwoWordsPerFrame(words: seq<string>, n: int, i: int)
    requires 0 <= i < n && |words| == 2 * n
    ensures Caption(words, n, i) == words[2 * i] + " " + words[2 * i + 1]
  {
    WholeWordsPerFrame(words, n, 2, i);
    var p := FrameWords(words, n, i);
    assert |p| == 2 && p[0] == words[2 * i] && p[1] == words[2 * i + 1];
    assert p[1..] == [p[1]];
    assert Join(p) == p[0] + " " + Join([p[1]]);
  }

  /** When the word count is a multiple m of the frame count, frame i shows
      exactly the m words [i*m, (i+1)*m). */
  lemma WholeWordsPerFrame(words: seq<string>, n: int, m: int, i: int)
    requires 0 < n && |words| == m * n && 0 <= i < n
    ensures 0 <= i * m <= (i + 1) * m <= |words|
    ensures FrameWords(words, n, i) == words[i * m..(i + 1) * m]
  {
    ExactStart(i, n, m);
    ExactStart(i + 1, n, m);
    SliceBounds(i, n, |words|);
    ClampInactive(i, n, |words|);
  }

  /** Frame k starts at word k*m when there are m*n words. */
  lemma ExactStart(k: int, n: int, m: int)
    requires 0 < n
    ensures StartWord(k, n, m * n) == k * m
  {
    assert k * (m * n) == 0 + (k * m) * n;
    DivAddMultiple(0, k * m, n);
  }

  /** Ten frames and five words: every other caption is blank, and each word
      is shown on exactly one frame. */
  lemma ExampleSparse()
    ensures Alignment(["a", "b", "c", "d", "e"], 10)
      == [Segment("", 0, 1), Segment("a", 1, 2), Segment("", 2, 3), Segment("b", 3, 4),
          Segment("", 4, 5), Segment("c", 5, 6), Segment("", 6, 7), Segment("d", 7, 8),
          Segment("", 8, 9), Segment("e", 9, 10)]
  {
    var words := ["a", "b", "c", "d", "e"];
    var a := Alignment(words, 10);
    forall i | 0 <= i < 10
      ensures a[i] == Segment(if i % 2 == 0 then "" else words[i / 2], i, i + 1)
    {
      TwiceAsManyFrames(words, i);
    }
  }

  /** With twice as many frames as words, the odd frames show one word each,
      in order, and the even frames show none. */
  lemma TwiceAsManyFrames(words: seq<string>, i: int)
    requires 0 <= i < 2 * |words|
    ensures Caption(words, 2 * |words|, i) == if i % 2 == 0 then "" else words[i / 2]
  {
    var w := |words|;
    HalfOfDoubled(i, w);
    HalfOfDoubled(i + 1, w);
    ClampInactive(i, 2 * w, w);
  }

  /** k*w div 2w is k div 2. */
  lemma HalfOfDoubled(k: int, w: int)
    requires 0 <= k && 0 < w
    ensures k * w / (2 * w) == k / 2
  {
    var q := k / 2;
    if k % 2 == 0 {
      assert k * w == 0 + q * (2 * w) by {
        assert k == q * 2;
      }
      DivAddMultiple(0, q, 2 * w);
    } else {
      assert k * w == w + q * (2 * w) by {
        assert k == 1 + q * 2;
      }
      DivAddMultiple(w, q, 2 * w);
    }
  }
}
