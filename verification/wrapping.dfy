/** The transcript file of `transcribe_video` (generate_subtitles.py lines
    43-47): the words are written 15 to a line, each line the space-joined
    chunk followed by a newline. The file is modelled as its sequence of
    lines. */
module Wrapping {
  import opened Words
  import opened DivArith

  /** Words per line of the transcript file. */
  const LINE_WORDS: nat := 15

  /** Consecutive chunks of `LINE_WORDS` words; only the last may be shorter. */
  function Chunks(ws: seq<string>): seq<seq<string>>
    decreases |ws|
  {
    if |ws| == 0 then []
    else if |ws| <= LINE_WORDS then [ws]
    else [ws[..LINE_WORDS]] + Chunks(ws[LINE_WORDS..])
  }

  function Flatten(cs: seq<seq<string>>): seq<string> {
    if |cs| == 0 then [] else cs[0] + Flatten(cs[1..])
  }

  function JoinEach(cs: seq<seq<string>>): seq<string> {
    if |cs| == 0 then [] else [Join(cs[0])] + JoinEach(cs[1..])
  }


  /** Concatenating the chunks in order gives back the word list. */
  lemma {:induction false} ChunksFlatten(ws: seq<string>)
    ensures Flatten(Chunks(ws)) == ws
    decreases |ws|
  {
    if |ws| > LINE_WORDS {
      ChunksFlatten(ws[LINE_WORDS..]);
      assert ws[..LINE_WORDS] + ws[LINE_WORDS..] == ws;
    } else if |ws| > 0 {
      assert ws + [] == ws;
    }
  }

  /** There are ceil(|ws| / LINE_WORDS) chunks. */
  lemma {:induction false} ChunkCount(ws: seq<string>)
    ensures |Chunks(ws)| == (|ws| + LINE_WORDS - 1) / LINE_WORDS
    decreases |ws|
  {
    if |ws| > LINE_WORDS {
      ChunkCount(ws[LINE_WORDS..]);
    }
  }

  /** Chunk k holds words [k*LINE_WORDS, min((k+1)*LINE_WORDS, |ws|)). */
  lemma {:induction false} ChunkAt(ws: seq<string>, k: int)
    requires 0 <= k < |Chunks(ws)|
    ensures k * LINE_WORDS < |ws|
    ensures Chunks(ws)[k] == ws[k * LINE_WORDS..Min((k + 1) * LINE_WORDS, |ws|)]
    decreases |ws|
  {
    if |ws| > LINE_WORDS && k > 0 {
      var rest := ws[LINE_WORDS..];
      assert Chunks(ws)[k] == Chunks(rest)[k - 1];
      ChunkAt(rest, k - 1);
      DropThenSlice(ws, LINE_WORDS, (k - 1) * LINE_WORDS, Min(k * LINE_WORDS, |rest|));
    }
  }

  /** Slicing after dropping d elements is slicing shifted by d. */
  lemma DropThenSlice<T>(s: seq<T>, d: int, i: int, j: int)
    requires 0 <= d <= |s| && 0 <= i <= j <= |s| - d
    ensures s[d..][i..j] == s[d + i..d + j]
  {
  }

  /** The shape of the file: ceil(|ws| / LINE_WORDS) lines, line k holding words
      [k*LINE_WORDS, min((k+1)*LINE_WORDS, |ws|)); every line but the last is
      full and the last holds between 1 and LINE_WORDS words. */
  lemma ChunkShape(ws: seq<string>)
    ensures |Chunks(ws)| == (|ws| + LINE_WORDS - 1) / LINE_WORDS
    ensures forall k :: 0 <= k < |Chunks(ws)| ==>
      k * LINE_WORDS < |ws| && Chunks(ws)[k] == ws[k * LINE_WORDS..Min((k + 1) * LINE_WORDS, |ws|)]
    ensures forall k :: 0 <= k < |Chunks(ws)| - 1 ==> |Chunks(ws)[k]| == LINE_WORDS
    ensures |Chunks(ws)| > 0 ==> 0 < |Chunks(ws)[|Chunks(ws)| - 1]| <= LINE_WORDS
  {
    ChunkCount(ws);
    var cs := Chunks(ws);
    forall k | 0 <= k < |cs|
      ensures k * LINE_WORDS < |ws| && cs[k] == ws[k * LINE_WORDS..Min((k + 1) * LINE_WORDS, |ws|)]
    {
      ChunkAt(ws, k);
    }
    forall k | 0 <= k < |cs| - 1 ensures |cs[k]| == LINE_WORDS {
      ChunkAt(ws, k);
      ChunkAt(ws, k + 1);
    }
    if |cs| > 0 {
      ChunkAt(ws, |cs| - 1);
    }
  }

  /** Every line of the file, split again, gives back its chunk of words. */
  lemma LinesResplit(ws: seq<string>)
    requires AllWords(ws)
    ensures |JoinEach(Chunks(ws))| == |Chunks(ws)|
    ensures forall k :: 0 <= k < |Chunks(ws)| ==>
      Split(JoinEach(Chunks(ws))[k]) == Chunks(ws)[k]
  {
    ChunkShape(ws);
    var cs := Chunks(ws);
    JoinEachAt(cs);
    forall k | 0 <= k < |cs| ensures Split(JoinEach(cs)[k]) == cs[k] {
      AllWordsSlice(ws, k * LINE_WORDS, Min((k + 1) * LINE_WORDS, |ws|));
      SplitJoin(cs[k]);
    }
  }

  lemma {:induction false} JoinEachAt(cs: seq<seq<string>>)
    ensures |JoinEach(cs)| == |cs|
    ensures forall k :: 0 <= k < |cs| ==> JoinEach(cs)[k] == Join(cs[k])
  {
    if |cs| > 0 {
      JoinEachAt(cs[1..]);
    }
  }

  /** Writing the chunk that starts at word i leaves the chunks after it. */
  lemma ChunksStep(words: seq<string>, i: int)
    requires 0 <= i < |words|
    ensures JoinEach(Chunks(words[i..])) ==
      [Join(words[i..Min(i + LINE_WORDS, |words|)])] + JoinEach(Chunks(words[Min(i + LINE_WORDS, |words|)..]))
  {
    var rest := words[i..];
    var stop := Min(i + LINE_WORDS, |words|);
    if |rest| > LINE_WORDS {
      assert rest[..LINE_WORDS] == words[i..stop];
      assert rest[LINE_WORDS..] == words[stop..];
    } else {
      assert rest == words[i..stop];
      assert words[stop..] == [];
    }
  }

  lemma AppendAssoc<T>(a: seq<T>, b: seq<T>, c: seq<T>, whole: seq<T>)
    requires a + (b + c) == whole
    ensures (a + b) + c == whole
  {
  }

  /** The loop of lines 46-47: one line per 15-word chunk, in order. */
  method WriteTranscript(words: seq<string>) returns (lines: seq<string>)
    ensures lines == JoinEach(Chunks(words))
  {
    lines := [];
    var i := 0;
    while i < |words|
      invariant 0 <= i
      invariant lines + JoinEach(Chunks(words[Min(i, |words|)..]))
        == JoinEach(Chunks(words))
    {
      var stop := Min(i + LINE_WORDS, |words|);
      ChunksStep(words, i);
      AppendAssoc(lines, [Join(words[i..stop])], JoinEach(Chunks(words[stop..])), JoinEach(Chunks(words)));
      lines := lines + [Join(words[i..stop])];
      i := i + LINE_WORDS;
    }
    assert words[|words|..] == [];
  }
}
