/** Python's `str.split()` with no argument and `' '.join(...)`, the two
    string operations the transcript goes through (generate_subtitles.py
    lines 45, 47, 52 and 64). */
module Words {

  /** The characters `str.isspace()` accepts: ASCII tab to carriage return,
      the four information separators, space, NEL, no-break space and the
      Unicode space separators and line/paragraph separators. */
  predicate IsSpace(c: char) {
    var k := c as int;
    k == 0x20 || 0x09 <= k <= 0x0D || 0x1C <= k <= 0x1F || k == 0x85 || k == 0xA0
    || k == 0x1680 || 0x2000 <= k <= 0x200A || k == 0x2028 || k == 0x2029
    || k == 0x202F || k == 0x205F || k == 0x3000
  }

  /** A token `split()` can produce: non-empty and free of whitespace. */
  predicate IsWord(w: string) {
    |w| > 0 && forall k :: 0 <= k < |w| ==> !IsSpace(w[k])
  }

  predicate AllWords(ws: seq<string>) {
    forall k :: 0 <= k < |ws| ==> IsWord(ws[k])
  }

  /** Length of the run of non-space characters at the start of `s`. */
  function WordLength(s: string): (n: nat)
    ensures n <= |s|
    ensures forall k :: 0 <= k < n ==> !IsSpace(s[k])
    ensures n < |s| ==> IsSpace(s[n])
  {
    if |s| == 0 || IsSpace(s[0]) then 0 else 1 + WordLength(s[1..])
  }

  /** `s.split()`: the maximal runs of non-space characters, in order. */
  function Split(s: string): (ws: seq<string>)
    ensures AllWords(ws)
    decreases |s|
  {
    if |s| == 0 then []
    else if IsSpace(s[0]) then Split(s[1..])
    else
      var n := WordLength(s);
      [s[..n]] + Split(s[n..])
  }

  /** `' '.join(ws)` */
  function Join(ws: seq<string>): string {
    if |ws| == 0 then ""
    else if |ws| == 1 then ws[0]
    else ws[0] + " " + Join(ws[1..])
  }

  /** The caption of a non-empty word list is non-empty and vice versa. */
  lemma {:induction false} JoinEmpty(ws: seq<string>)
    requires AllWords(ws)
    ensures Join(ws) == "" <==> ws == []
  {
    if |ws| > 0 {
      assert IsWord(ws[0]);
    }
  }

  /** A slice of a word list is a word list. */
  lemma AllWordsSlice(ws: seq<string>, a: int, b: int)
    requires AllWords(ws) && 0 <= a <= b <= |ws|
    ensures AllWords(ws[a..b])
  {
    forall k | 0 <= k < b - a ensures IsWord(ws[a..b][k]) {
      assert ws[a..b][k] == ws[a + k];
    }
  }

  /** A word followed by a space (or nothing) is read back as one token. */
  lemma {:induction false} WordLengthOfWord(w: string, t: string)
    requires IsWord(w)
    requires t == [] || IsSpace(t[0])
    ensures WordLength(w + t) == |w|
    decreases |w|
  {
    if |w| > 1 {
      assert (w + t)[1..] == w[1..] + t;
      WordLengthOfWord(w[1..], t);
    } else {
      assert (w + t)[1..] == t;
    }
  }

  /** Splitting a space-joined list of words gives the list back. */
  lemma {:induction false} SplitJoin(ws: seq<string>)
    requires AllWords(ws)
    ensures Split(Join(ws)) == ws
    decreases |ws|
  {
    if |ws| == 1 {
      SplitWord(ws[0]);
    } else if |ws| > 1 {
      SplitWordThen(ws[0], Join(ws[1..]));
      SplitJoin(ws[1..]);
      assert ws == [ws[0]] + ws[1..];
    }
  }

  /** A single word splits into itself. */
  lemma SplitWord(w: string)
    requires IsWord(w)
    ensures Split(w) == [w]
  {
    WordLengthOfWord(w, []);
    assert w + [] == w;
    assert w[|w|..] == [];
  }

  /** A word, a space and any text split into the word and the text's split. */
  lemma SplitWordThen(w: string, rest: string)
    requires IsWord(w)
    ensures Split(w + " " + rest) == [w] + Split(rest)
  {
    var s := w + " " + rest;
    assert s == w + (" " + rest);
    WordLengthOfWord(w, " " + rest);
    assert s[..|w|] == w;
    assert s[|w|..] == " " + rest;
    assert (" " + rest)[1..] == rest;
  }

  /** `split()` cuts at every whitespace character: the tokens of text
      around a space are the tokens before it followed by those after it.
      With `Split("") == []` and `SplitWord` this fixes `Split` on every
      string. */
  lemma {:induction false} SplitAtSpace(s: string, c: char, t: string)
    requires IsSpace(c)
    ensures Split(s + [c] + t) == Split(s) + Split(t)
    decreases |s|
  {
    var x := s + [c] + t;
    if |s| == 0 {
      assert x == [c] + t;
      assert x[1..] == t;
    } else if IsSpace(s[0]) {
      assert x[0] == s[0];
      assert x[1..] == s[1..] + [c] + t;
      SplitAtSpace(s[1..], c, t);
    } else {
      var n := WordLength(s);
      WordLengthBeforeSpace(s, [c] + t);
      CutInFirstPart(s, c, t, n);
      SplitAtSpace(s[n..], c, t);
      assert Split(x) == [s[..n]] + Split(x[n..]);
    }
  }

  lemma CutInFirstPart(s: string, c: char, t: string, n: int)
    requires 0 <= n <= |s|
    ensures (s + [c] + t)[..n] == s[..n]
    ensures (s + [c] + t)[n..] == s[n..] + [c] + t
    ensures s + [c] + t == s + ([c] + t)
  {
  }

  /** The leading run of non-space characters stops before a space. */
  lemma {:induction false} WordLengthBeforeSpace(s: string, r: string)
    requires |r| > 0 && IsSpace(r[0])
    ensures WordLength(s + r) == WordLength(s)
    decreases |s|
  {
    if |s| == 0 {
      assert s + r == r;
    } else {
      assert (s + r)[0] == s[0];
      assert (s + r)[1..] == s[1..] + r;
      WordLengthBeforeSpace(s[1..], r);
    }
  }
}
