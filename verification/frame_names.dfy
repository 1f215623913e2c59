/** Frame file names: `extract_frames` saves frame k as `str(k) + ".jpg"`
    (generate_subtitles.py line 104) and `create_video` keeps the `.jpg`
    names of the folder and sorts them by `int(name.split(".")[0])` (lines
    120-121), so that frame 10 comes after frame 9 and not after frame 1. */
module FrameNames {
  import opened Outcomes

  predicate IsDigit(c: char) {
    '0' <= c <= '9'
  }

  predicate AllDigits(s: string) {
    forall i :: 0 <= i < |s| ==> IsDigit(s[i])
  }

  function DigitChar(d: int): char
    requires 0 <= d < 10
  {
    ('0' as int + d) as char
  }

  function DigitValue(c: char): int
    requires IsDigit(c)
  {
    c as int - '0' as int
  }

  /** `str(k)` for a non-negative integer: its decimal digits. */
  function Decimal(k: nat): (s: string)
    ensures |s| > 0 && AllDigits(s)
  {
    if k < 10 then [DigitChar(k)] else Decimal(k / 10) + [DigitChar(k % 10)]
  }

  /** `int(s)` for a string of ASCII decimal digits. */
  function ParseDecimal(s: string): nat
    requires AllDigits(s)
  {
    if |s| == 0 then 0 else ParseDecimal(s[..|s| - 1]) * 10 + DigitValue(s[|s| - 1])
  }

  /** `int(str(k)) == k` */
  lemma {:induction false} ParseDecimalOfDecimal(k: nat)
    ensures ParseDecimal(Decimal(k)) == k
  {
    var s := Decimal(k);
    if k >= 10 {
      ParseDecimalOfDecimal(k / 10);
      assert s[..|s| - 1] == Decimal(k / 10);
    }
  }

  /** The name line 104 gives the k-th frame read. */
  function FrameFileName(k: nat): string {
    Decimal(k) + ".jpg"
  }

  /** `name.endswith(".jpg")` */
  predicate IsJpg(name: string) {
    |name| >= 4 && name[|name| - 4..] == ".jpg"
  }

  /** `name.split(".")[0]`: everything before the first dot. */
  function BeforeFirstDot(s: string): (p: string)
    ensures p <= s && '.' !in p
    ensures |p| < |s| ==> s[|p|] == '.'
  {
    if |s| == 0 || s[0] == '.' then "" else [s[0]] + BeforeFirstDot(s[1..])
  }

  /** Names whose sort key `int(name.split(".")[0])` can be computed. */
  predicate HasFrameNumber(name: string) {
    var p := BeforeFirstDot(name);
    |p| > 0 && AllDigits(p)
  }

  /** The sort key of line 121. */
  function FrameNumber(name: string): nat
    requires HasFrameNumber(name)
  {
    ParseDecimal(BeforeFirstDot(name))
  }

  lemma {:induction false} BeforeFirstDotOfDigits(p: string, t: string)
    requires AllDigits(p) && |t| > 0 && t[0] == '.'
    ensures BeforeFirstDot(p + t) == p
    decreases |p|
  {
    if |p| == 0 {
      assert p + t == t;
    } else {
      assert (p + t)[1..] == p[1..] + t;
      BeforeFirstDotOfDigits(p[1..], t);
      assert p == [p[0]] + p[1..];
    }
  }

  /** The name written for frame k is a `.jpg` name whose sort key is k. */
  lemma FrameNumberOfFileName(k: nat)
    ensures IsJpg(FrameFileName(k))
    ensures HasFrameNumber(FrameFileName(k)) && FrameNumber(FrameFileName(k)) == k
  {
    BeforeFirstDotOfDigits(Decimal(k), ".jpg");
    ParseDecimalOfDecimal(k);
  }

  /** Distinct frames are saved under distinct names. */
  lemma FileNameInjective(a: nat, b: nat)
    ensures FrameFileName(a) == FrameFileName(b) ==> a == b
  {
    FrameNumberOfFileName(a);
    FrameNumberOfFileName(b);
  }

  predicate AllNumbered(s: seq<string>) {
    forall x :: x in s ==> HasFrameNumber(x)
  }

  /** Ascending by sort key. */
  predicate SortedByNumber(s: seq<string>)
    requires AllNumbered(s)
  {
    forall i, j :: 0 <= i < j < |s| ==> FrameNumber(s[i]) <= FrameNumber(s[j])
  }

  /** A key no larger than every key of a sorted sequence can go in front. */
  lemma SortedCons(h: string, t: seq<string>)
    requires HasFrameNumber(h) && AllNumbered(t) && SortedByNumber(t)
    requires forall y :: y in t ==> FrameNumber(h) <= FrameNumber(y)
    ensures AllNumbered([h] + t) && SortedByNumber([h] + t)
  {
    var r := [h] + t;
    forall i, j | 0 <= i < j < |r| ensures FrameNumber(r[i]) <= FrameNumber(r[j]) {
      assert r[j] == t[j - 1];
      if i > 0 {
        assert r[i] == t[i - 1];
      }
    }
  }

  /** Insert x before the first element whose key is not smaller than x's. */
  function Insert(x: string, s: seq<string>): (r: seq<string>)
    requires HasFrameNumber(x) && AllNumbered(s) && SortedByNumber(s)
    ensures multiset(r) == multiset(s) + multiset{x}
    ensures AllNumbered(r) && SortedByNumber(r)
  {
    if |s| == 0 then [x]
    else
      SortedHeadLeast(s);
      if FrameNumber(x) <= FrameNumber(s[0]) then
        SortedCons(x, s);
        [x] + s
      else
        var rest := Insert(x, s[1..]);
        LowerBoundKept(s[0], x, s[1..], rest);
        SortedCons(s[0], rest);
        ConsMultiset(s[0], s[1..]);
        [s[0]] + rest
  }

  /** The head of a sorted sequence has the least key, and its tail is
      sorted. */
  lemma SortedHeadLeast(s: seq<string>)
    requires AllNumbered(s) && SortedByNumber(s) && |s| > 0
    ensures forall y :: y in s[1..] ==> FrameNumber(s[0]) <= FrameNumber(y)
    ensures AllNumbered(s[1..]) && SortedByNumber(s[1..])
    ensures multiset(s) == multiset{s[0]} + multiset(s[1..])
  {
    SortedTail(s);
    ConsMultiset(s[0], s[1..]);
    assert s == [s[0]] + s[1..];
  }

  /** A key below those of x and of s is below those of any rearrangement
      of s with x added. */
  lemma LowerBoundKept(h: string, x: string, s: seq<string>, r: seq<string>)
    requires HasFrameNumber(h) && HasFrameNumber(x) && AllNumbered(s)
    requires multiset(r) == multiset(s) + multiset{x}
    requires FrameNumber(h) <= FrameNumber(x)
    requires forall y :: y in s ==> FrameNumber(h) <= FrameNumber(y)
    ensures AllNumbered(r)
    ensures forall y :: y in r ==> FrameNumber(h) <= FrameNumber(y)
  {
    forall y | y in r ensures HasFrameNumber(y) && FrameNumber(h) <= FrameNumber(y) {
      assert y in multiset(r);
      assert y == x || y in multiset(s);
    }
  }

  lemma ConsMultiset<T>(h: T, t: seq<T>)
    ensures multiset([h] + t) == multiset{h} + multiset(t)
  {
  }

  /** `list.sort(key=...)` on names whose keys all exist: a stable insertion
      sort, specified by its result being ordered and a permutation. */
  function SortByNumber(s: seq<string>): (r: seq<string>)
    requires AllNumbered(s)
    ensures multiset(r) == multiset(s)
    ensures AllNumbered(r) && SortedByNumber(r)
  {
    if |s| == 0 then []
    else
      assert s == [s[0]] + s[1..];
      Insert(s[0], SortByNumber(s[1..]))
  }

  /** Line 121: the sort raises ValueError when some name has no numeric
      prefix; otherwise the names come back ordered by frame number, as a
      permutation of the listing. */
  function SortFrameNames(names: seq<string>): (r: Result<seq<string>>)
    ensures r.Ok? <==> AllNumbered(names)
    ensures r.Err? ==> r.error == BadFrameName
    ensures r.Ok? ==>
      multiset(r.value) == multiset(names) && AllNumbered(r.value) && SortedByNumber(r.value)
  {
    if AllNumbered(names) then Ok(SortByNumber(names)) else Err(BadFrameName)
  }

  /** Keys distinct among the elements of s. */
  predicate DistinctNumbers(s: seq<string>)
    requires AllNumbered(s)
  {
    forall x, y :: x in s && y in s && FrameNumber(x) == FrameNumber(y) ==> x == y
  }

  /** Two orderings by key of the same names are the same sequence when no
      two names share a key. */
  lemma {:induction false} SortedUnique(a: seq<string>, b: seq<string>)
    requires AllNumbered(a) && AllNumbered(b)
    requires SortedByNumber(a) && SortedByNumber(b)
    requires multiset(a) == multiset(b) && DistinctNumbers(a)
    ensures a == b
    decreases |a|
  {
    if |a| == 0 {
      assert |multiset(b)| == 0;
    } else {
      assert a[0] in multiset(b);
      SameHead(a, b);
      TailMultiset(a, b);
      SortedTail(a);
      SortedTail(b);
      SortedUnique(a[1..], b[1..]);
      HeadTailEqual(a, b);
    }
  }

  lemma HeadTailEqual<T>(a: seq<T>, b: seq<T>)
    requires |a| > 0 && |b| > 0 && a[0] == b[0] && a[1..] == b[1..]
    ensures a == b
  {
    assert a == [a[0]] + a[1..];
    assert b == [b[0]] + b[1..];
  }

  lemma SameHead(a: seq<string>, b: seq<string>)
    requires AllNumbered(a) && AllNumbered(b)
    requires SortedByNumber(a) && SortedByNumber(b)
    requires multiset(a) == multiset(b) && DistinctNumbers(a)
    requires |a| > 0 && |b| > 0
    ensures a[0] == b[0]
  {
    assert a[0] in multiset(b) && b[0] in multiset(a);
    var m :| 0 <= m < |b| && b[m] == a[0];
    var m' :| 0 <= m' < |a| && a[m'] == b[0];
    assert FrameNumber(a[0]) <= FrameNumber(a[m']);
    assert FrameNumber(b[0]) <= FrameNumber(b[m]);
  }

  lemma TailMultiset<T>(a: seq<T>, b: seq<T>)
    requires |a| > 0 && |b| > 0 && a[0] == b[0] && multiset(a) == multiset(b)
    ensures multiset(a[1..]) == multiset(b[1..])
  {
    assert a == [a[0]] + a[1..] && b == [b[0]] + b[1..];
    assert multiset(a[1..]) == multiset(a) - multiset{a[0]};
    assert multiset(b[1..]) == multiset(b) - multiset{b[0]};
  }

  lemma SortedTail(a: seq<string>)
    requires AllNumbered(a) && SortedByNumber(a) && |a| > 0
    ensures AllNumbered(a[1..]) && SortedByNumber(a[1..])
    ensures DistinctNumbers(a) ==> DistinctNumbers(a[1..])
  {
    assert forall x :: x in a[1..] ==> x in a;
    forall i, j | 0 <= i < j < |a| - 1
      ensures FrameNumber(a[1..][i]) <= FrameNumber(a[1..][j])
    {
      assert a[1..][i] == a[i + 1] && a[1..][j] == a[j + 1];
    }
  }

  /** The names written for frames 0..k-1, in frame order. */
  function FrameFileNames(k: nat): seq<string> {
    seq(k, i requires 0 <= i => FrameFileName(i))
  }

  lemma FrameFileNamesOrdered(k: nat)
    ensures AllNumbered(FrameFileNames(k))
    ensures forall i :: 0 <= i < k ==> FrameNumber(FrameFileNames(k)[i]) == i
    ensures SortedByNumber(FrameFileNames(k)) && DistinctNumbers(FrameFileNames(k))
  {
    var s := FrameFileNames(k);
    forall i | 0 <= i < k ensures HasFrameNumber(s[i]) && FrameNumber(s[i]) == i {
      FrameNumberOfFileName(i);
    }
  }

  /** Whatever order the folder is listed in, sorting the names of frames
      0..k-1 by their numeric prefix restores frame order. */
  lemma SortRestoresFrameOrder(listing: seq<string>, k: nat)
    requires multiset(listing) == multiset(FrameFileNames(k))
    ensures SortFrameNames(listing) == Ok(FrameFileNames(k))
  {
    var names := FrameFileNames(k);
    FrameFileNamesOrdered(k);
    PermutationNumbered(listing, names);
    var sorted := SortByNumber(listing);
    SortedUnique(names, sorted);
  }

  /** A permutation of numbered names is numbered. */
  lemma PermutationNumbered(a: seq<string>, b: seq<string>)
    requires multiset(a) == multiset(b) && AllNumbered(b)
    ensures AllNumbered(a)
  {
    forall x | x in a ensures HasFrameNumber(x) {
      assert x in multiset(b);
    }
  }

  predicate NoDuplicates<T(==)>(s: seq<T>) {
    forall i, j :: 0 <= i < j < |s| ==> s[i] != s[j]
  }

  /** In a sequence without duplicates every element occurs once. */
  lemma {:induction false} DistinctCounts<T>(s: seq<T>, x: T)
    requires NoDuplicates(s)
    ensures multiset(s)[x] == if x in s then 1 else 0
  {
    if |s| > 0 {
      assert s == [s[0]] + s[1..];
      assert NoDuplicates(s[1..]) by {
        forall i, j | 0 <= i < j < |s| - 1 ensures s[1..][i] != s[1..][j] {
          assert s[1..][i] == s[i + 1] && s[1..][j] == s[j + 1];
        }
      }
      DistinctCounts(s[1..], x);
      assert s[0] !in s[1..] by {
        forall k | 0 <= k < |s| - 1 ensures s[1..][k] != s[0] {
          assert s[1..][k] == s[k + 1];
        }
      }
    }
  }

  /** Two duplicate-free listings of the same names are permutations of each
      other. */
  lemma DistinctSameElements<T>(a: seq<T>, b: seq<T>)
    requires NoDuplicates(a) && NoDuplicates(b)
    requires forall x :: x in a <==> x in b
    ensures multiset(a) == multiset(b)
  {
    forall x ensures multiset(a)[x] == multiset(b)[x] {
      DistinctCounts(a, x);
      DistinctCounts(b, x);
    }
  }

  /** The names of frames 0..k-1 are pairwise distinct. */
  lemma FrameFileNamesDistinct(k: nat)
    ensures NoDuplicates(FrameFileNames(k))
  {
    forall i, j | 0 <= i < j < k ensures FrameFileNames(k)[i] != FrameFileNames(k)[j] {
      FileNameInjective(i, j);
    }
  }

  /** Numeric, not lexicographic: "9.jpg" sorts before "10.jpg". */
  lemma NineBeforeTen()
    ensures SortFrameNames(["10.jpg", "9.jpg"]) == Ok(["9.jpg", "10.jpg"])
  {
    assert Decimal(10) == Decimal(1) + [DigitChar(0)] == "10";
    assert FrameFileName(9) == "9.jpg";
    assert FrameFileName(10) == "10.jpg";
    LaterNameSortsLater(9, 10);
  }

  /** Two frame names listed in the wrong order come out in frame order. */
  lemma LaterNameSortsLater(i: nat, j: nat)
    requires i < j
    ensures SortFrameNames([FrameFileName(j), FrameFileName(i)])
      == Ok([FrameFileName(i), FrameFileName(j)])
  {
    var a, b := FrameFileName(i), FrameFileName(j);
    FrameNumberOfFileName(i);
    FrameNumberOfFileName(j);
    assert [b, a][1..] == [a];
    assert SortByNumber([a]) == [a];
    assert Insert(b, [a]) == [a, b];
  }
}
