/** `countingSort` from the OpenMP example: find the largest element, count the
    occurrences of every value `0 .. max` (in parallel, with atomic increments, which
    amount to the same counts), then rewrite the array in place value by value. */
module CountingSort {

  predicate Sorted(s: seq<int>)
  {
    forall i, j :: 0 <= i < j < |s| ==> s[i] <= s[j]
  }

  /** `n` copies of `v` (none when `n` is not positive, as the `j < count[i]` loop). */
  function Repeat(v: int, n: int): seq<int>
  {
    if n <= 0 then [] else Repeat(v, n - 1) + [v]
  }

  /** What the write-back loop has produced after the values `0 .. k - 1`. */
  function Expand(c: seq<int>, k: nat): seq<int>
    requires k <= |c|
  {
    if k == 0 then [] else Expand(c, k - 1) + Repeat(k - 1, c[k - 1])
  }

  lemma {:induction false} RepeatFacts(v: int, n: int)
    ensures |Repeat(v, n)| == (if n <= 0 then 0 else n)
    ensures forall i :: 0 <= i < |Repeat(v, n)| ==> Repeat(v, n)[i] == v
  {
    if n > 0 {
      RepeatFacts(v, n - 1);
    }
  }

  /** The number of times `v` occurs in `s`. */
  function Occurrences(s: seq<int>, v: int): nat
  {
    if s == [] then 0
    else Occurrences(s[..|s| - 1], v) + (if s[|s| - 1] == v then 1 else 0)
  }

  /** The occurrence count is the element's multiplicity in the multiset of `s`. */
  lemma {:induction false} OccurrencesIsMultiplicity(s: seq<int>, v: int)
    ensures Occurrences(s, v) == multiset(s)[v]
  {
    if s != [] {
      var p := s[..|s| - 1];
      OccurrencesIsMultiplicity(p, v);
      assert s == p + [s[|s| - 1]];
    }
  }

  /** Occurrences in a concatenation add up. */
  lemma {:induction false} OccurrencesConcat(a: seq<int>, b: seq<int>, v: int)
    ensures Occurrences(a + b, v) == Occurrences(a, v) + Occurrences(b, v)
  {
    if b == [] {
      assert a + b == a;
    } else {
      var p := b[..|b| - 1];
      OccurrencesConcat(a, p, v);
      assert (a + b)[..|a + b| - 1] == a + p;
      assert (a + b)[|a + b| - 1] == b[|b| - 1];
    }
  }

  /** `n` copies of `v` hold `v` exactly `n` times and nothing else. */
  lemma {:induction false} RepeatCount(v: int, n: int, w: int)
    ensures Occurrences(Repeat(v, n), w) == (if w == v && n > 0 then n else 0)
  {
    if n > 0 {
      RepeatCount(v, n - 1, w);
      assert Repeat(v, n)[..|Repeat(v, n)| - 1] == Repeat(v, n - 1);
    }
  }

  /** The first `k` values expanded are sorted and lie in `[0, k)`. */
  lemma {:induction false} ExpandSorted(c: seq<int>, k: nat)
    requires k <= |c|
    ensures Sorted(Expand(c, k))
    ensures forall i :: 0 <= i < |Expand(c, k)| ==> 0 <= Expand(c, k)[i] < k
  {
    if k > 0 {
      ExpandSorted(c, k - 1);
      RepeatFacts(k - 1, c[k - 1]);
      var e, r := Expand(c, k - 1), Repeat(k - 1, c[k - 1]);
      assert Expand(c, k) == e + r;
      forall i | 0 <= i < |e + r|
        ensures (e + r)[i] == (if i < |e| then e[i] else k - 1)
      {
      }
    }
  }

  /** The first `k` values expanded hold each value `v < k` exactly `c[v]` times (none for
      a count that is not positive) and nothing else. */
  lemma {:induction false} ExpandOccurrences(c: seq<int>, k: nat, v: int)
    requires k <= |c|
    ensures Occurrences(Expand(c, k), v) == (if 0 <= v < k && c[v] > 0 then c[v] else 0)
  {
    if k > 0 {
      ExpandOccurrences(c, k - 1, v);
      RepeatCount(k - 1, c[k - 1], v);
      OccurrencesConcat(Expand(c, k - 1), Repeat(k - 1, c[k - 1]), v);
    }
  }

  /** The same, as multiplicities. */
  lemma ExpandCount(c: seq<int>, k: nat, v: int)
    requires k <= |c|
    ensures multiset(Expand(c, k))[v] == (if 0 <= v < k && c[v] > 0 then c[v] else 0)
  {
    ExpandOccurrences(c, k, v);
    OccurrencesIsMultiplicity(Expand(c, k), v);
  }

  /** Expanding more values only appends. */
  lemma {:induction false} ExpandGrows(c: seq<int>, i: nat, k: nat)
    requires i <= k <= |c|
    ensures |Expand(c, i)| <= |Expand(c, k)|
    ensures Expand(c, k)[..|Expand(c, i)|] == Expand(c, i)
  {
    if i < k {
      ExpandGrows(c, i, k - 1);
    }
  }

  /** The occurrence counts of `s` for the values `0 .. max`. */
  function Counts(s: seq<int>, max: nat): (c: seq<int>)
    ensures |c| == max + 1 && forall v :: 0 <= v <= max ==> c[v] == multiset(s)[v]
  {
    seq(max + 1, v => multiset(s)[v])
  }

  /** The counting-sort specification: for values in `[0, max]`, expanding their counts
      gives a sorted sequence with exactly the same elements, hence the same length. */
  lemma CountingSortCorrect(s: seq<int>, max: nat)
    requires forall i :: 0 <= i < |s| ==> 0 <= s[i] <= max
    ensures Sorted(Expand(Counts(s, max), max + 1))
    ensures multiset(Expand(Counts(s, max), max + 1)) == multiset(s)
    ensures |Expand(Counts(s, max), max + 1)| == |s|
  {
    var c := Counts(s, max);
    ExpandSorted(c, max + 1);
    forall v
      ensures multiset(Expand(c, max + 1))[v] == multiset(s)[v]
    {
      ExpandCount(c, max + 1, v);
      if !(0 <= v <= max) {
        assert v !in multiset(s);
      }
    }
    assert multiset(Expand(c, max + 1)) == multiset(s);
    assert |multiset(Expand(c, max + 1))| == |multiset(s)|;
  }

  /** The head of a sorted sequence is its least element. */
  lemma SortedHeadIsLeast(s: seq<int>, x: int)
    requires Sorted(s) && x in multiset(s)
    ensures |s| > 0 && s[0] <= x
  {
    var j :| 0 <= j < |s| && s[j] == x;
  }

  /** A non-empty sequence holds its head once more than its tail does. */
  lemma HeadAndTail(s: seq<int>)
    requires |s| > 0
    ensures multiset(s) == multiset{s[0]} + multiset(s[1..])
  {
    assert s == [s[0]] + s[1..];
  }

  /** Two sequences with the same elements and the same head have tails with the same
      elements. */
  lemma SameTails(a: seq<int>, b: seq<int>)
    requires |a| > 0 && |b| > 0 && a[0] == b[0] && multiset(a) == multiset(b)
    ensures multiset(a[1..]) == multiset(b[1..])
  {
    HeadAndTail(a);
    HeadAndTail(b);
    forall y
      ensures multiset(a[1..])[y] == multiset(b[1..])[y]
    {
      assert multiset(a)[y] == multiset(b)[y];
    }
  }

  lemma SortedTail(s: seq<int>)
    requires |s| > 0 && Sorted(s)
    ensures Sorted(s[1..])
  {
    forall i, j | 0 <= i < j < |s| - 1
      ensures s[1..][i] <= s[1..][j]
    {
      assert s[1..][i] == s[i + 1] && s[1..][j] == s[j + 1];
    }
  }

  /** Two sorted sequences with the same elements are equal: the counting sort's output
      is the only sorted rearrangement of its input. */
  lemma {:induction false} SortedPermutationUnique(a: seq<int>, b: seq<int>)
    requires Sorted(a) && Sorted(b) && multiset(a) == multiset(b)
    ensures a == b
  {
    assert |a| == |multiset(a)| == |multiset(b)| == |b|;
    if a != [] {
      SortedHeadIsLeast(b, a[0]);
      SortedHeadIsLeast(a, b[0]);
      SameTails(a, b);
      SortedTail(a);
      SortedTail(b);
      SortedPermutationUnique(a[1..], b[1..]);
      assert a == [a[0]] + a[1..];
    }
  }

  /** The first loop: `maxElement` starts at `arr[0]` and ends as the largest element. */
  method FindMax(arr: array<int>) returns (maxElement: int)
    requires arr.Length > 0
    ensures exists k :: 0 <= k < arr.Length && arr[k] == maxElement
    ensures forall k :: 0 <= k < arr.Length ==> arr[k] <= maxElement
  {
    maxElement := arr[0];
    var i := 1;
    while i < arr.Length
      invariant 1 <= i <= arr.Length
      invariant exists k :: 0 <= k < i && arr[k] == maxElement
      invariant forall k :: 0 <= k < i ==> arr[k] <= maxElement
    {
      if arr[i] > maxElement {
        maxElement := arr[i];
      }
      i := i + 1;
    }
  }

  /** The second loop: `count[v]` ends as the number of occurrences of `v`. */
  method CountOccurrences(arr: array<int>, maxElement: nat) returns (count: array<int>)
    requires forall k :: 0 <= k < arr.Length ==> 0 <= arr[k] <= maxElement
    ensures fresh(count) && count[..] == Counts(arr[..], maxElement)
  {
    count := new int[maxElement + 1](_ => 0);
    var i := 0;
    while i < arr.Length
      invariant 0 <= i <= arr.Length
      invariant count.Length == maxElement + 1
      invariant forall v :: 0 <= v <= maxElement ==> count[v] == multiset(arr[..i])[v]
    {
      assert arr[..i + 1] == arr[..i] + [arr[i]];
      count[arr[i]] := count[arr[i]] + 1;
      i := i + 1;
    }
    assert arr[..arr.Length] == arr[..];
  }

  /** The third loop: writes `count[v]` copies of each `v`, in increasing `v`, through the
      running `index`; the array ends as the expansion of the counts. */
  method WriteBack(arr: array<int>, c: seq<int>)
    requires |Expand(c, |c|)| == arr.Length
    modifies arr
    ensures arr[..] == Expand(c, |c|)
  {
    var index := 0;
    var i := 0;
    while i < |c|
      invariant 0 <= i <= |c|
      invariant index == |Expand(c, i)| <= arr.Length
      invariant arr[..index] == Expand(c, i)
    {
      ExpandGrows(c, i + 1, |c|);
      RepeatFacts(i, c[i]);
      assert Expand(c, i + 1) == Expand(c, i) + Repeat(i, c[i]);
      var j := 0;
      while j < c[i]
        invariant 0 <= j <= (if c[i] > 0 then c[i] else 0)
        invariant index == |Expand(c, i)| + j <= arr.Length
        invariant arr[..index] == Expand(c, i) + Repeat(i, j)
      {
        RepeatFacts(i, j + 1);
        ghost var written := arr[..index];
        arr[index] := i;
        assert arr[..index + 1] == written + [i];
        assert Repeat(i, j + 1) == Repeat(i, j) + [i];
        index := index + 1;
        j := j + 1;
      }
      assert Repeat(i, j) == Repeat(i, c[i]);
      i := i + 1;
    }
    assert arr[..] == arr[..index];
  }

  /** `countingSort`: on a non-empty array of non-negative values (it reads `arr[0]` and
      indexes `count[arr[i]]`), the array ends sorted and holding the same elements. */
  method CountingSort(arr: array<int>)
    requires arr.Length > 0
    requires forall k :: 0 <= k < arr.Length ==> arr[k] >= 0
    modifies arr
    ensures Sorted(arr[..])
    ensures multiset(arr[..]) == multiset(old(arr[..]))
  {
    var maxElement := FindMax(arr);
    var count := CountOccurrences(arr, maxElement);
    CountingSortCorrect(arr[..], maxElement);
    WriteBack(arr, count[..]);
  }

  /** The example: {4, 2, 2, 8, 3, 3, 1} becomes {1, 2, 2, 3, 3, 4, 8}. */
  method Example() returns (sorted: seq<int>)
    ensures sorted == [1, 2, 2, 3, 3, 4, 8]
  {
    var arr := new int[7];
    arr[0], arr[1], arr[2], arr[3], arr[4], arr[5], arr[6] := 4, 2, 2, 8, 3, 3, 1;
    ghost var input := arr[..];
    assert input == [4, 2, 2, 8, 3, 3, 1];
    CountingSort(arr);
    sorted := arr[..];
    ExampleOutput(input, sorted);
  }

  /** The example's occurrence counts for the values 0 .. 8. */
  lemma ExampleCounts(input: seq<int>)
    requires input == [4, 2, 2, 8, 3, 3, 1]
    ensures Counts(input, 8) == [0, 1, 2, 2, 1, 0, 0, 0, 1]
  {
    ExampleElements();
    ExampleMultiplicities();
  }

  /** The example's input holds 4, 2, 2, 8, 3, 3 and 1. */
  lemma ExampleElements()
    ensures multiset([4, 2, 2, 8, 3, 3, 1]) == multiset{4, 2, 2, 8, 3, 3, 1}
  {
  }

  /** How often each value 0 .. 8 occurs among those elements. */
  lemma ExampleMultiplicities()
    ensures var m := multiset{4, 2, 2, 8, 3, 3, 1};
      m[0] == 0 && m[1] == 1 && m[2] == 2 && m[3] == 2 && m[4] == 1
      && m[5] == 0 && m[6] == 0 && m[7] == 0 && m[8] == 1
  {
  }

  /** Expanding those counts gives {1, 2, 2, 3, 3, 4, 8}. */
  lemma ExampleExpand()
    ensures Expand([0, 1, 2, 2, 1, 0, 0, 0, 1], 9) == [1, 2, 2, 3, 3, 4, 8]
  {
  }

  /** A sorted rearrangement of values in `[0, max]` is the expansion of their counts. */
  lemma SortedIsExpansion(s: seq<int>, output: seq<int>, max: nat)
    requires forall i :: 0 <= i < |s| ==> 0 <= s[i] <= max
    requires Sorted(output) && multiset(output) == multiset(s)
    ensures output == Expand(Counts(s, max), max + 1)
  {
    CountingSortCorrect(s, max);
    SortedPermutationUnique(output, Expand(Counts(s, max), max + 1));
  }

  /** The only sorted rearrangement of the example's input is the expected output. */
  lemma ExampleOutput(input: seq<int>, output: seq<int>)
    requires input == [4, 2, 2, 8, 3, 3, 1]
    requires Sorted(output) && multiset(output) == multiset(input)
    ensures output == [1, 2, 2, 3, 3, 4, 8]
  {
    SortedIsExpansion(input, output, 8);
    ExampleCounts(input);
    ExampleExpand();
  }
}
