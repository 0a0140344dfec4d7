/** In-place sorting by an integer key, and the median of the sorted numbers. */
module Sorting {

  ghost predicate SortedBy<T>(s: seq<T>, key: T -> int) {
    forall i, j | 0 <= i < j < |s| :: key(s[i]) <= key(s[j])
  }

  ghost predicate Sorted(s: seq<int>) {
    forall i, j | 0 <= i < j < |s| :: s[i] <= s[j]
  }

  method Swap<T>(a: array<T>, i: nat, j: nat)
    requires i < j < a.Length
    modifies a
    ensures a[..] == old(a[..])[i := old(a[j])][j := old(a[i])]
    ensures multiset(a[..]) == old(multiset(a[..]))
  {
    a[i], a[j] := a[j], a[i];
  }

  /** The result is any permutation in key order; the order of equal keys is left open. */
  method SortInPlace<T>(a: array<T>, key: T -> int)
    modifies a
    ensures SortedBy(a[..], key)
    ensures multiset(a[..]) == old(multiset(a[..]))
  {
    for n := 0 to a.Length
      invariant SortedBy(a[..n], key)
      invariant multiset(a[..]) == old(multiset(a[..]))
    {
      var k := n;
      while k > 0 && key(a[k - 1]) > key(a[k])
        invariant 0 <= k <= n
        invariant forall i, j | 0 <= i < j <= n && j != k :: key(a[i]) <= key(a[j])
        invariant multiset(a[..]) == old(multiset(a[..]))
      {
        Swap(a, k - 1, k);
        k := k - 1;
      }
    }
    assert a[..a.Length] == a[..];
  }

  // ---------------------------------------------------------------------------
  // Numbers
  // ---------------------------------------------------------------------------

  function Insert(x: int, s: seq<int>): seq<int> {
    if s == [] || x <= s[0] then [x] + s else [s[0]] + Insert(x, s[1..])
  }

  function Sort(s: seq<int>): seq<int> {
    if s == [] then [] else Insert(s[0], Sort(s[1..]))
  }

  lemma {:induction false} InsertMultiset(x: int, s: seq<int>)
    ensures multiset(Insert(x, s)) == multiset([x]) + multiset(s)
  {
    if s != [] && x > s[0] {
      InsertMultiset(x, s[1..]);
      assert s == [s[0]] + s[1..];
    }
  }

  lemma {:induction false} InsertSorted(x: int, s: seq<int>)
    requires Sorted(s)
    ensures Sorted(Insert(x, s))
    ensures forall i | 0 <= i < |Insert(x, s)| :: Insert(x, s)[i] == x || Insert(x, s)[i] in s
  {
    if s != [] && x > s[0] {
      InsertSorted(x, s[1..]);
      assert forall y | y in s[1..] :: y in s && y >= s[0];
    }
  }

  lemma {:induction false} InsertLength(x: int, s: seq<int>)
    ensures |Insert(x, s)| == |s| + 1
  {
    if s != [] && x > s[0] {
      InsertLength(x, s[1..]);
    }
  }

  lemma {:induction false} SortOrders(s: seq<int>)
    ensures Sorted(Sort(s))
  {
    if s != [] {
      SortOrders(s[1..]);
      InsertSorted(s[0], Sort(s[1..]));
    }
  }

  lemma {:induction false} SortKeeps(s: seq<int>)
    ensures multiset(Sort(s)) == multiset(s) && |Sort(s)| == |s|
  {
    if s != [] {
      SortKeeps(s[1..]);
      InsertMultiset(s[0], Sort(s[1..]));
      InsertLength(s[0], Sort(s[1..]));
      assert s == [s[0]] + s[1..];
    }
  }

  lemma SortSorts(s: seq<int>)
    ensures Sorted(Sort(s)) && multiset(Sort(s)) == multiset(s) && |Sort(s)| == |s|
  {
    SortOrders(s);
    SortKeeps(s);
  }

  /** Equal contents leave only one sorted arrangement: the least number comes first in each. */
  lemma {:induction false} OneArrangement(s: seq<int>, t: seq<int>)
    requires Sorted(s) && Sorted(t) && multiset(s) == multiset(t)
    ensures s == t
    decreases |s|
  {
    if s == [] {
      assert |multiset(t)| == |t|;
    } else {
      var least := LeastFirst(s, t);
      assert s == [least] + s[1..] && t == [least] + t[1..];
      OneArrangement(s[1..], t[1..]);
    }
  }

  lemma NotAbove(s: seq<int>, t: seq<int>)
    requires s != [] && t != [] && Sorted(s) && multiset(s) == multiset(t)
    ensures s[0] <= t[0]
  {
    var k := PositionOf(t[0], s, t);
  }

  function Without<T>(s: seq<T>, j: nat): (r: seq<T>)
    requires j < |s|
    ensures |r| == |s| - 1
  {
    s[..j] + s[j + 1..]
  }

  lemma SplitAt<T>(s: seq<T>, j: nat)
    requires j < |s|
    ensures s == s[..j] + ([s[j]] + s[j + 1..])
    ensures multiset(s) == multiset(Without(s, j)) + multiset{s[j]}
  {
    assert s == s[..j] + ([s[j]] + s[j + 1..]);
  }

  /** Equal contents stay equal when one occurrence of an element is taken out of each. */
  lemma SameRest<T>(s: seq<T>, i: nat, t: seq<T>, j: nat)
    requires i < |s| && j < |t| && s[i] == t[j] && multiset(s) == multiset(t)
    ensures multiset(Without(s, i)) == multiset(Without(t, j))
  {
    SplitAt(s, i);
    SplitAt(t, j);
    assert multiset(Without(s, i)) == multiset(s) - multiset{s[i]};
    assert multiset(Without(t, j)) == multiset(t) - multiset{t[j]};
  }

  lemma PositionOf<T>(x: T, s: seq<T>, t: seq<T>) returns (k: nat)
    requires x in t && multiset(s) == multiset(t)
    ensures k < |s| && s[k] == x
  {
    assert x in multiset(t);
    k :| 0 <= k < |s| && s[k] == x;
  }

  lemma LeastFirst(s: seq<int>, t: seq<int>) returns (least: int)
    requires s != [] && Sorted(s) && Sorted(t) && multiset(s) == multiset(t)
    ensures t != [] && least == s[0] == t[0]
    ensures multiset(s[1..]) == multiset(t[1..])
  {
    assert |multiset(t)| == |t| && |multiset(s)| == |s|;
    NotAbove(s, t);
    NotAbove(t, s);
    least := s[0];
    assert multiset(s[1..]) == multiset(s) - multiset{least} by { assert s == [least] + s[1..]; }
    assert multiset(t[1..]) == multiset(t) - multiset{least} by { assert t == [least] + t[1..]; }
  }

  lemma PermutationsSortAlike(s: seq<int>, t: seq<int>)
    requires multiset(s) == multiset(t)
    ensures Sort(s) == Sort(t)
  {
    SortSorts(s);
    SortSorts(t);
    OneArrangement(Sort(s), Sort(t));
  }

  method SortArray(a: array<int>)
    modifies a
    ensures a[..] == Sort(old(a[..]))
  {
    ghost var was := a[..];
    var key := (x: int) => x;
    SortInPlace(a, key);
    assert Sorted(a[..]) by {
      forall i, j | 0 <= i < j < |a[..]| ensures a[..][i] <= a[..][j] {
        assert key(a[..][i]) <= key(a[..][j]);
      }
    }
    SortSorts(was);
    OneArrangement(a[..], Sort(was));
  }

  /** The middle number of a sorted list, or the floored mean of its two middle numbers. */
  function MiddleOf(s: seq<int>): int
    requires |s| > 0
  {
    if |s| % 2 == 0 then (s[|s| / 2 - 1] + s[|s| / 2]) / 2 else s[|s| / 2]
  }

  function Median(s: seq<int>): int
    requires |s| > 0
  {
    SortSorts(s);
    MiddleOf(Sort(s))
  }

  /** The middle of a sorted list, or a mean of its middle two that is rounded down. */
  ghost predicate IsMiddle(t: seq<int>, m: int) {
    var k := |t| / 2;
    t != [] && if |t| % 2 == 1 then m == t[k] else 2 * m <= t[k - 1] + t[k] <= 2 * m + 1
  }

  ghost predicate IsMedian(s: seq<int>, m: int) {
    exists t: seq<int> :: Sorted(t) && multiset(t) == multiset(s) && IsMiddle(t, m)
  }

  lemma MedianExactly(s: seq<int>, m: int)
    requires s != []
    ensures IsMedian(s, m) <==> m == Median(s)
  {
    SortSorts(s);
    assert |multiset(Sort(s))| == |multiset(s)|;
    if m == Median(s) {
      assert IsMiddle(Sort(s), m);
    } else if IsMedian(s, m) {
      var t: seq<int> :| Sorted(t) && multiset(t) == multiset(s) && IsMiddle(t, m);
      OneArrangement(t, Sort(s));
    }
  }

  /** How many of the numbers lie in `[lo, hi]`. */
  function CountIn(s: seq<int>, lo: int, hi: int): nat {
    if s == [] then 0 else (if lo <= s[0] <= hi then 1 else 0) + CountIn(s[1..], lo, hi)
  }

  lemma {:induction false} InsertCount(x: int, s: seq<int>, lo: int, hi: int)
    ensures CountIn(Insert(x, s), lo, hi) == CountIn(s, lo, hi) + if lo <= x <= hi then 1 else 0
  {
    if s != [] && x > s[0] {
      InsertCount(x, s[1..], lo, hi);
      assert Insert(x, s)[1..] == Insert(x, s[1..]);
    } else {
      assert Insert(x, s)[1..] == s;
    }
  }

  lemma {:induction false} SortCount(s: seq<int>, lo: int, hi: int)
    ensures CountIn(Sort(s), lo, hi) == CountIn(s, lo, hi)
  {
    if s != [] {
      SortCount(s[1..], lo, hi);
      InsertCount(s[0], Sort(s[1..]), lo, hi);
    }
  }

  lemma {:induction false} AllAbove(s: seq<int>, lo: int, hi: int)
    requires forall i | 0 <= i < |s| :: s[i] > hi
    ensures CountIn(s, lo, hi) == 0
  {
    if s != [] {
      AllAbove(s[1..], lo, hi);
    }
  }

  lemma {:induction false} CountConcat(s: seq<int>, t: seq<int>, lo: int, hi: int)
    ensures CountIn(s + t, lo, hi) == CountIn(s, lo, hi) + CountIn(t, lo, hi)
  {
    if s == [] {
      assert s + t == t;
    } else {
      CountConcat(s[1..], t, lo, hi);
      assert (s + t)[1..] == s[1..] + t;
    }
  }

  lemma {:induction false} AllIn(s: seq<int>, lo: int, hi: int)
    requires forall i | 0 <= i < |s| :: lo <= s[i] <= hi
    ensures CountIn(s, lo, hi) == |s|
  {
    if s != [] {
      AllIn(s[1..], lo, hi);
    }
  }

  lemma {:induction false} CountAtMost(s: seq<int>, lo: int, hi: int)
    ensures CountIn(s, lo, hi) <= |s|
  {
    if s != [] {
      CountAtMost(s[1..], lo, hi);
    }
  }

  lemma {:induction false} AboveAt(s: seq<int>, m: nat, lo: int, hi: int)
    requires Sorted(s) && m < |s| && s[m] > hi
    ensures CountIn(s, lo, hi) <= m
  {
    if m == 0 {
      AllAbove(s, lo, hi);
    } else {
      AboveAt(s[1..], m - 1, lo, hi);
    }
  }

  lemma {:induction false} BelowAt(s: seq<int>, m: nat, lo: int, hi: int)
    requires Sorted(s) && m < |s| && s[m] < lo
    ensures CountIn(s, lo, hi) <= |s| - 1 - m
  {
    if m == 0 {
      CountAtMost(s[1..], lo, hi);
    } else {
      assert s[0] <= s[m];
      BelowAt(s[1..], m - 1, lo, hi);
    }
  }

  /** If more than half of the numbers lie in an interval, so does the median, whatever the others are. */
  lemma MedianRobust(s: seq<int>, lo: int, hi: int)
    requires 2 * CountIn(s, lo, hi) > |s|
    ensures |s| > 0 && lo <= Median(s) <= hi
  {
    SortSorts(s);
    SortCount(s, lo, hi);
    CountAtMost(s, lo, hi);
    var t := Sort(s);
    var m := |t| / 2;
    if t[m] > hi {
      AboveAt(t, m, lo, hi);
    }
    if t[m] < lo {
      BelowAt(t, m, lo, hi);
    }
    if |t| % 2 == 0 && t[m - 1] < lo {
      BelowAt(t, m - 1, lo, hi);
    }
  }

  /** `k` times `x`, then `y` up to length `n`. */
  function TwoValues(k: nat, n: nat, x: int, y: int): seq<int> {
    seq(n, i => if i < k then x else y)
  }

  lemma {:induction false} CountTwoValues(k: nat, n: nat, x: int, y: int, lo: int, hi: int)
    requires k <= n
    ensures CountIn(TwoValues(k, n, x, y), lo, hi) ==
            (if lo <= x <= hi then k else 0) + if lo <= y <= hi then n - k else 0
  {
    if n > 0 {
      var rest := if k == 0 then 0 else k - 1;
      CountTwoValues(rest, n - 1, x, y, lo, hi);
      assert TwoValues(k, n, x, y)[1..] == TwoValues(rest, n - 1, x, y);
    }
  }

  /** The bound is tight: once half of the numbers are outside the interval, they can pull the median out of it. */
  lemma MedianNotRobust(n: nat, k: nat, lo: int, hi: int) returns (s: seq<int>)
    requires n > 0 && 2 * k <= n && lo <= hi
    ensures |s| == n && CountIn(s, lo, hi) == k && Median(s) > hi
  {
    var y := 2 * hi + 2 - lo;
    s := TwoValues(k, n, lo, y);
    CountTwoValues(k, n, lo, y, lo, hi);
    SortSorts(s);
    OneArrangement(s, Sort(s));
  }
}
