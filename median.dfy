/**
 * Median of two sorted arrays by binary search over partitions
 * (unknown_median-of-two-sorted-arrays---leetcode.py). The search runs over
 * the shorter array `A`: cutting `A` after index `i` and `B` after index
 * `j = half - i - 2` puts `half` elements on the left; the cut is right when
 * every left element is at most every right element. Indices outside an
 * array read as -infinity or +infinity.
 */
module Median {

  predicate Sorted(a: seq<int>)
  {
    forall p, q :: 0 <= p < q < |a| ==> a[p] <= a[q]
  }

  /** The merged sorted sequence of two sorted sequences. */
  function Merge(a: seq<int>, b: seq<int>): (m: seq<int>)
    ensures |m| == |a| + |b|
    decreases |a| + |b|
  {
    if a == [] then b
    else if b == [] then a
    else if a[0] <= b[0] then [a[0]] + Merge(a[1..], b)
    else [b[0]] + Merge(a, b[1..])
  }

  lemma {:induction false} MergeMultiset(a: seq<int>, b: seq<int>)
    ensures multiset(Merge(a, b)) == multiset(a) + multiset(b)
    decreases |a| + |b|
  {
    if a != [] && b != [] {
      if a[0] <= b[0] {
        MergeMultiset(a[1..], b);
        assert Merge(a, b) == [a[0]] + Merge(a[1..], b);
        assert multiset(a) == multiset{a[0]} + multiset(a[1..]) by {
          assert a == [a[0]] + a[1..];
        }
      } else {
        MergeMultiset(a, b[1..]);
        assert Merge(a, b) == [b[0]] + Merge(a, b[1..]);
        assert multiset(b) == multiset{b[0]} + multiset(b[1..]) by {
          assert b == [b[0]] + b[1..];
        }
      }
    }
  }

  /** A sorted sequence starts with a lower bound of all its elements. */
  lemma SortedCons(h: int, t: seq<int>)
    requires Sorted(t) && forall x :: x in multiset(t) ==> h <= x
    ensures Sorted([h] + t)
  {
    forall p, q | 0 <= p < q < |[h] + t|
      ensures ([h] + t)[p] <= ([h] + t)[q]
    {
      if p == 0 {
        assert t[q - 1] in multiset(t);
      }
    }
  }

  /** A lower bound of both inputs can go in front of their merge. */
  lemma MergeConsSorted(h: int, a: seq<int>, b: seq<int>)
    requires Sorted(a) && Sorted(b) && Sorted(Merge(a, b))
    requires (a == [] || h <= a[0]) && (b == [] || h <= b[0])
    ensures Sorted([h] + Merge(a, b))
  {
    MergeMultiset(a, b);
    forall x | x in multiset(Merge(a, b))
      ensures h <= x
    {
      if x in multiset(a) {
        var k :| 0 <= k < |a| && a[k] == x;
      } else {
        var k :| 0 <= k < |b| && b[k] == x;
      }
    }
    SortedCons(h, Merge(a, b));
  }

  lemma {:induction false} MergeSorted(a: seq<int>, b: seq<int>)
    requires Sorted(a) && Sorted(b)
    ensures Sorted(Merge(a, b))
    decreases |a| + |b|
  {
    if a != [] && b != [] {
      if a[0] <= b[0] {
        MergeSorted(a[1..], b);
        MergeConsSorted(a[0], a[1..], b);
      } else {
        MergeSorted(a, b[1..]);
        MergeConsSorted(b[0], a, b[1..]);
      }
    }
  }

  /** The first element of a sorted sequence is at most any element of it. */
  lemma SortedFirst(m: seq<int>, x: int)
    requires Sorted(m) && x in multiset(m)
    ensures m[0] <= x
  {
    var k :| 0 <= k < |m| && m[k] == x;
  }

  /** A sorted sequence is determined by its elements. */
  lemma {:induction false} SortedUnique(m1: seq<int>, m2: seq<int>)
    requires Sorted(m1) && Sorted(m2) && multiset(m1) == multiset(m2)
    ensures m1 == m2
    decreases |m1|
  {
    if m1 != [] {
      assert m1[0] in multiset(m2) && m2[0] in multiset(m1) by {
        assert m1[0] in multiset(m1);
        assert |m2| == |m1| && m2[0] in multiset(m2);
      }
      SortedFirst(m1, m2[0]);
      SortedFirst(m2, m1[0]);
      assert m1 == [m1[0]] + m1[1..] && m2 == [m2[0]] + m2[1..];
      assert m1[0] == m2[0];
      assert multiset(m1[1..]) == multiset(m1) - multiset{m1[0]};
      assert multiset(m2[1..]) == multiset(m2) - multiset{m2[0]};
      SortedUnique(m1[1..], m2[1..]);
    } else {
      assert |m2| == 0;
    }
  }

  /** Merging does not depend on the order of the two inputs. */
  lemma MergeSymmetric(a: seq<int>, b: seq<int>)
    requires Sorted(a) && Sorted(b)
    ensures Merge(a, b) == Merge(b, a)
  {
    MergeSorted(a, b);
    MergeSorted(b, a);
    MergeMultiset(a, b);
    MergeMultiset(b, a);
    SortedUnique(Merge(a, b), Merge(b, a));
  }

  /** The median of a non-empty sorted sequence: its middle element, or the mean of its two middle elements. */
  function MedianOf(m: seq<int>): (median: real)
    requires |m| >= 1
    ensures Sorted(m) ==> m[(|m| - 1) / 2] as real <= median <= m[|m| / 2] as real
  {
    if |m| % 2 == 1 then m[|m| / 2] as real
    else (m[|m| / 2 - 1] + m[|m| / 2]) as real / 2.0
  }

  /** Integers with -infinity and +infinity, the `float("-inf")` and `float("inf")` of lines 31-34. */
  datatype Ext = NegInf | Fin(value: int) | PosInf

  predicate Le(x: Ext, y: Ext)
  {
    x.NegInf? || y.PosInf? || (x.Fin? && y.Fin? && x.value <= y.value)
  }

  function Min(x: Ext, y: Ext): Ext { if Le(y, x) then y else x }

  function Max(x: Ext, y: Ext): Ext { if Le(x, y) then y else x }

  /** `A[i] if i >= 0 else float("-inf")`. */
  function Left(a: seq<int>, i: int): Ext
    requires i < |a|
  {
    if i >= 0 then Fin(a[i]) else NegInf
  }

  /** `A[i+1] if (i+1) < len(A) else float("inf")`. */
  function Right(a: seq<int>, i: int): Ext
    requires -1 <= i
  {
    if i + 1 < |a| then Fin(a[i + 1]) else PosInf
  }

  /** The shape after the swap: `A` is the shorter array and `half` is half the total length. */
  predicate Setup(a: seq<int>, b: seq<int>, half: int)
  {
    Sorted(a) && Sorted(b) && |a| <= |b| && 0 <= |a| + |b| - 2 * half <= 1
  }

  /** Lines 24-25: for every `i` the loop can reach, `j` lies in `[-1, len(B)-1]`. */
  lemma PartnerInRange(a: seq<int>, b: seq<int>, half: int, i: int)
    requires Setup(a, b, half) && -1 <= i < |a|
    ensures -1 <= half - i - 2 < |b|
  {
  }

  /** Cutting `A` after `i` takes too many of its elements: `Aleft > Bright`. */
  predicate TooBig(a: seq<int>, b: seq<int>, half: int, i: int)
    requires Setup(a, b, half) && -1 <= i < |a|
  {
    PartnerInRange(a, b, half, i);
    !Le(Left(a, i), Right(b, half - i - 2))
  }

  /** Cutting `A` after `i` takes too few: `Bleft > Aright`. */
  predicate TooSmall(a: seq<int>, b: seq<int>, half: int, i: int)
    requires Setup(a, b, half) && -1 <= i < |a|
  {
    PartnerInRange(a, b, half, i);
    !Le(Left(b, half - i - 2), Right(a, i))
  }

  /** Some cut is right: the first one that is not too small. */
  lemma {:induction false} RightCutExists(a: seq<int>, b: seq<int>, half: int, i: int)
    requires Setup(a, b, half) && -1 <= i < |a| && !TooSmall(a, b, half, i)
    ensures exists x :: -1 <= x <= i && !TooSmall(a, b, half, x) && !TooBig(a, b, half, x)
    decreases i + 1
  {
    if i == -1 || TooSmall(a, b, half, i - 1) {
      PartnerInRange(a, b, half, i);
      assert !TooBig(a, b, half, i);
    } else {
      RightCutExists(a, b, half, i - 1);
    }
  }

  /** Every element of `m` is at most `bound`. */
  predicate AllLe(m: seq<int>, bound: Ext)
  {
    forall k :: 0 <= k < |m| ==> Le(Fin(m[k]), bound)
  }

  predicate AllGe(m: seq<int>, bound: Ext)
  {
    forall k :: 0 <= k < |m| ==> Le(bound, Fin(m[k]))
  }

  lemma MergeAllLe(a: seq<int>, b: seq<int>, bound: Ext)
    requires AllLe(a, bound) && AllLe(b, bound)
    ensures AllLe(Merge(a, b), bound)
  {
    MergeMultiset(a, b);
    forall k | 0 <= k < |Merge(a, b)|
      ensures Le(Fin(Merge(a, b)[k]), bound)
    {
      var x := Merge(a, b)[k];
      assert x in multiset(Merge(a, b));
      if x in multiset(a) {
        var p :| 0 <= p < |a| && a[p] == x;
      } else {
        var p :| 0 <= p < |b| && b[p] == x;
      }
    }
  }

  lemma MergeAllGe(a: seq<int>, b: seq<int>, bound: Ext)
    requires AllGe(a, bound) && AllGe(b, bound)
    ensures AllGe(Merge(a, b), bound)
  {
    MergeMultiset(a, b);
    forall k | 0 <= k < |Merge(a, b)|
      ensures Le(bound, Fin(Merge(a, b)[k]))
    {
      var x := Merge(a, b)[k];
      assert x in multiset(Merge(a, b));
      if x in multiset(a) {
        var p :| 0 <= p < |a| && a[p] == x;
      } else {
        var p :| 0 <= p < |b| && b[p] == x;
      }
    }
  }

  /** The last element of a sorted sequence is at least any element of it. */
  lemma SortedLast(m: seq<int>, x: int)
    requires Sorted(m) && x in multiset(m)
    ensures x <= m[|m| - 1]
  {
    var k :| 0 <= k < |m| && m[k] == x;
  }

  /** `max` is an upper bound of both arguments and one of them. */
  lemma MaxBounds(x: Ext, y: Ext)
    ensures Le(x, Max(x, y)) && Le(y, Max(x, y)) && (Max(x, y) == x || Max(x, y) == y)
  {
  }

  /** The last element of a merge is the larger of the two last elements. */
  lemma MergeLast(a: seq<int>, b: seq<int>)
    requires Sorted(a) && Sorted(b) && |a| + |b| >= 1
    ensures var m := Merge(a, b);
      Fin(m[|m| - 1]) == Max(Left(a, |a| - 1), Left(b, |b| - 1))
  {
    var m := Merge(a, b);
    var x := Max(Left(a, |a| - 1), Left(b, |b| - 1));
    assert AllLe(m, x) by {
      MaxBounds(Left(a, |a| - 1), Left(b, |b| - 1));
      SortedAllLe(a, x);
      SortedAllLe(b, x);
      MergeAllLe(a, b, x);
    }
    var v := if |a| >= 1 && x == Fin(a[|a| - 1]) then a[|a| - 1] else b[|b| - 1];
    assert x == Fin(v) by {
      MaxBounds(Left(a, |a| - 1), Left(b, |b| - 1));
    }
    assert v <= m[|m| - 1] by {
      MergeSorted(a, b);
      MergeMultiset(a, b);
      assert v in multiset(a) + multiset(b);
      SortedLast(m, v);
    }
    assert Le(Fin(m[|m| - 1]), x);
  }

  /** Every element of a sorted sequence is at most any bound of its last element. */
  lemma SortedAllLe(a: seq<int>, x: Ext)
    requires Sorted(a) && Le(Left(a, |a| - 1), x)
    ensures AllLe(a, x)
  {
    forall k | 0 <= k < |a|
      ensures Le(Fin(a[k]), x)
    {
      assert a[k] <= a[|a| - 1];
    }
  }

  lemma SortedSlices(a: seq<int>, k: int)
    requires Sorted(a) && 0 <= k <= |a|
    ensures Sorted(a[..k]) && Sorted(a[k..]) && a[..k] + a[k..] == a
  {
    assert forall p :: 0 <= p < |a| - k ==> a[k..][p] == a[k + p];
  }

  /** Two sorted sequences, every element of the first at most every element of the second, concatenate sorted. */
  lemma SortedConcat(l: seq<int>, r: seq<int>, x: Ext, y: Ext)
    requires Sorted(l) && Sorted(r) && AllLe(l, x) && AllGe(r, y) && Le(x, y)
    ensures Sorted(l + r)
  {
    forall p, q | 0 <= p < q < |l + r|
      ensures (l + r)[p] <= (l + r)[q]
    {
      if p < |l| && q >= |l| {
        assert Le(Fin(l[p]), x) && Le(y, Fin(r[q - |l|]));
      }
    }
  }

  /**
   * With `al <= ar`, `al <= br`, `bl <= ar` and `bl <= br`, the larger left end
   * is at most the smaller right end, and each end lies on its side of them.
   */
  lemma BetweenCuts(al: Ext, bl: Ext, ar: Ext, br: Ext)
    requires Le(al, ar) && Le(al, br) && Le(bl, ar) && Le(bl, br)
    ensures Le(Max(al, bl), Min(ar, br))
    ensures Le(al, Max(al, bl)) && Le(bl, Max(al, bl)) && Le(Min(ar, br), ar) && Le(Min(ar, br), br)
  {
  }

  /** In a sorted sequence, the elements up to `a[i]` are at most any `x >= a[i]`, */
  lemma PrefixAllLe(a: seq<int>, i: int, x: Ext)
    requires Sorted(a) && -1 <= i < |a| && Le(Left(a, i), x)
    ensures AllLe(a[..i + 1], x)
  {
    var l := a[..i + 1];
    forall k | 0 <= k < |l|
      ensures Le(Fin(l[k]), x)
    {
      assert l[k] == a[k] <= a[i];
    }
  }

  /** and those after it at least any `y <= a[i+1]`. */
  lemma SuffixAllGe(a: seq<int>, i: int, y: Ext)
    requires Sorted(a) && -1 <= i < |a| && Le(y, Right(a, i))
    ensures AllGe(a[i + 1..], y)
  {
    var r := a[i + 1..];
    forall k | 0 <= k < |r|
      ensures Le(y, Fin(r[k]))
    {
      assert a[i + 1] <= a[i + 1 + k] == r[k];
    }
  }

  /** Cutting a sorted sequence after `i` gives two sorted parts bounded by `x` and `y`. */
  lemma SortedCutBounds(a: seq<int>, i: int, x: Ext, y: Ext)
    requires Sorted(a) && -1 <= i < |a| && Le(Left(a, i), x) && Le(y, Right(a, i))
    ensures a == a[..i + 1] + a[i + 1..]
    ensures Sorted(a[..i + 1]) && Sorted(a[i + 1..])
    ensures AllLe(a[..i + 1], x) && AllGe(a[i + 1..], y)
  {
    SortedSlices(a, i + 1);
    PrefixAllLe(a, i, x);
    SuffixAllGe(a, i, y);
  }

  /** The first element of a merge is the smaller of the two first elements. */
  lemma MergeFirst(a: seq<int>, b: seq<int>)
    requires |a| + |b| >= 1
    ensures Fin(Merge(a, b)[0]) == Min(Right(a, -1), Right(b, -1))
  {
  }

  /**
   * Merging two sequences that are each cut where everything on the left is
   * at most `x` and everything on the right at least `y >= x` merges the
   * left parts and the right parts separately.
   */
  lemma MergeCut(al: seq<int>, ar: seq<int>, bl: seq<int>, br: seq<int>, x: Ext, y: Ext)
    requires Sorted(al) && Sorted(ar) && Sorted(bl) && Sorted(br) && Le(x, y)
    requires AllLe(al, x) && AllLe(bl, x) && AllGe(ar, y) && AllGe(br, y)
    ensures Merge(al + ar, bl + br) == Merge(al, bl) + Merge(ar, br)
  {
    var l, r := Merge(al, bl), Merge(ar, br);
    MergeAllLe(al, bl, x);
    MergeAllGe(ar, br, y);
    MergeSorted(al, bl);
    MergeSorted(ar, br);
    SortedConcat(l, r, x, y);
    SortedConcat(al, ar, x, y);
    SortedConcat(bl, br, x, y);
    MergeMultiset(al, bl);
    MergeMultiset(ar, br);
    MergeMultiset(al + ar, bl + br);
    MergeSorted(al + ar, bl + br);
    SortedUnique(Merge(al + ar, bl + br), l + r);
  }

  /**
   * At a right cut (`Aleft <= Bright` and `Bleft <= Aright`) the merged
   * sequence is the merge of the two left parts followed by the merge of the
   * two right parts.
   */
  lemma RightCutSplit(a: seq<int>, b: seq<int>, i: int, j: int)
    requires Sorted(a) && Sorted(b) && -1 <= i < |a| && -1 <= j < |b|
    requires Le(Left(a, i), Right(b, j)) && Le(Left(b, j), Right(a, i))
    ensures Merge(a, b) == Merge(a[..i + 1], b[..j + 1]) + Merge(a[i + 1..], b[j + 1..])
  {
    var x := Max(Left(a, i), Left(b, j));
    var y := Min(Right(a, i), Right(b, j));
    BetweenCuts(Left(a, i), Left(b, j), Right(a, i), Right(b, j));
    SortedCutBounds(a, i, x, y);
    SortedCutBounds(b, j, x, y);
    MergeCut(a[..i + 1], a[i + 1..], b[..j + 1], b[j + 1..], x, y);
  }

  /**
   * So, with `i + 1` elements of `a` and `j + 1` of `b` on the left,
   * `min(Aright, Bright)` is the merged sequence's element just right of the cut
   */
  lemma RightCutFirst(a: seq<int>, b: seq<int>, i: int, j: int)
    requires Sorted(a) && Sorted(b) && -1 <= i < |a| && -1 <= j < |b| && i + j + 2 < |a| + |b|
    requires Le(Left(a, i), Right(b, j)) && Le(Left(b, j), Right(a, i))
    ensures Min(Right(a, i), Right(b, j)) == Fin(Merge(a, b)[i + j + 2])
  {
    RightCutSplit(a, b, i, j);
    var ar, br := a[i + 1..], b[j + 1..];
    MergeFirst(ar, br);
    assert Right(ar, -1) == Right(a, i) && Right(br, -1) == Right(b, j);
  }

  /** The last element of the merged left parts is `max(Aleft, Bleft)`. */
  lemma MergePrefixLast(a: seq<int>, b: seq<int>, i: int, j: int)
    requires Sorted(a) && Sorted(b) && -1 <= i < |a| && -1 <= j < |b| && i + j + 2 >= 1
    ensures |Merge(a[..i + 1], b[..j + 1])| == i + j + 2
    ensures Fin(Merge(a[..i + 1], b[..j + 1])[i + j + 1]) == Max(Left(a, i), Left(b, j))
  {
    var al, bl := a[..i + 1], b[..j + 1];
    SortedSlices(a, i + 1);
    SortedSlices(b, j + 1);
    MergeLast(al, bl);
    assert Left(al, |al| - 1) == Left(a, i);
    assert Left(bl, |bl| - 1) == Left(b, j);
  }

  /** and `max(Aleft, Bleft)` the one just left of it. */
  lemma RightCutLast(a: seq<int>, b: seq<int>, i: int, j: int)
    requires Sorted(a) && Sorted(b) && -1 <= i < |a| && -1 <= j < |b| && i + j + 2 >= 1
    requires Le(Left(a, i), Right(b, j)) && Le(Left(b, j), Right(a, i))
    ensures Max(Left(a, i), Left(b, j)) == Fin(Merge(a, b)[i + j + 1])
  {
    RightCutSplit(a, b, i, j);
    MergePrefixLast(a, b, i, j);
    var l, r := Merge(a[..i + 1], b[..j + 1]), Merge(a[i + 1..], b[j + 1..]);
    assert (l + r)[i + j + 1] == l[i + j + 1];
  }

  /** An odd-length sequence's median is its middle element, */
  lemma MedianOdd(m: seq<int>, half: int, hi: int)
    requires |m| == 2 * half + 1 && 0 <= half && m[half] == hi
    ensures MedianOf(m) == hi as real
  {
  }

  /** An even-length sequence's median is the mean of its two middle elements. */
  lemma MedianEven(m: seq<int>, half: int, lo: int, hi: int)
    requires |m| == 2 * half && 1 <= half && m[half - 1] == lo && m[half] == hi
    ensures MedianOf(m) == (lo + hi) as real / 2.0
  {
  }

  /**
   * Lines 36-41: at a right cut with `half = i + j + 2` elements on the left,
   * the median is read off the four ends.
   */
  lemma RightCutMedian(a: seq<int>, b: seq<int>, i: int, j: int)
    requires Sorted(a) && Sorted(b) && -1 <= i < |a| && -1 <= j < |b|
    requires 0 <= |a| + |b| - 2 * (i + j + 2) <= 1 && |a| + |b| >= 1
    requires Le(Left(a, i), Right(b, j)) && Le(Left(b, j), Right(a, i))
    ensures Min(Right(a, i), Right(b, j)).Fin?
    ensures |a| + |b| == 2 * (i + j + 2) + 1 ==> MedianOf(Merge(a, b)) == Min(Right(a, i), Right(b, j)).value as real
    ensures |a| + |b| == 2 * (i + j + 2) ==>
      Max(Left(a, i), Left(b, j)).Fin? &&
      MedianOf(Merge(a, b)) == (Max(Left(a, i), Left(b, j)).value + Min(Right(a, i), Right(b, j)).value) as real / 2.0
  {
    var half := i + j + 2;
    var m := Merge(a, b);
    var hi := Min(Right(a, i), Right(b, j));
    assert |m| == |a| + |b| && hi == Fin(m[half]) by {
      RightCutFirst(a, b, i, j);
    }
    if |a| + |b| == 2 * half + 1 {
      MedianOdd(m, half, m[half]);
    } else {
      var lo := Max(Left(a, i), Left(b, j));
      assert lo == Fin(m[half - 1]) by {
        RightCutLast(a, b, i, j);
      }
      MedianEven(m, half, m[half - 1], m[half]);
    }
  }

  /**
   * One round of the search (lines 23-45): with a right cut `c` in
   * `[l - 1, r]`, the midpoint `i` and its partner `j` are in range, and
   * whichever way the comparison goes the right cut stays in the new bounds.
   */
  lemma SearchStep(a: seq<int>, b: seq<int>, half: int, l: int, r: int, c: int, i: int, j: int)
    requires Setup(a, b, half) && 0 <= l && l - 1 <= c <= r < |a|
    requires !TooSmall(a, b, half, c) && !TooBig(a, b, half, c)
    requires 2 * i <= l + r <= 2 * i + 1 && j == half - i - 2
    ensures l - 1 <= i <= r && -1 <= j < |b|
    ensures !Le(Left(a, i), Right(b, j)) ==> l <= i && c <= i - 1
    ensures !Le(Left(b, j), Right(a, i)) ==> i <= r && i + 1 <= c
  {
    PartnerInRange(a, b, half, i);
    PartnerInRange(a, b, half, c);
  }

  /** `Solution.findMedianSortedArrays`: the median of the merged inputs. */
  method FindMedianSortedArrays(nums1: seq<int>, nums2: seq<int>) returns (median: real)
    requires Sorted(nums1) && Sorted(nums2)
    requires |nums1| + |nums2| >= 1
    ensures median == MedianOf(Merge(nums1, nums2))
  {
    var A, B := nums1, nums2;
    var total := |A| + |B|;
    var half := total / 2;
    if |B| < |A| {
      A, B := B, A;
    }
    assert Merge(A, B) == Merge(nums1, nums2) by {
      MergeSymmetric(nums1, nums2);
    }
    assert Setup(A, B, half);
    ghost var odd := total % 2 == 1;
    assert odd <==> total == 2 * half + 1;
    var l, r := 0, |A| - 1;
    assert exists x :: -1 <= x < |A| && !TooSmall(A, B, half, x) && !TooBig(A, B, half, x) by {
      RightCutExists(A, B, half, |A| - 1);
    }
    ghost var c :| -1 <= c < |A| && !TooSmall(A, B, half, c) && !TooBig(A, B, half, c);
    while true
      invariant 0 <= l && l - 1 <= c <= r < |A|
      decreases r - l + 1
    {
      var i := (l + r) / 2;
      var j := half - i - 2;
      SearchStep(A, B, half, l, r, c, i, j);
      var Aleft, Aright := Left(A, i), Right(A, i);
      var Bleft, Bright := Left(B, j), Right(B, j);
      if Le(Aleft, Bright) && Le(Bleft, Aright) {
        var hi, lo := Min(Aright, Bright), Max(Aleft, Bleft);
        assert hi.Fin? && (odd ==> MedianOf(Merge(A, B)) == hi.value as real) &&
          (!odd ==> lo.Fin? && MedianOf(Merge(A, B)) == (lo.value + hi.value) as real / 2.0) by {
          RightCutMedian(A, B, i, j);
        }
        if total % 2 == 1 {
          return hi.value as real;
        } else {
          return (lo.value + hi.value) as real / 2.0;
        }
      } else if !Le(Aleft, Bright) {
        r := i - 1;
      } else {
        l := i + 1;
      }
    }
  }
}
