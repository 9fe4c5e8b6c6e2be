/**
 * Longest palindromic substring by dynamic programming
 * (unknown_longest-palindromic-substring---leetcode.py): `opt[j][i]` records
 * whether `s[j..i]` (both ends included) is a palindrome, filled column by
 * column; the first strictly longer palindrome found replaces the best one.
 */
module Palindrome {

  /**
   * The recurrence of line 16: `s[j..i]`, both ends included, has equal ends
   * and, when it is longer than three characters, a palindromic inside.
   */
  predicate Pal(s: string, j: int, i: int)
    decreases i - j
  {
    0 <= j <= i < |s| && s[j] == s[i] && (i - j <= 2 || Pal(s, j + 1, i - 1))
  }

  /** A string that reads the same backwards. */
  predicate IsPalindrome(t: string)
  {
    forall k :: 0 <= k < |t| ==> t[k] == t[|t| - 1 - k]
  }

  /** The recurrence holds exactly for the palindromic slices. */
  lemma {:induction false} PalSlice(s: string, j: int, i: int)
    requires 0 <= j <= i < |s|
    ensures Pal(s, j, i) <==> IsPalindrome(s[j..i + 1])
    decreases i - j
  {
    var t := s[j..i + 1];
    assert forall k :: 0 <= k < |t| ==> t[k] == s[j + k];
    if i - j > 2 {
      PalSlice(s, j + 1, i - 1);
      var u := s[j + 1..i];
      assert forall k :: 0 <= k < |u| ==> u[k] == t[k + 1];
      if IsPalindrome(t) {
        assert t[0] == t[|t| - 1];
        forall k | 0 <= k < |u|
          ensures u[k] == u[|u| - 1 - k]
        {
          assert t[k + 1] == t[|t| - 1 - (k + 1)];
        }
      }
      if Pal(s, j, i) {
        forall k | 0 <= k < |t|
          ensures t[k] == t[|t| - 1 - k]
        {
          if 0 < k < |t| - 1 {
            assert u[k - 1] == u[|u| - 1 - (k - 1)];
          }
        }
      }
    } else if IsPalindrome(t) {
      assert t[0] == t[|t| - 1];
    } else {
      assert i - j <= 2;
    }
  }

  /**
   * `r` is the palindrome `s[lo..lo+|r|)` and no palindromic substring is
   * longer; among those as long, none starts before `lo`.
   */
  predicate IsLeftmostLongest(s: string, lo: int, r: string)
  {
    0 <= lo && lo + |r| <= |s| && r == s[lo..lo + |r|] && |r| >= 1 && Pal(s, lo, lo + |r| - 1) &&
    (forall j, i :: 0 <= j <= i < |s| && Pal(s, j, i) ==> i - j + 1 <= |r|) &&
    (forall j, i :: 0 <= j <= i < |s| && Pal(s, j, i) && i - j + 1 == |r| ==> lo <= j)
  }

  /** The answer is well defined: the leftmost longest palindrome is unique. */
  lemma LeftmostLongestUnique(s: string, lo1: int, r1: string, lo2: int, r2: string)
    requires IsLeftmostLongest(s, lo1, r1) && IsLeftmostLongest(s, lo2, r2)
    ensures lo1 == lo2 && r1 == r2
  {
    assert |r1| <= |r2| && |r2| <= |r1|;
    assert lo1 <= lo2 && lo2 <= lo1;
  }

  /** Every non-empty string has one: each single character is a palindrome. */
  lemma SingleCharacter(s: string, k: int)
    requires 0 <= k < |s|
    ensures Pal(s, k, k)
  {
  }

  /** The pairs `(a, b)` the loops have decided by column `i`, row `j`. */
  predicate Seen(a: int, b: int, i: int, j: int)
  {
    0 <= a <= b && (b < i || (b == i && a < j))
  }

  /**
   * What `maxlen` and `maxstr == s[lo..lo+maxlen)` keep: a palindrome that ends
   * by column `i`, and no decided palindrome is longer or as long and further left.
   */
  ghost predicate Best(s: string, lo: int, maxlen: int, i: int, j: int)
  {
    1 <= maxlen && 0 <= lo && lo + maxlen - 1 <= i && Pal(s, lo, lo + maxlen - 1) &&
    forall a, b :: Seen(a, b, i, j) && Pal(s, a, b) ==> b - a + 1 < maxlen || (b - a + 1 == maxlen && lo <= a)
  }

  /** `Best`, with `maxstr` the slice it names. */
  ghost predicate Tracked(s: string, lo: int, maxlen: int, maxstr: string, i: int, j: int)
  {
    Best(s, lo, maxlen, i, j) && lo + maxlen <= |s| && maxstr == s[lo..lo + maxlen]
  }

  /** Lines 10-11: the first character. */
  lemma BestStart(s: string)
    requires |s| >= 1
    ensures Tracked(s, 0, 1, s[0..1], 0, 0)
  {
  }

  /** Line 18: a palindrome that is not strictly longer leaves the best one in place. */
  lemma BestKeep(s: string, lo: int, maxlen: int, maxstr: string, i: int, j: int)
    requires 0 <= j < i && Tracked(s, lo, maxlen, maxstr, i, j)
    requires Pal(s, j, i) ==> i - j + 1 <= maxlen
    ensures Tracked(s, lo, maxlen, maxstr, i, j + 1)
  {
  }

  /** Lines 18-20: a strictly longer palindrome replaces it. */
  lemma BestTake(s: string, lo: int, maxlen: int, maxstr: string, i: int, j: int)
    requires 0 <= j < i < |s| && Tracked(s, lo, maxlen, maxstr, i, j)
    requires Pal(s, j, i) && i - j + 1 > maxlen
    ensures Tracked(s, j, i - j + 1, s[j..i + 1], i, j + 1)
  {
  }

  /** A finished column, its single character included. */
  lemma BestNextColumn(s: string, lo: int, maxlen: int, maxstr: string, i: int)
    requires 0 <= i && Tracked(s, lo, maxlen, maxstr, i, i)
    ensures Tracked(s, lo, maxlen, maxstr, i + 1, 0)
  {
    forall a, b | Seen(a, b, i + 1, 0) && Pal(s, a, b)
      ensures b - a + 1 < maxlen || (b - a + 1 == maxlen && lo <= a)
    {
      if a < i {
        assert Seen(a, b, i, i);
      }
    }
  }

  /** Once every column is done, the best palindrome is the leftmost longest one. */
  lemma BestFinal(s: string, lo: int, maxlen: int, maxstr: string)
    requires |s| >= 1 && Tracked(s, lo, maxlen, maxstr, |s|, 0)
    ensures IsLeftmostLongest(s, lo, maxstr) && IsPalindrome(maxstr)
  {
    forall a, b | 0 <= a <= b < |s| && Pal(s, a, b)
      ensures b - a + 1 <= maxlen && (b - a + 1 == maxlen ==> lo <= a)
    {
      assert Seen(a, b, |s|, 0);
    }
    PalSlice(s, lo, lo + maxlen - 1);
  }

  /** What `opt` holds once the pairs before column `i`, row `j` are decided and `opt[i][i]` is set. */
  ghost predicate Filled(s: string, opt: array2<bool>, i: int, j: int)
    reads opt
  {
    opt.Length0 == |s| && opt.Length1 == |s| &&
    forall a, b {:trigger opt[a, b]} :: 0 <= a < |s| && 0 <= b < |s| ==>
      (opt[a, b] <==> (Seen(a, b, i, j) || (a == i && b == i)) && Pal(s, a, b))
  }

  /** Lines 15-20: rows `0..i-1` of column `i`, keeping the first strictly longer palindrome. */
  method FillColumn(s: string, opt: array2<bool>, i: int, ghost lo0: int, maxlen0: int, maxstr0: string)
    returns (ghost lo: int, maxlen: int, maxstr: string)
    requires 0 <= i < |s| && Filled(s, opt, i, 0) && Tracked(s, lo0, maxlen0, maxstr0, i, 0)
    modifies opt
    ensures Filled(s, opt, i, i) && Tracked(s, lo, maxlen, maxstr, i, i)
  {
    lo, maxlen, maxstr := lo0, maxlen0, maxstr0;
    for j := 0 to i
      invariant Filled(s, opt, i, j) && Tracked(s, lo, maxlen, maxstr, i, j)
    {
      var isPal := s[j] == s[i] && (i - j <= 2 || opt[j + 1, i - 1]);
      assert isPal <==> Pal(s, j, i) by {
        if i - j > 2 {
          assert Seen(j + 1, i - 1, i, j);
        }
      }
      if isPal {
        opt[j, i] := true;
        if i - j + 1 > maxlen {
          BestTake(s, lo, maxlen, maxstr, i, j);
          maxlen := i - j + 1;
          maxstr := s[j..i + 1];
          lo := j;
        } else {
          BestKeep(s, lo, maxlen, maxstr, i, j);
        }
      } else {
        BestKeep(s, lo, maxlen, maxstr, i, j);
      }
    }
  }

  /** `Solution.longestPalindrome`. */
  method LongestPalindrome(s: string) returns (maxstr: string)
    ensures |s| <= 1 ==> maxstr == s
    ensures |s| >= 1 ==> exists lo :: IsLeftmostLongest(s, lo, maxstr)
    ensures IsPalindrome(maxstr)
  {
    if |s| <= 1 {
      if |s| == 1 {
        assert IsLeftmostLongest(s, 0, s) by {
          assert s[0..1] == s;
        }
      }
      return s;
    }
    var n := |s|;
    var opt := new bool[n, n]((_, _) => false);
    var maxlen := 1;
    maxstr := s[0..1];
    ghost var lo := 0;
    BestStart(s);
    for i := 0 to n
      invariant forall a, b {:trigger opt[a, b]} :: 0 <= a < n && 0 <= b < n ==> (opt[a, b] <==> Seen(a, b, i, 0) && Pal(s, a, b))
      invariant opt.Length0 == n && opt.Length1 == n
      invariant Tracked(s, lo, maxlen, maxstr, i, 0)
    {
      opt[i, i] := true;
      lo, maxlen, maxstr := FillColumn(s, opt, i, lo, maxlen, maxstr);
      BestNextColumn(s, lo, maxlen, maxstr, i);
    }
    BestFinal(s, lo, maxlen, maxstr);
  }
}
