/**
 * The JavaScript string operations the extension relies on, over strings of
 * Unicode scalar values: `toLowerCase`, `indexOf`/`includes`, `replace` with a
 * string pattern, `split` and `join` with a one-character separator.
 */
module Text {
  import opened Wrappers

  predicate IsAsciiUpper(c: char) { 'A' <= c <= 'Z' }

  /** `toLowerCase` on one character; only the ASCII letters are mapped. */
  function LowerChar(c: char): char
  {
    if IsAsciiUpper(c) then (c as int + 32) as char else c
  }

  function Lower(s: string): string
  {
    seq(|s|, k requires 0 <= k < |s| => LowerChar(s[k]))
  }

  /** Lower-casing twice is lower-casing once, so a lower-cased key is its own lower case. */
  lemma LowerIdempotent(s: string)
    ensures Lower(Lower(s)) == Lower(s)
  {
    assert forall k :: 0 <= k < |s| ==> Lower(Lower(s))[k] == Lower(s)[k];
  }

  /** A text without ASCII upper-case letters is its own lower case. */
  lemma LowerUnchanged(s: string)
    requires forall k :: 0 <= k < |s| ==> !IsAsciiUpper(s[k])
    ensures Lower(s) == s
  {
  }

  /** Lower-casing works character by character. */
  lemma LowerAppend(a: string, b: string)
    ensures Lower(a + b) == Lower(a) + Lower(b)
  {
    assert forall k :: 0 <= k < |a + b| ==> Lower(a + b)[k] == (Lower(a) + Lower(b))[k];
  }

  /**
   * `.length`: the number of UTF-16 code units, one for a character up to
   * U+FFFF and two, a surrogate pair, for a character above it.
   */
  function Utf16Length(s: string): (n: nat)
    ensures |s| <= n <= 2 * |s|
  {
    if s == [] then 0
    else Utf16Length(s[..|s| - 1]) + (if s[|s| - 1] as int <= 0xFFFF then 1 else 2)
  }

  /** Within the Basic Multilingual Plane `.length` counts characters. */
  lemma {:induction false} Utf16LengthOfBmp(s: string)
    requires forall k :: 0 <= k < |s| ==> s[k] as int <= 0xFFFF
    ensures Utf16Length(s) == |s|
  {
    if s != [] {
      Utf16LengthOfBmp(s[..|s| - 1]);
    }
  }

  /** The first index of character `c` in `s`. */
  function FindChar(s: string, c: char): (r: Option<nat>)
    ensures r.Some? ==> r.value < |s| && s[r.value] == c && c !in s[..r.value]
    ensures r.None? ==> c !in s
  {
    if s == [] then None
    else if s[0] == c then Some(0)
    else match FindChar(s[1..], c)
      case None => None
      case Some(k) =>
        assert s[..k + 1] == [s[0]] + s[1..][..k];
        Some(k + 1)
  }

  /** Whether `pat` occurs in `s` starting at index `k`. */
  predicate OccursAt(s: string, pat: string, k: int)
  {
    0 <= k && k + |pat| <= |s| && s[k..k + |pat|] == pat
  }

  /** A slice of the tail is the slice one further on. */
  lemma SliceOfTail(s: string, a: int, b: int)
    requires 1 <= a <= b <= |s|
    ensures s[1..][a - 1..b - 1] == s[a..b]
  {
  }

  /** `s.indexOf(pat)`: the first index at which `pat` occurs, if any. */
  function IndexOf(s: string, pat: string): (r: Option<nat>)
    ensures r.Some? ==> OccursAt(s, pat, r.value)
    ensures r.Some? ==> forall k :: 0 <= k < r.value ==> !OccursAt(s, pat, k)
    ensures r.None? ==> forall k :: !OccursAt(s, pat, k)
    decreases |s|
  {
    if |s| < |pat| then None
    else if s[..|pat|] == pat then Some(0)
    else
      var rest := IndexOf(s[1..], pat);
      assert forall k :: 1 <= k ==> (OccursAt(s, pat, k) <==> OccursAt(s[1..], pat, k - 1)) by {
        forall k | 1 <= k
          ensures OccursAt(s, pat, k) <==> OccursAt(s[1..], pat, k - 1)
        {
          if k + |pat| <= |s| {
            SliceOfTail(s, k, k + |pat|);
          }
        }
      }
      match rest
      case None => None
      case Some(k) => Some(k + 1)
  }

  /** `s.includes(pat)`. */
  function Contains(s: string, pat: string): (r: bool)
    ensures r <==> exists k :: OccursAt(s, pat, k)
  {
    IndexOf(s, pat).Some?
  }

  /** `s.replace(pat, rep)` with a string pattern: only the first occurrence is replaced. */
  function ReplaceFirst(s: string, pat: string, rep: string): string
  {
    match IndexOf(s, pat)
    case None => s
    case Some(k) => s[..k] + rep + s[k + |pat|..]
  }

  /** `parts.join(sep)`: an empty list joins to the empty string. */
  function Join(parts: seq<string>, sep: char): string
  {
    if |parts| == 0 then ""
    else if |parts| == 1 then parts[0]
    else parts[0] + [sep] + Join(parts[1..], sep)
  }

  /** `s.split(sep)`: always at least one piece, and no piece holds the separator. */
  function Split(s: string, sep: char): (parts: seq<string>)
    ensures |parts| >= 1
    ensures forall k :: 0 <= k < |parts| ==> sep !in parts[k]
    decreases |s|
  {
    match FindChar(s, sep)
    case None => [s]
    case Some(k) => [s[..k]] + Split(s[k + 1..], sep)
  }

  /** A separator-free piece followed by the separator is split off as the first piece. */
  lemma SplitCons(piece: string, sep: char, rest: string)
    requires sep !in piece
    ensures Split(piece + [sep] + rest, sep) == [piece] + Split(rest, sep)
  {
    var s := piece + [sep] + rest;
    assert s[|piece|] == sep && s[..|piece|] == piece;
    assert FindChar(s, sep) == Some(|piece|);
    assert s[|piece| + 1..] == rest;
  }

  /** A split has one piece more than there are separators. */
  lemma {:induction false} SplitLength(s: string, sep: char)
    ensures |Split(s, sep)| == Count(s, sep) + 1
    decreases |s|
  {
    match FindChar(s, sep)
    case None => CountAbsent(s, sep);
    case Some(k) =>
      SplitLength(s[k + 1..], sep);
      CountAbsent(s[..k], sep);
      CountAppend(s[..k], [sep] + s[k + 1..], sep);
      assert s == s[..k] + ([sep] + s[k + 1..]);
      assert ([sep] + s[k + 1..])[1..] == s[k + 1..];
  }

  lemma {:induction false} CountAbsent(s: string, c: char)
    requires c !in s
    ensures Count(s, c) == 0
  {
    if s != [] {
      CountAbsent(s[1..], c);
    }
  }

  /** Joining the pieces of a split with the same separator gives back the string. */
  lemma {:induction false} JoinSplit(s: string, sep: char)
    ensures Join(Split(s, sep), sep) == s
    decreases |s|
  {
    match FindChar(s, sep)
    case None =>
    case Some(k) =>
      var rest := Split(s[k + 1..], sep);
      assert Split(s, sep) == [s[..k]] + rest;
      assert ([s[..k]] + rest)[1..] == rest;
      JoinSplit(s[k + 1..], sep);
      assert Join(Split(s, sep), sep) == s[..k] + [sep] + Join(rest, sep);
      assert s == s[..k] + [sep] + s[k + 1..];
  }

  /** Splitting a join of separator-free pieces gives back the pieces. */
  lemma {:induction false} SplitJoin(parts: seq<string>, sep: char)
    requires |parts| >= 1
    requires forall k :: 0 <= k < |parts| ==> sep !in parts[k]
    ensures Split(Join(parts, sep), sep) == parts
  {
    if |parts| > 1 {
      var s := Join(parts, sep);
      var p := parts[0];
      assert s == p + [sep] + Join(parts[1..], sep);
      assert s[|p|] == sep && s[..|p|] == p;
      assert FindChar(s, sep) == Some(|p|);
      assert s[|p| + 1..] == Join(parts[1..], sep);
      SplitJoin(parts[1..], sep);
    }
  }

  /** The number of occurrences of `c` in `s`. */
  function Count(s: string, c: char): nat
  {
    if s == [] then 0 else (if s[0] == c then 1 else 0) + Count(s[1..], c)
  }

  lemma {:induction false} CountAppend(a: string, b: string, c: char)
    ensures Count(a + b, c) == Count(a, c) + Count(b, c)
  {
    if a == [] {
      assert a + b == b;
    } else {
      assert (a + b)[1..] == a[1..] + b;
      CountAppend(a[1..], b, c);
    }
  }

  function CountAll(parts: seq<string>, c: char): nat
  {
    if parts == [] then 0 else Count(parts[0], c) + CountAll(parts[1..], c)
  }

  /** Joining k >= 1 pieces adds exactly k - 1 separators to those already in the pieces. */
  lemma {:induction false} JoinSeparators(parts: seq<string>, sep: char)
    requires |parts| >= 1
    ensures Count(Join(parts, sep), sep) == CountAll(parts, sep) + |parts| - 1
  {
    if |parts| > 1 {
      JoinSeparators(parts[1..], sep);
      CountAppend(parts[0], [sep], sep);
      CountAppend(parts[0] + [sep], Join(parts[1..], sep), sep);
      assert Count([sep], sep) == 1 by { assert [sep][1..] == []; }
    } else {
      assert parts[1..] == [];
    }
  }
}
