/**
 * The file content the extension uploads (Extension/background.js, lines
 * 142-147 for a new file and 207-212 for an update): the line endings of the
 * submitted code are normalised to "\n", and the result is sent as the Base64
 * of its UTF-8 bytes.
 */
module Payload {
  import opened Wrappers
  import Utf8
  import Base64

  /** `s.replace(/\r\n/g, '\n')`: every CR LF pair, scanning left to right, becomes one LF. */
  function ReplaceCrLf(s: string): string
  {
    if |s| >= 2 && s[0] == '\r' && s[1] == '\n' then "\n" + ReplaceCrLf(s[2..])
    else if s == [] then []
    else [s[0]] + ReplaceCrLf(s[1..])
  }

  /** `s.replace(/\r/g, '\n')`: every remaining CR becomes an LF. */
  function ReplaceCr(s: string): string
  {
    if s == [] then []
    else [if s[0] == '\r' then '\n' else s[0]] + ReplaceCr(s[1..])
  }

  /** The two replacements in the order the extension applies them. */
  function NormalizeLineEndings(code: string): string
  {
    ReplaceCr(ReplaceCrLf(code))
  }

  /**
   * What the normalisation is meant to do, in one pass: a CR LF pair becomes
   * one LF, a lone CR becomes one LF, every other character is kept.
   */
  function Normalized(s: string): string
  {
    if s == [] then []
    else if s[0] == '\r' && |s| >= 2 && s[1] == '\n' then "\n" + Normalized(s[2..])
    else if s[0] == '\r' then "\n" + Normalized(s[1..])
    else [s[0]] + Normalized(s[1..])
  }

  lemma {:induction false} ReplaceCrAppend(a: string, b: string)
    ensures ReplaceCr(a + b) == ReplaceCr(a) + ReplaceCr(b)
  {
    if a == [] {
      assert a + b == b;
    } else {
      assert (a + b)[1..] == a[1..] + b;
      ReplaceCrAppend(a[1..], b);
    }
  }

  /** The two-pass chain computes the one-pass normalisation. */
  lemma {:induction false} NormalizeLineEndingsIsNormalized(s: string)
    ensures NormalizeLineEndings(s) == Normalized(s)
    decreases |s|
  {
    if s == [] {
    } else if s[0] == '\r' && |s| >= 2 && s[1] == '\n' {
      ReplaceCrAppend("\n", ReplaceCrLf(s[2..]));
      NormalizeLineEndingsIsNormalized(s[2..]);
    } else {
      ReplaceCrAppend([s[0]], ReplaceCrLf(s[1..]));
      NormalizeLineEndingsIsNormalized(s[1..]);
    }
  }

  /** The normalised text holds no CR. */
  lemma {:induction false} NormalizedHasNoCr(s: string)
    ensures '\r' !in Normalized(s)
    decreases |s|
  {
    if s != [] {
      if s[0] == '\r' && |s| >= 2 && s[1] == '\n' {
        NormalizedHasNoCr(s[2..]);
      } else {
        NormalizedHasNoCr(s[1..]);
      }
    }
  }

  /** A text without CR is left exactly as it is. */
  lemma {:induction false} NormalizedWithoutCr(s: string)
    requires '\r' !in s
    ensures Normalized(s) == s
  {
    if s != [] {
      assert s[0] == s[..1][0];
      NormalizedWithoutCr(s[1..]);
      assert [s[0]] + s[1..] == s;
    }
  }

  /** Normalising twice is normalising once. */
  lemma NormalizeLineEndingsIdempotent(code: string)
    ensures NormalizeLineEndings(NormalizeLineEndings(code)) == NormalizeLineEndings(code)
  {
    var n := NormalizeLineEndings(code);
    NormalizeLineEndingsIsNormalized(code);
    NormalizeLineEndingsIsNormalized(n);
    NormalizedHasNoCr(code);
    NormalizedWithoutCr(n);
  }

  /**
   * `btoa(unescape(encodeURIComponent(normalizedContent)))`: the Base64 of the
   * UTF-8 bytes of the normalised code. Decoding both layers gives back the
   * normalised code.
   */
  function EncodeContent(code: string): (encoded: string)
    ensures var bytes := Base64.Decode(encoded);
      bytes.Some? && Utf8.Decode(bytes.value) == Some(NormalizeLineEndings(code))
  {
    var bytes := Utf8.Encode(NormalizeLineEndings(code));
    Base64.DecodeEncode(bytes);
    Utf8.DecodeEncode(NormalizeLineEndings(code));
    Base64.Encode(bytes)
  }

  /** Different normalised texts are sent as different contents. */
  lemma EncodeContentInjective(a: string, b: string)
    requires EncodeContent(a) == EncodeContent(b)
    ensures NormalizeLineEndings(a) == NormalizeLineEndings(b)
  {
  }
}
