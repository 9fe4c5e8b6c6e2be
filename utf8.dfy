/**
 * UTF-8 (section 3 of RFC 3629). The extension produces these bytes with
 * `unescape(encodeURIComponent(text))`: `encodeURIComponent` writes every
 * character that is not URI-unreserved as `%XX` escapes of its UTF-8 bytes, and
 * `unescape` turns each escape back into a one-byte character, so the result is
 * the UTF-8 encoding of the text, one byte per character.
 */
module Utf8 {
  import opened Wrappers

  /** An octet. */
  type byte = x: int | 0 <= x < 256

  predicate IsContinuation(b: byte) { 0x80 <= b < 0xC0 }

  /** The scalar values, which are exactly the values of Dafny's `char`. */
  predicate IsScalar(n: int)
  {
    0 <= n < 0xD800 || 0xE000 <= n < 0x11_0000
  }

  /** The UTF-8 form of one scalar value: 1 to 4 bytes by the size of the value. */
  function EncodeChar(c: char): (bs: seq<byte>)
    ensures 1 <= |bs| <= 4
  {
    var n := c as int;
    if n < 0x80 then [n]
    else if n < 0x800 then [0xC0 + n / 64, 0x80 + n % 64]
    else if n < 0x1_0000 then [0xE0 + n / 4096, 0x80 + (n / 64) % 64, 0x80 + n % 64]
    else [0xF0 + n / 262144, 0x80 + (n / 4096) % 64, 0x80 + (n / 64) % 64, 0x80 + n % 64]
  }

  function Encode(s: string): seq<byte>
  {
    if s == [] then [] else EncodeChar(s[0]) + Encode(s[1..])
  }

  /**
   * Decodes the character at the front of `bs` and says how many bytes it
   * took. Overlong forms, surrogates, values above U+10FFFF and stray
   * continuation bytes are rejected, as section 3 of RFC 3629 requires.
   */
  function DecodeChar(bs: seq<byte>): (r: Option<(char, nat)>)
    ensures r.Some? ==> 1 <= r.value.1 <= |bs|
  {
    if |bs| == 0 then None
    else
      var b0 := bs[0] as int;
      if b0 < 0x80 then Some((b0 as char, 1))
      else if 0xC2 <= b0 < 0xE0 then
        if |bs| >= 2 && IsContinuation(bs[1]) then
          Some((Value2(b0, bs[1]) as char, 2))
        else None
      else if 0xE0 <= b0 < 0xF0 then
        if |bs| >= 3 && IsContinuation(bs[1]) && IsContinuation(bs[2]) then
          var n := Value3(b0, bs[1], bs[2]);
          if n < 0x800 || !IsScalar(n) then None else Some((n as char, 3))
        else None
      else if 0xF0 <= b0 < 0xF5 then
        if |bs| >= 4 && IsContinuation(bs[1]) && IsContinuation(bs[2]) && IsContinuation(bs[3]) then
          var n := Value4(b0, bs[1], bs[2], bs[3]);
          if n < 0x1_0000 || !IsScalar(n) then None else Some((n as char, 4))
        else None
      else None
  }

  /** The value carried by a two-, three- or four-byte sequence: six bits per continuation byte. */
  function Value2(b0: int, b1: int): (n: int)
    requires 0xC2 <= b0 < 0xE0 && 0x80 <= b1 < 0xC0
    ensures 0x80 <= n < 0x800
  {
    (b0 - 0xC0) * 64 + (b1 - 0x80)
  }

  function Value3(b0: int, b1: int, b2: int): int
  {
    (b0 - 0xE0) * 4096 + (b1 - 0x80) * 64 + (b2 - 0x80)
  }

  function Value4(b0: int, b1: int, b2: int, b3: int): int
  {
    (b0 - 0xF0) * 262144 + (b1 - 0x80) * 4096 + (b2 - 0x80) * 64 + (b3 - 0x80)
  }

  /** Decodes a whole byte string, or fails on the first malformed sequence. */
  function Decode(bs: seq<byte>): Option<string>
    decreases |bs|
  {
    if bs == [] then Some([])
    else match DecodeChar(bs)
      case None => None
      case Some((c, k)) =>
        match Decode(bs[k..])
        case None => None
        case Some(s) => Some([c] + s)
  }

  /** Quotient and remainder by 64 and its powers, from a decomposition. */
  lemma DivMod64(n: int, q: int, r: int)
    requires 0 <= r < 64 && n == q * 64 + r
    ensures n / 64 == q && n % 64 == r
  {
  }

  lemma DivMod4096(n: int, q: int, r: int)
    requires 0 <= r < 4096 && n == q * 4096 + r
    ensures n / 4096 == q
  {
  }

  lemma DivMod262144(n: int, q: int, r: int)
    requires 0 <= r < 262144 && n == q * 262144 + r
    ensures n / 262144 == q
  {
  }

  /** The three 6-bit groups of a value below 2^18, and the four of a value below 2^24. */
  lemma Groups3(n: nat)
    ensures n == (n / 4096) * 4096 + ((n / 64) % 64) * 64 + n % 64
  {
    var q1, r1 := n / 64, n % 64;
    var q2, r2 := q1 / 64, q1 % 64;
    DivMod4096(n, q2, r2 * 64 + r1);
  }

  lemma Groups4(n: nat)
    ensures n == (n / 262144) * 262144 + ((n / 4096) % 64) * 4096 + ((n / 64) % 64) * 64 + n % 64
  {
    var q1, r1 := n / 64, n % 64;
    var q2, r2 := q1 / 64, q1 % 64;
    var q3, r3 := q2 / 64, q2 % 64;
    DivMod4096(n, q2, r2 * 64 + r1);
    DivMod262144(n, q3, r3 * 4096 + r2 * 64 + r1);
  }

  /** The decoder reads back exactly one encoded character, whatever follows it. */
  lemma DecodeCharEncodeChar(c: char, rest: seq<byte>)
    ensures DecodeChar(EncodeChar(c) + rest) == Some((c, |EncodeChar(c)|))
  {
    var n := c as int;
    var bs := EncodeChar(c) + rest;
    if n < 0x80 {
    } else if n < 0x800 {
      assert bs[0] == 0xC0 + n / 64 && bs[1] == 0x80 + n % 64;
      assert Value2(bs[0], bs[1]) == n;
    } else if n < 0x1_0000 {
      assert bs[0] == 0xE0 + n / 4096 && bs[1] == 0x80 + (n / 64) % 64 && bs[2] == 0x80 + n % 64;
      Groups3(n);
      assert Value3(bs[0], bs[1], bs[2]) == n;
    } else {
      assert bs[0] == 0xF0 + n / 262144 && bs[1] == 0x80 + (n / 4096) % 64;
      assert bs[2] == 0x80 + (n / 64) % 64 && bs[3] == 0x80 + n % 64;
      Groups4(n);
      assert Value4(bs[0], bs[1], bs[2], bs[3]) == n;
    }
  }

  /** Whatever the decoder accepts at the front is the encoding of the character it returns. */
  lemma EncodeCharDecodeChar(bs: seq<byte>)
    requires DecodeChar(bs).Some?
    ensures EncodeChar(DecodeChar(bs).value.0) == bs[..DecodeChar(bs).value.1]
  {
    if bs[0] < 0x80 {
      assert bs[..1] == [bs[0]];
    } else if 0xC2 <= bs[0] < 0xE0 {
      EncodeTwo(bs[0], bs[1]);
      assert bs[..2] == [bs[0], bs[1]];
    } else if 0xE0 <= bs[0] < 0xF0 {
      EncodeThree(bs[0], bs[1], bs[2]);
      assert bs[..3] == [bs[0], bs[1], bs[2]];
    } else {
      EncodeFour(bs[0], bs[1], bs[2], bs[3]);
      assert bs[..4] == [bs[0], bs[1], bs[2], bs[3]];
    }
  }

  lemma EncodeTwo(b0: byte, b1: byte)
    requires 0xC2 <= b0 < 0xE0 && IsContinuation(b1)
    ensures EncodeChar(Value2(b0, b1) as char) == [b0, b1]
  {
    DivMod64(Value2(b0, b1), b0 - 0xC0, b1 - 0x80);
  }

  lemma EncodeThree(b0: byte, b1: byte, b2: byte)
    requires 0xE0 <= b0 < 0xF0 && IsContinuation(b1) && IsContinuation(b2)
    requires 0x800 <= Value3(b0, b1, b2) && IsScalar(Value3(b0, b1, b2))
    ensures EncodeChar(Value3(b0, b1, b2) as char) == [b0, b1, b2]
  {
    var n := Value3(b0, b1, b2);
    var a, b, c := b0 - 0xE0, b1 - 0x80, b2 - 0x80;
    DivMod64(n, a * 64 + b, c);
    DivMod64(a * 64 + b, a, b);
    DivMod4096(n, a, b * 64 + c);
  }

  lemma EncodeFour(b0: byte, b1: byte, b2: byte, b3: byte)
    requires 0xF0 <= b0 < 0xF5 && IsContinuation(b1) && IsContinuation(b2) && IsContinuation(b3)
    requires 0x1_0000 <= Value4(b0, b1, b2, b3) && IsScalar(Value4(b0, b1, b2, b3))
    ensures EncodeChar(Value4(b0, b1, b2, b3) as char) == [b0, b1, b2, b3]
  {
    var n := Value4(b0, b1, b2, b3);
    var a, b, c, d := b0 - 0xF0, b1 - 0x80, b2 - 0x80, b3 - 0x80;
    DivMod64(n, a * 4096 + b * 64 + c, d);
    DivMod64(a * 4096 + b * 64 + c, a * 64 + b, c);
    DivMod4096(n, a * 64 + b, c * 64 + d);
    DivMod64(a * 64 + b, a, b);
    DivMod262144(n, a, b * 4096 + c * 64 + d);
  }

  /** Decoding the encoding of a text gives back the text. */
  lemma {:induction false} DecodeEncode(s: string)
    ensures Decode(Encode(s)) == Some(s)
  {
    if s != [] {
      var e := EncodeChar(s[0]);
      DecodeCharEncodeChar(s[0], Encode(s[1..]));
      assert (e + Encode(s[1..]))[|e|..] == Encode(s[1..]);
      DecodeEncode(s[1..]);
      assert [s[0]] + s[1..] == s;
    }
  }

  /**
   * Decoding a non-empty byte string decodes its first character `c` from the
   * first `k` bytes, which are the encoding of `c`, and then the rest into `t`.
   */
  lemma DecodeFront(bs: seq<byte>) returns (c: char, k: nat, t: string)
    requires bs != [] && Decode(bs).Some?
    ensures 1 <= k <= |bs| && EncodeChar(c) == bs[..k]
    ensures Decode(bs[k..]) == Some(t) && Decode(bs) == Some([c] + t)
  {
    c, k := DecodeChar(bs).value.0, DecodeChar(bs).value.1;
    t := Decode(bs[k..]).value;
    EncodeCharDecodeChar(bs);
  }

  /** A byte string the decoder accepts is the encoding of what it decodes to. */
  lemma {:induction false} EncodeDecode(bs: seq<byte>)
    requires Decode(bs).Some?
    ensures Encode(Decode(bs).value) == bs
    decreases |bs|
  {
    if bs != [] {
      var c, k, t := DecodeFront(bs);
      EncodeDecode(bs[k..]);
      calc {
        Encode(Decode(bs).value);
        Encode([c] + t);
        { assert ([c] + t)[1..] == t; }
        EncodeChar(c) + Encode(t);
        bs[..k] + bs[k..];
        bs;
      }
    }
  }
}
