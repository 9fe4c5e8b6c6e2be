/**
 * Base64 (section 4 of RFC 4648), as `btoa` computes it on a string whose
 * characters are all below 256: each group of three bytes becomes four
 * letters of the 64-letter alphabet, and a final group of one or two bytes is
 * padded with `=`.
 */
module Base64 {
  import opened Wrappers
  import opened Utf8

  type sextet = x: int | 0 <= x < 64

  /** The letter for a 6-bit value: A-Z, a-z, 0-9, '+', '/'. */
  function Letter(v: sextet): char
  {
    if v < 26 then ('A' as int + v) as char
    else if v < 52 then ('a' as int + v - 26) as char
    else if v < 62 then ('0' as int + v - 52) as char
    else if v == 62 then '+'
    else '/'
  }

  /** The 6-bit value of an alphabet letter; `None` for '=' and every other character. */
  function Value(c: char): Option<sextet>
  {
    if 'A' <= c <= 'Z' then Some(c as int - 'A' as int)
    else if 'a' <= c <= 'z' then Some(c as int - 'a' as int + 26)
    else if '0' <= c <= '9' then Some(c as int - '0' as int + 52)
    else if c == '+' then Some(62)
    else if c == '/' then Some(63)
    else None
  }

  predicate IsLetter(c: char) { Value(c).Some? }

  /** The alphabet is a bijection between the 64 values and the 64 letters. */
  lemma ValueLetter(v: sextet)
    ensures Value(Letter(v)) == Some(v)
  {
  }

  lemma LetterValue(c: char)
    requires IsLetter(c)
    ensures Letter(Value(c).value) == c
  {
  }

  /** The four letters of a full group of three bytes. */
  function Quad(b0: byte, b1: byte, b2: byte): string
  {
    [Letter(b0 / 4), Letter((b0 % 4) * 16 + b1 / 16), Letter((b1 % 16) * 4 + b2 / 64), Letter(b2 % 64)]
  }

  function Encode(bs: seq<byte>): string
    decreases |bs|
  {
    if |bs| == 0 then ""
    else if |bs| == 1 then [Letter(bs[0] / 4), Letter((bs[0] % 4) * 16), '=', '=']
    else if |bs| == 2 then
      [Letter(bs[0] / 4), Letter((bs[0] % 4) * 16 + bs[1] / 16), Letter((bs[1] % 16) * 4), '=']
    else Quad(bs[0], bs[1], bs[2]) + Encode(bs[3..])
  }

  /** The three bytes carried by four 6-bit values, and the other way round. */
  function Bytes(v0: sextet, v1: sextet, v2: sextet, v3: sextet): seq<byte>
  {
    [v0 * 4 + v1 / 16, (v1 % 16) * 16 + v2 / 4, (v2 % 4) * 64 + v3]
  }

  lemma BytesOfSextets(b0: byte, b1: byte, b2: byte)
    ensures Bytes(b0 / 4, (b0 % 4) * 16 + b1 / 16, (b1 % 16) * 4 + b2 / 64, b2 % 64) == [b0, b1, b2]
  {
  }

  lemma SextetsOfBytes(v0: sextet, v1: sextet, v2: sextet, v3: sextet)
    ensures var bs := Bytes(v0, v1, v2, v3);
      bs[0] / 4 == v0 && (bs[0] % 4) * 16 + bs[1] / 16 == v1 &&
      (bs[1] % 16) * 4 + bs[2] / 64 == v2 && bs[2] % 64 == v3
  {
  }

  /**
   * Decodes one group of four characters; `last` says whether it ends the
   * input, the only place where padding is allowed. Non-zero bits under the
   * padding are rejected, so every accepted group is canonical.
   */
  function DecodeGroup(c0: char, c1: char, c2: char, c3: char, last: bool): Option<seq<byte>>
  {
    if !IsLetter(c0) || !IsLetter(c1) then None
    else
      var v0, v1 := Value(c0).value, Value(c1).value;
      if c2 == '=' then
        if c3 == '=' && last && v1 % 16 == 0 then Some(Bytes(v0, v1, 0, 0)[..1]) else None
      else if !IsLetter(c2) then None
      else
        var v2 := Value(c2).value;
        if c3 == '=' then
          if last && v2 % 4 == 0 then Some(Bytes(v0, v1, v2, 0)[..2]) else None
        else if !IsLetter(c3) then None
        else Some(Bytes(v0, v1, v2, Value(c3).value))
  }

  /** Decodes padded Base64; a length that is not a multiple of four is rejected. */
  function Decode(s: string): Option<seq<byte>>
    decreases |s|
  {
    if |s| == 0 then Some([])
    else if |s| < 4 then None
    else match DecodeGroup(s[0], s[1], s[2], s[3], |s| == 4)
      case None => None
      case Some(group) =>
        if |group| < 3 then Some(group)
        else match Decode(s[4..])
          case None => None
          case Some(rest) => Some(group + rest)
  }

  /** A group of four letters, or of two or three letters and padding, decodes to the bytes they carry. */
  lemma GroupOfLetters(v0: sextet, v1: sextet, v2: sextet, v3: sextet, last: bool)
    ensures DecodeGroup(Letter(v0), Letter(v1), Letter(v2), Letter(v3), last) == Some(Bytes(v0, v1, v2, v3))
  {
    ValueLetter(v0);
    ValueLetter(v1);
    ValueLetter(v2);
    ValueLetter(v3);
  }

  lemma GroupOfTwoLetters(v0: sextet, v1: sextet)
    requires v1 % 16 == 0
    ensures DecodeGroup(Letter(v0), Letter(v1), '=', '=', true) == Some(Bytes(v0, v1, 0, 0)[..1])
  {
    ValueLetter(v0);
    ValueLetter(v1);
  }

  lemma GroupOfThreeLetters(v0: sextet, v1: sextet, v2: sextet)
    requires v2 % 4 == 0
    ensures DecodeGroup(Letter(v0), Letter(v1), Letter(v2), '=', true) == Some(Bytes(v0, v1, v2, 0)[..2])
  {
    ValueLetter(v0);
    ValueLetter(v1);
    ValueLetter(v2);
  }

  /** Each encoded group decodes to the bytes it came from. */
  lemma DecodeOne(b0: byte)
    ensures DecodeGroup(Letter(b0 / 4), Letter((b0 % 4) * 16), '=', '=', true) == Some([b0])
  {
    var v0: sextet, v1: sextet := b0 / 4, (b0 % 4) * 16;
    assert v1 % 16 == 0 && v1 / 16 == b0 % 4;
    GroupOfTwoLetters(v0, v1);
    assert Bytes(v0, v1, 0, 0)[..1] == [v0 * 4 + v1 / 16];
  }

  lemma DecodeTwo(b0: byte, b1: byte)
    ensures DecodeGroup(Letter(b0 / 4), Letter((b0 % 4) * 16 + b1 / 16), Letter((b1 % 16) * 4), '=', true)
         == Some([b0, b1])
  {
    var v0: sextet, v1: sextet, v2: sextet := b0 / 4, (b0 % 4) * 16 + b1 / 16, (b1 % 16) * 4;
    assert v2 % 4 == 0 && v2 / 4 == b1 % 16;
    assert v1 / 16 == b0 % 4 && v1 % 16 == b1 / 16;
    GroupOfThreeLetters(v0, v1, v2);
    assert Bytes(v0, v1, v2, 0)[..2] == [v0 * 4 + v1 / 16, (v1 % 16) * 16 + v2 / 4];
  }

  lemma DecodeThree(b0: byte, b1: byte, b2: byte, last: bool)
    ensures var q := Quad(b0, b1, b2);
      DecodeGroup(q[0], q[1], q[2], q[3], last) == Some([b0, b1, b2])
  {
    GroupOfLetters(b0 / 4, (b0 % 4) * 16 + b1 / 16, (b1 % 16) * 4 + b2 / 64, b2 % 64, last);
    BytesOfSextets(b0, b1, b2);
  }

  /** A full group in front of a decodable rest decodes to its three bytes followed by the rest's. */
  lemma DecodeCons(q: string, rest: string, g: seq<byte>, r: seq<byte>)
    requires |q| == 4 && |g| == 3
    requires DecodeGroup(q[0], q[1], q[2], q[3], |rest| == 0) == Some(g) && Decode(rest) == Some(r)
    ensures Decode(q + rest) == Some(g + r)
  {
    var s := q + rest;
    assert s[0] == q[0] && s[1] == q[1] && s[2] == q[2] && s[3] == q[3];
    assert s[4..] == rest;
  }

  /** Decoding what was encoded gives back the bytes. */
  lemma {:induction false} DecodeEncode(bs: seq<byte>)
    ensures Decode(Encode(bs)) == Some(bs)
    decreases |bs|
  {
    if 1 <= |bs| <= 2 {
      DecodeShort(bs);
    } else if |bs| >= 3 {
      DecodeEncode(bs[3..]);
      DecodeEncodeFront(bs[0], bs[1], bs[2], bs[3..]);
      assert Encode(bs) == Quad(bs[0], bs[1], bs[2]) + Encode(bs[3..]);
      assert [bs[0], bs[1], bs[2]] + bs[3..] == bs;
    }
  }

  /** A full group in front of bytes that decode back makes the whole decode back. */
  lemma DecodeEncodeFront(b0: byte, b1: byte, b2: byte, rest: seq<byte>)
    requires Decode(Encode(rest)) == Some(rest)
    ensures Decode(Quad(b0, b1, b2) + Encode(rest)) == Some([b0, b1, b2] + rest)
  {
    var q := Quad(b0, b1, b2);
    assert DecodeGroup(q[0], q[1], q[2], q[3], |Encode(rest)| == 0) == Some([b0, b1, b2]) by {
      DecodeThree(b0, b1, b2, |Encode(rest)| == 0);
    }
    DecodeCons(q, Encode(rest), [b0, b1, b2], rest);
  }

  /** The final group of one or two bytes decodes back. */
  lemma DecodeShort(bs: seq<byte>)
    requires 1 <= |bs| <= 2
    ensures Decode(Encode(bs)) == Some(bs)
  {
    if |bs| == 1 {
      DecodeOne(bs[0]);
      assert [bs[0]] == bs;
    } else {
      DecodeTwo(bs[0], bs[1]);
      assert [bs[0], bs[1]] == bs;
    }
  }

  /** Each group the decoder accepts is the encoding of the bytes it decodes to. */
  lemma EncodeDecodeGroup(c0: char, c1: char, c2: char, c3: char, last: bool)
    requires DecodeGroup(c0, c1, c2, c3, last).Some?
    ensures var g := DecodeGroup(c0, c1, c2, c3, last).value;
      1 <= |g| <= 3 && (|g| < 3 ==> last) && Encode(g) == [c0, c1, c2, c3]
  {
    var g := DecodeGroup(c0, c1, c2, c3, last).value;
    LetterValue(c0);
    LetterValue(c1);
    var v0, v1 := Value(c0).value, Value(c1).value;
    if c2 == '=' {
      SextetsOfBytes(v0, v1, 0, 0);
    } else {
      LetterValue(c2);
      var v2 := Value(c2).value;
      if c3 == '=' {
        SextetsOfBytes(v0, v1, v2, 0);
      } else {
        LetterValue(c3);
        SextetsOfBytes(v0, v1, v2, Value(c3).value);
        assert g[3..] == [];
      }
    }
  }

  /** Encoding three bytes in front of more bytes puts their group in front of the rest. */
  lemma EncodeCons(g: seq<byte>, rest: seq<byte>)
    requires |g| == 3
    ensures Encode(g + rest) == Encode(g) + Encode(rest)
  {
    var s := g + rest;
    assert s[0] == g[0] && s[1] == g[1] && s[2] == g[2] && s[3..] == rest;
    assert Encode(s) == Quad(g[0], g[1], g[2]) + Encode(rest);
    assert Encode(g) == Quad(g[0], g[1], g[2]) + Encode(g[3..]);
    assert g[3..] == [];
  }

  /**
   * Decoding a non-empty string decodes its first group of four characters
   * into `g`, which encodes back to them, and then, after a full group, the rest.
   */
  lemma DecodeFront(s: string) returns (g: seq<byte>)
    requires |s| > 0 && Decode(s).Some?
    ensures |s| >= 4 && 1 <= |g| <= 3 && Encode(g) == s[..4]
    ensures |g| < 3 ==> |s| == 4 && Decode(s) == Some(g)
    ensures |g| == 3 ==> Decode(s[4..]).Some? && Decode(s) == Some(g + Decode(s[4..]).value)
  {
    g := DecodeGroup(s[0], s[1], s[2], s[3], |s| == 4).value;
    EncodeDecodeGroup(s[0], s[1], s[2], s[3], |s| == 4);
    assert s[..4] == [s[0], s[1], s[2], s[3]];
  }

  /** Every string the decoder accepts is the encoding of the bytes it decodes to. */
  lemma {:induction false} EncodeDecode(s: string)
    requires Decode(s).Some?
    ensures Encode(Decode(s).value) == s
    decreases |s|
  {
    if |s| > 0 {
      var g := DecodeFront(s);
      if |g| < 3 {
        assert s == s[..4];
      } else {
        var rest := Decode(s[4..]).value;
        EncodeDecode(s[4..]);
        EncodeCons(g, rest);
        assert s == s[..4] + s[4..];
      }
    }
  }
}
