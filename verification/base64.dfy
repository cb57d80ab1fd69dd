/** Base 64 encoding as in section 4 of RFC 4648: the standard alphabet, groups of three
    bytes written as four characters, and `=` padding for a final group of one or two bytes.
    This is the encoding Node's `Buffer.toString('base64')` produces. The decoder is the
    strict inverse: it accepts exactly the canonical encodings. */
module Base64 {
  import opened Wrappers

  type byte = b: int | 0 <= b < 256

  /** A six-bit value, the index of one character of the alphabet. */
  type sextet = d: int | 0 <= d < 64

  const Pad: char := '='

  /** Membership in the 64-character alphabet (table 1 of RFC 4648). */
  predicate IsAlphabetChar(c: char) {
    || ('A' <= c <= 'Z')
    || ('a' <= c <= 'z')
    || ('0' <= c <= '9')
    || c == '+'
    || c == '/'
  }

  /** The character encoding the six-bit value `d`. */
  function CharOf(d: sextet): (c: char)
    ensures IsAlphabetChar(c)
  {
    if d < 26 then ('A' as int + d) as char
    else if d < 52 then ('a' as int + (d - 26)) as char
    else if d < 62 then ('0' as int + (d - 52)) as char
    else if d == 62 then '+'
    else '/'
  }

  /** The six-bit value an alphabet character encodes. */
  function IndexOf(c: char): (d: sextet)
    requires IsAlphabetChar(c)
    ensures CharOf(d) == c
  {
    if 'A' <= c <= 'Z' then c as int - 'A' as int
    else if 'a' <= c <= 'z' then c as int - 'a' as int + 26
    else if '0' <= c <= '9' then c as int - '0' as int + 52
    else if c == '+' then 62
    else 63
  }

  /** Distinct values have distinct characters, so `IndexOf` undoes `CharOf`. */
  lemma IndexOfCharOf(d: sextet)
    ensures IndexOf(CharOf(d)) == d
  {
  }

  /** A character of an encoding: an alphabet character or the pad. */
  predicate IsEncodingChar(c: char) {
    IsAlphabetChar(c) || c == Pad
  }

  /** Three bytes as four characters: the 24 bits cut into four six-bit groups. */
  function EncodeGroup(b0: byte, b1: byte, b2: byte): string {
    [CharOf(b0 / 4), CharOf(b0 % 4 * 16 + b1 / 16), CharOf(b1 % 16 * 4 + b2 / 64), CharOf(b2 % 64)]
  }

  /** A final group of two bytes: 16 bits padded with zero bits to 18, then one pad character. */
  function EncodeFinalPair(b0: byte, b1: byte): string {
    [CharOf(b0 / 4), CharOf(b0 % 4 * 16 + b1 / 16), CharOf(b1 % 16 * 4), Pad]
  }

  /** A final group of one byte: 8 bits padded with zero bits to 12, then two pad characters. */
  function EncodeFinalByte(b0: byte): string {
    [CharOf(b0 / 4), CharOf(b0 % 4 * 16), Pad, Pad]
  }

  /** The base 64 encoding of `bs`. */
  function Encode(bs: seq<byte>): (s: string)
    ensures forall i :: 0 <= i < |s| ==> IsEncodingChar(s[i])
    decreases |bs|
  {
    if |bs| == 0 then ""
    else if |bs| == 1 then EncodeFinalByte(bs[0])
    else if |bs| == 2 then EncodeFinalPair(bs[0], bs[1])
    else EncodeGroup(bs[0], bs[1], bs[2]) + Encode(bs[3..])
  }

  /** Four characters for every started group of three bytes. */
  lemma {:induction false} EncodeLength(bs: seq<byte>)
    ensures |Encode(bs)| == 4 * ((|bs| + 2) / 3)
    decreases |bs|
  {
    if |bs| > 2 {
      EncodeLength(bs[3..]);
      assert (|bs| + 2) / 3 == (|bs[3..]| + 2) / 3 + 1;
    }
  }

  /** Four alphabet characters, a group without padding. */
  predicate IsFullGroup(s: string)
    requires |s| == 4
  {
    IsAlphabetChar(s[0]) && IsAlphabetChar(s[1]) && IsAlphabetChar(s[2]) && IsAlphabetChar(s[3])
  }

  /** The three bytes of a group without padding. */
  function DecodeGroup(s: string): (r: seq<byte>)
    requires |s| == 4 && IsFullGroup(s)
    ensures |r| == 3
  {
    var d0, d1, d2, d3 := IndexOf(s[0]), IndexOf(s[1]), IndexOf(s[2]), IndexOf(s[3]);
    [d0 * 4 + d1 / 16, d1 % 16 * 16 + d2 / 4, d2 % 4 * 64 + d3]
  }

  /** The last group of an encoding: a full group, or a padded one whose padding bits
      are zero (anything else is not a canonical encoding). */
  function DecodeFinalGroup(s: string): (r: Option<seq<byte>>)
    requires |s| == 4
    ensures r.Some? ==> 1 <= |r.value| <= 3
  {
    if IsFullGroup(s) then Some(DecodeGroup(s))
    else if IsAlphabetChar(s[0]) && IsAlphabetChar(s[1]) && IsAlphabetChar(s[2]) && s[3] == Pad
      && IndexOf(s[2]) % 4 == 0
    then
      var d0, d1, d2 := IndexOf(s[0]), IndexOf(s[1]), IndexOf(s[2]);
      Some([d0 * 4 + d1 / 16, d1 % 16 * 16 + d2 / 4])
    else if IsAlphabetChar(s[0]) && IsAlphabetChar(s[1]) && s[2] == Pad && s[3] == Pad
      && IndexOf(s[1]) % 16 == 0
    then
      var d0, d1 := IndexOf(s[0]), IndexOf(s[1]);
      Some([d0 * 4 + d1 / 16])
    else None
  }

  /** The bytes a canonical base 64 text encodes, or `None` when `s` is not one. */
  function Decode(s: string): (r: Option<seq<byte>>)
    ensures r.Some? ==> |s| % 4 == 0
    decreases |s|
  {
    if |s| == 0 then Some([])
    else if |s| < 4 then None
    else if |s| == 4 then DecodeFinalGroup(s)
    else if !IsFullGroup(s[..4]) then None
    else
      match Decode(s[4..])
      case None => None
      case Some(rest) => Some(DecodeGroup(s[..4]) + rest)
  }

  /** Cutting a byte `b` as `b / m` and `b % m` and putting it back together. */
  lemma Recombine(b: byte)
    ensures b / 4 * 4 + b % 4 == b
    ensures b / 16 * 16 + b % 16 == b
    ensures b / 64 * 64 + b % 64 == b
  {
  }

  /** Putting two digits together and cutting them apart again. */
  lemma Split(hi: int, lo: int, m: int)
    requires m == 4 || m == 16 || m == 64
    requires 0 <= lo < m
    ensures (hi * m + lo) / m == hi
    ensures (hi * m + lo) % m == lo
  {
  }

  /** The four six-bit values of a group of three bytes. */
  lemma GroupDigits(b0: byte, b1: byte, b2: byte)
    ensures var d1 := b0 % 4 * 16 + b1 / 16; d1 / 16 == b0 % 4 && d1 % 16 == b1 / 16
    ensures var d2 := b1 % 16 * 4 + b2 / 64; d2 / 4 == b1 % 16 && d2 % 4 == b2 / 64
  {
    Split(b0 % 4, b1 / 16, 16);
    Split(b1 % 16, b2 / 64, 4);
  }

  /** The four characters of digits `d0 d1 d2 d3` form a full group that decodes to the
      three bytes `b0 b1 b2` those 24 bits make. */
  lemma DecodeGroupOfDigits(d0: sextet, d1: sextet, d2: sextet, d3: sextet, b0: int, b1: int, b2: int)
    requires d0 * 4 + d1 / 16 == b0 && d1 % 16 * 16 + d2 / 4 == b1 && d2 % 4 * 64 + d3 == b2
    ensures IsFullGroup([CharOf(d0), CharOf(d1), CharOf(d2), CharOf(d3)])
    ensures DecodeGroup([CharOf(d0), CharOf(d1), CharOf(d2), CharOf(d3)]) == [b0, b1, b2]
  {
    IndexOfCharOf(d0);
    IndexOfCharOf(d1);
    IndexOfCharOf(d2);
    IndexOfCharOf(d3);
  }

  /** Three bytes cut into four six-bit values and put back together. */
  lemma BytesOfGroupDigits(b0: byte, b1: byte, b2: byte)
    ensures var d0, d1, d2, d3 := b0 / 4, b0 % 4 * 16 + b1 / 16, b1 % 16 * 4 + b2 / 64, b2 % 64;
      && d0 * 4 + d1 / 16 == b0
      && d1 % 16 * 16 + d2 / 4 == b1
      && d2 % 4 * 64 + d3 == b2
  {
    GroupDigits(b0, b1, b2);
    Recombine(b0);
    Recombine(b1);
    Recombine(b2);
  }

  lemma GroupRoundTrip(b0: byte, b1: byte, b2: byte)
    ensures IsFullGroup(EncodeGroup(b0, b1, b2))
    ensures DecodeGroup(EncodeGroup(b0, b1, b2)) == [b0, b1, b2]
  {
    var d0, d1, d2, d3 := b0 / 4, b0 % 4 * 16 + b1 / 16, b1 % 16 * 4 + b2 / 64, b2 % 64;
    assert EncodeGroup(b0, b1, b2) == [CharOf(d0), CharOf(d1), CharOf(d2), CharOf(d3)];
    BytesOfGroupDigits(b0, b1, b2);
    DecodeGroupOfDigits(d0, d1, d2, d3, b0, b1, b2);
  }

  lemma FinalByteRoundTrip(b0: byte)
    ensures DecodeFinalGroup(EncodeFinalByte(b0)) == Some([b0])
  {
    IndexOfCharOf(b0 / 4);
    IndexOfCharOf(b0 % 4 * 16);
    Split(b0 % 4, 0, 16);
    Recombine(b0);
    var s := EncodeFinalByte(b0);
    assert !IsFullGroup(s) && !IsAlphabetChar(s[2]);
    assert IndexOf(s[0]) == b0 / 4 && IndexOf(s[1]) == b0 % 4 * 16;
  }

  lemma FinalPairRoundTrip(b0: byte, b1: byte)
    ensures DecodeFinalGroup(EncodeFinalPair(b0, b1)) == Some([b0, b1])
  {
    IndexOfCharOf(b0 / 4);
    IndexOfCharOf(b0 % 4 * 16 + b1 / 16);
    IndexOfCharOf(b1 % 16 * 4);
    Split(b0 % 4, b1 / 16, 16);
    Split(b1 % 16, 0, 4);
    Recombine(b0);
    Recombine(b1);
    var s := EncodeFinalPair(b0, b1);
    assert !IsFullGroup(s);
    assert IndexOf(s[0]) == b0 / 4 && IndexOf(s[1]) == b0 % 4 * 16 + b1 / 16 && IndexOf(s[2]) == b1 % 16 * 4;
  }

  lemma FirstThree(bs: seq<byte>)
    requires |bs| >= 3
    ensures [bs[0], bs[1], bs[2]] + bs[3..] == bs
  {
  }

  /** A full group in front of a non-empty text decodes as that group, then the text. */
  lemma DecodeCons(g: string, t: string)
    requires |g| == 4 && IsFullGroup(g) && |t| > 0
    ensures Decode(g + t) == (match Decode(t)
                              case None => None
                              case Some(rest) => Some(DecodeGroup(g) + rest))
  {
    assert (g + t)[..4] == g;
    assert (g + t)[4..] == t;
  }

  /** Decoding undoes encoding: every byte sequence is recovered from its encoding. */
  lemma {:induction false} DecodeEncode(bs: seq<byte>)
    ensures Decode(Encode(bs)) == Some(bs)
    decreases |bs|
  {
    if |bs| == 0 {
    } else if |bs| == 1 {
      FinalByteRoundTrip(bs[0]);
      assert bs == [bs[0]];
    } else if |bs| == 2 {
      FinalPairRoundTrip(bs[0], bs[1]);
      assert bs == [bs[0], bs[1]];
    } else if |bs| == 3 {
      GroupRoundTrip(bs[0], bs[1], bs[2]);
      assert Encode(bs) == EncodeGroup(bs[0], bs[1], bs[2]);
      assert bs == [bs[0], bs[1], bs[2]];
    } else {
      DecodeEncodeGroups(bs);
    }
  }

  /** The inductive step of `DecodeEncode`: a leading full group, then at least one byte. */
  lemma {:induction false} DecodeEncodeGroups(bs: seq<byte>)
    requires |bs| > 3
    ensures Decode(Encode(bs)) == Some(bs)
    decreases |bs|, 0
  {
    var g := EncodeGroup(bs[0], bs[1], bs[2]);
    var t := Encode(bs[3..]);
    GroupRoundTrip(bs[0], bs[1], bs[2]);
    DecodeEncode(bs[3..]);
    assert Encode(bs) == g + t;
    assert |t| > 0;
    DecodeCons(g, t);
    assert Decode(g + t) == Some(DecodeGroup(g) + bs[3..]);
    FirstThree(bs);
  }

  /** Encoding undoes decoding: a text the decoder accepts is the encoding of what it
      decodes to, so the decoder accepts nothing but canonical encodings. */
  lemma {:induction false} EncodeDecode(s: string)
    requires Decode(s).Some?
    ensures Encode(Decode(s).value) == s
    decreases |s|
  {
    if |s| == 0 {
    } else if |s| == 4 {
      FinalGroupCanonical(s);
    } else {
      var rest := Decode(s[4..]).value;
      EncodeDecode(s[4..]);
      var g := DecodeGroup(s[..4]);
      FullGroupCanonical(s[..4]);
      assert (g + rest)[3..] == rest;
      assert s == s[..4] + s[4..];
    }
  }

  /** The bytes of three six-bit values `d0 d1 d2` cut back into those values. */
  lemma DigitsOfBytes(d0: sextet, d1: sextet, d2: sextet)
    ensures (d0 * 4 + d1 / 16) / 4 == d0
    ensures (d0 * 4 + d1 / 16) % 4 == d1 / 16
    ensures (d1 % 16 * 16 + d2 / 4) / 16 == d1 % 16
    ensures (d1 % 16 * 16 + d2 / 4) % 16 == d2 / 4
    ensures d1 / 16 * 16 + d1 % 16 == d1
    ensures d2 / 4 * 4 + d2 % 4 == d2
  {
    Split(d0, d1 / 16, 4);
    Split(d1 % 16, d2 / 4, 16);
  }

  lemma FullGroupCanonical(s: string)
    requires |s| == 4 && IsFullGroup(s)
    ensures var g := DecodeGroup(s); EncodeGroup(g[0], g[1], g[2]) == s
  {
    var d0: int, d1: int, d2: int, d3: int := IndexOf(s[0]), IndexOf(s[1]), IndexOf(s[2]), IndexOf(s[3]);
    var g := DecodeGroup(s);
    assert g == [d0 * 4 + d1 / 16, d1 % 16 * 16 + d2 / 4, d2 % 4 * 64 + d3];
    EncodeGroupOfDigits(d0, d1, d2, d3, g[0], g[1], g[2]);
    assert s == [CharOf(d0), CharOf(d1), CharOf(d2), CharOf(d3)];
  }

  /** Re-encoding the bytes four digits decode to gives the same four digits. */
  lemma EncodeGroupOfDigits(d0: sextet, d1: sextet, d2: sextet, d3: sextet, b0: byte, b1: byte, b2: byte)
    requires d0 * 4 + d1 / 16 == b0 && d1 % 16 * 16 + d2 / 4 == b1 && d2 % 4 * 64 + d3 == b2
    ensures EncodeGroup(b0, b1, b2) == [CharOf(d0), CharOf(d1), CharOf(d2), CharOf(d3)]
  {
    DigitsOfBytes(d0, d1, d2);
    Split(d2 % 4, d3, 64);
    assert b0 / 4 == d0 && b0 % 4 == d1 / 16;
    assert b1 / 16 == d1 % 16 && b1 % 16 == d2 / 4;
    assert b2 / 64 == d2 % 4 && b2 % 64 == d3;
  }



  /** The two bytes of a padded group, cut back into the group's three six-bit values. */
  lemma PairDigits(d0: sextet, d1: sextet, d2: sextet)
    requires d2 % 4 == 0
    ensures var b0, b1 := d0 * 4 + d1 / 16, d1 % 16 * 16 + d2 / 4;
      && b0 / 4 == d0 && b0 % 4 * 16 + b1 / 16 == d1 && b1 % 16 * 4 == d2
  {
    DigitsOfBytes(d0, d1, d2);
  }

  /** The padded group of two bytes written for digits `d0 d1 d2`. */
  lemma PairGroupOfDigits(d0: sextet, d1: sextet, d2: sextet)
    requires d2 % 4 == 0
    ensures var b0: int, b1: int := d0 * 4 + d1 / 16, d1 % 16 * 16 + d2 / 4;
      && 0 <= b0 < 256 && 0 <= b1 < 256
      && EncodeFinalPair(b0, b1) == [CharOf(d0), CharOf(d1), CharOf(d2), Pad]
  {
    PairDigits(d0, d1, d2);
  }

  /** A text that is a padded group of two bytes spelled in alphabet characters. */
  predicate IsPairGroup(s: string) {
    && |s| == 4 && !IsFullGroup(s)
    && IsAlphabetChar(s[0]) && IsAlphabetChar(s[1]) && IsAlphabetChar(s[2]) && s[3] == Pad
    && IndexOf(s[2]) % 4 == 0
  }

  lemma FinalPairDecodes(s: string)
    requires IsPairGroup(s)
    ensures var d0: int, d1: int, d2: int := IndexOf(s[0]), IndexOf(s[1]), IndexOf(s[2]);
      DecodeFinalGroup(s) == Some([d0 * 4 + d1 / 16, d1 % 16 * 16 + d2 / 4])
  {
  }

  lemma FinalPairCanonical(s: string)
    requires IsPairGroup(s)
    ensures Encode(DecodeFinalGroup(s).value) == s
  {
    var d0, d1, d2 := IndexOf(s[0]), IndexOf(s[1]), IndexOf(s[2]);
    FinalPairDecodes(s);
    PairGroupOfDigits(d0, d1, d2);
    PairCanonicalOf(s, d0 as int * 4 + d1 / 16, d1 as int % 16 * 16 + d2 / 4);
  }

  lemma PairCanonicalOf(s: string, b0: byte, b1: byte)
    requires |s| == 4 && s[3] == Pad && DecodeFinalGroup(s) == Some([b0, b1])
    requires EncodeFinalPair(b0, b1) == [s[0], s[1], s[2], Pad]
    ensures Encode(DecodeFinalGroup(s).value) == s
  {
    assert Encode([b0, b1]) == EncodeFinalPair(b0, b1);
    assert s == [s[0], s[1], s[2], Pad];
  }

  lemma FinalByteCanonical(s: string)
    requires |s| == 4 && !IsFullGroup(s)
    requires IsAlphabetChar(s[0]) && IsAlphabetChar(s[1]) && s[2] == Pad && s[3] == Pad
    requires IndexOf(s[1]) % 16 == 0
    ensures Encode(DecodeFinalGroup(s).value) == s
  {
    var d0: int, d1: int := IndexOf(s[0]), IndexOf(s[1]);
    Split(d0, d1 / 16, 4);
    var b0: byte := d0 * 4 + d1 / 16;
    assert DecodeFinalGroup(s).value == [b0];
    assert EncodeFinalByte(b0) == [CharOf(d0), CharOf(d1), Pad, Pad];
  }

  lemma FinalGroupCanonical(s: string)
    requires |s| == 4 && DecodeFinalGroup(s).Some?
    ensures Encode(DecodeFinalGroup(s).value) == s
  {
    var r := DecodeFinalGroup(s).value;
    if IsFullGroup(s) {
      FullGroupCanonical(s);
      assert r[3..] == [];
    } else if s[2] != Pad {
      FinalPairCanonical(s);
    } else {
      FinalByteCanonical(s);
    }
  }
}
