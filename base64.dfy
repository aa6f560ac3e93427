/**
 * Base 64 encoding as defined in section 4 of RFC 4648: every three bytes
 * become four characters of the 64-character alphabet of Table 1, and a
 * final group of one or two bytes is padded with "==" or "=".
 *
 * The decoder exists to show that the encoding loses nothing: two different
 * digests never produce the same text.
 */
module Base64 {
  import opened Wrappers

  type byte = x: int | 0 <= x < 256

  const Pad: char := '='

  /** The characters of Table 1 of RFC 4648 (the padding character excluded). */
  predicate IsAlphabetChar(c: char)
  {
    ('A' <= c <= 'Z') || ('a' <= c <= 'z') || ('0' <= c <= '9') || c == '+' || c == '/'
  }

  /** Table 1: the character that encodes a 6-bit value. */
  function SextetChar(v: int): (c: char)
    requires 0 <= v < 64
    ensures IsAlphabetChar(c)
  {
    if v < 26 then ('A' as int + v) as char
    else if v < 52 then ('a' as int + (v - 26)) as char
    else if v < 62 then ('0' as int + (v - 52)) as char
    else if v == 62 then '+'
    else '/'
  }

  /** Table 1 read backwards. */
  function SextetValue(c: char): (v: int)
    requires IsAlphabetChar(c)
    ensures 0 <= v < 64 && SextetChar(v) == c
  {
    if 'A' <= c <= 'Z' then c as int - 'A' as int
    else if 'a' <= c <= 'z' then c as int - 'a' as int + 26
    else if '0' <= c <= '9' then c as int - '0' as int + 52
    else if c == '+' then 62
    else 63
  }

  lemma SextetRoundTrip(v: int)
    requires 0 <= v < 64
    ensures SextetValue(SextetChar(v)) == v
  {
  }

  /** Three bytes, 24 bits, as four 6-bit characters, most significant first. */
  function EncodeTriple(a: byte, b: byte, c: byte): string
  {
    [SextetChar(a / 4), SextetChar((a % 4) * 16 + b / 16), SextetChar((b % 16) * 4 + c / 64), SextetChar(c % 64)]
  }

  /** Section 4 of RFC 4648, with padding. */
  function Encode(bytes: seq<byte>): (s: string)
    ensures |bytes| > 0 <==> |s| > 0
  {
    if |bytes| == 0 then ""
    else if |bytes| == 1 then
      [SextetChar(bytes[0] / 4), SextetChar((bytes[0] % 4) * 16), Pad, Pad]
    else if |bytes| == 2 then
      [SextetChar(bytes[0] / 4), SextetChar((bytes[0] % 4) * 16 + bytes[1] / 16), SextetChar((bytes[1] % 16) * 4), Pad]
    else
      EncodeTriple(bytes[0], bytes[1], bytes[2]) + Encode(bytes[3..])
  }

  /** One group of four alphabet characters back to its three bytes. */
  function DecodeQuad(g: string): Option<seq<byte>>
    requires |g| == 4
  {
    if IsAlphabetChar(g[0]) && IsAlphabetChar(g[1]) && IsAlphabetChar(g[2]) && IsAlphabetChar(g[3]) then
      var v1, v2 := SextetValue(g[1]), SextetValue(g[2]);
      Some([SextetValue(g[0]) * 4 + v1 / 16, (v1 % 16) * 16 + v2 / 4, (v2 % 4) * 64 + SextetValue(g[3])])
    else None
  }

  /** The final group, which may end in one or two padding characters. */
  function DecodeLast(g: string): Option<seq<byte>>
    requires |g| == 4
  {
    if g[2] == Pad && g[3] == Pad then
      if IsAlphabetChar(g[0]) && IsAlphabetChar(g[1]) then
        Some([SextetValue(g[0]) * 4 + SextetValue(g[1]) / 16])
      else None
    else if g[3] == Pad then
      if IsAlphabetChar(g[0]) && IsAlphabetChar(g[1]) && IsAlphabetChar(g[2]) then
        var v1, v2 := SextetValue(g[1]), SextetValue(g[2]);
        Some([SextetValue(g[0]) * 4 + v1 / 16, (v1 % 16) * 16 + v2 / 4])
      else None
    else DecodeQuad(g)
  }

  /** Decodes padded base 64 text group by group; `None` for text that no
      encoding produces in its length (a leftover shorter than a group), its
      alphabet or the placement of its padding. */
  function Decode(s: string): Option<seq<byte>>
    decreases |s|
  {
    if |s| == 0 then Some([])
    else if |s| < 4 then None
    else if |s| == 4 then DecodeLast(s)
    else
      match DecodeQuad(s[..4])
      case None => None
      case Some(head) =>
        match Decode(s[4..])
        case None => None
        case Some(tail) => Some(head + tail)
  }

  /** The bit arithmetic of one full group: the four 6-bit values of
      `EncodeTriple` put back together give the three bytes. */
  lemma TripleArithmetic(a: byte, b: byte, c: byte)
    ensures var v1, v2 := (a % 4) * 16 + b / 16, (b % 16) * 4 + c / 64;
      && (a / 4) * 4 + v1 / 16 == a
      && (v1 % 16) * 16 + v2 / 4 == b
      && (v2 % 4) * 64 + c % 64 == c
  {
  }

  lemma DecodeQuadTriple(a: byte, b: byte, c: byte)
    ensures DecodeQuad(EncodeTriple(a, b, c)) == Some([a, b, c])
  {
    var v0, v1, v2, v3 := a / 4, (a % 4) * 16 + b / 16, (b % 16) * 4 + c / 64, c % 64;
    SextetRoundTrip(v0);
    SextetRoundTrip(v1);
    SextetRoundTrip(v2);
    SextetRoundTrip(v3);
    TripleArithmetic(a, b, c);
  }

  lemma DecodeEncodeOne(a: byte)
    ensures Decode(Encode([a])) == Some([a])
  {
    SextetRoundTrip(a / 4);
    SextetRoundTrip((a % 4) * 16);
  }

  lemma PairArithmetic(a: byte, b: byte)
    ensures var v1 := (a % 4) * 16 + b / 16;
      && (a / 4) * 4 + v1 / 16 == a
      && (v1 % 16) * 16 + ((b % 16) * 4) / 4 == b
  {
  }

  lemma DecodeEncodeTwo(a: byte, b: byte)
    ensures Decode(Encode([a, b])) == Some([a, b])
  {
    SextetRoundTrip(a / 4);
    SextetRoundTrip((a % 4) * 16 + b / 16);
    SextetRoundTrip((b % 16) * 4);
    PairArithmetic(a, b);
  }

  lemma DecodeEncodeThree(a: byte, b: byte, c: byte)
    ensures Decode(EncodeTriple(a, b, c)) == Some([a, b, c])
  {
    var g := EncodeTriple(a, b, c);
    DecodeQuadTriple(a, b, c);
    assert g[3] != Pad;
  }

  /** A full group in front of a decodable, non-empty rest. */
  lemma DecodeGroupThenRest(a: byte, b: byte, c: byte, rest: string, tail: seq<byte>)
    requires |rest| > 0 && Decode(rest) == Some(tail)
    ensures Decode(EncodeTriple(a, b, c) + rest) == Some([a, b, c] + tail)
  {
    var s := EncodeTriple(a, b, c) + rest;
    DecodeQuadTriple(a, b, c);
    assert s[..4] == EncodeTriple(a, b, c) && s[4..] == rest;
  }

  /** Decoding undoes encoding, so the encoding is injective. */
  lemma {:induction false} DecodeEncode(bytes: seq<byte>)
    ensures Decode(Encode(bytes)) == Some(bytes)
  {
    if |bytes| == 1 {
      assert bytes == [bytes[0]];
      DecodeEncodeOne(bytes[0]);
    } else if |bytes| == 2 {
      assert bytes == [bytes[0], bytes[1]];
      DecodeEncodeTwo(bytes[0], bytes[1]);
    } else if |bytes| > 2 {
      var a, b, c := bytes[0], bytes[1], bytes[2];
      var rest := Encode(bytes[3..]);
      assert Encode(bytes) == EncodeTriple(a, b, c) + rest;
      assert [a, b, c] + bytes[3..] == bytes;
      if |bytes| == 3 {
        assert rest == [] && bytes == [a, b, c];
        assert Encode(bytes) == EncodeTriple(a, b, c);
        DecodeEncodeThree(a, b, c);
      } else {
        DecodeEncode(bytes[3..]);
        DecodeGroupThenRest(a, b, c, rest, bytes[3..]);
      }
    }
  }

  /** A byte string whose length leaves a remainder of two when divided by
      three encodes to alphabet characters followed by exactly one padding
      character. */
  lemma {:induction false} OnePadForTwoByteTail(bytes: seq<byte>)
    requires |bytes| % 3 == 2
    ensures var s := Encode(bytes);
      && |s| >= 4
      && s[|s| - 1] == Pad
      && forall i :: 0 <= i < |s| - 1 ==> IsAlphabetChar(s[i])
  {
    if |bytes| > 2 {
      OnePadForTwoByteTail(bytes[3..]);
      var s, tail := Encode(bytes), Encode(bytes[3..]);
      assert s == EncodeTriple(bytes[0], bytes[1], bytes[2]) + tail;
      forall i | 0 <= i < |s| - 1 ensures IsAlphabetChar(s[i]) {
        if i >= 4 {
          assert s[i] == tail[i - 4];
        }
      }
    }
  }

  /** Four characters for every started group of three bytes. */
  lemma {:induction false} EncodedLength(bytes: seq<byte>)
    ensures |Encode(bytes)| == 4 * ((|bytes| + 2) / 3)
  {
    if |bytes| > 2 {
      EncodedLength(bytes[3..]);
      assert (|bytes| + 2) / 3 == (|bytes[3..]| + 2) / 3 + 1;
    }
  }

  /** A SHA-256 digest (32 bytes) encodes to 44 characters: 43 from the
      alphabet and one padding character. */
  lemma DigestEncoding(digest: seq<byte>)
    requires |digest| == 32
    ensures var s := Encode(digest);
      && |s| == 44
      && s[43] == Pad
      && forall i :: 0 <= i < 43 ==> IsAlphabetChar(s[i])
  {
    OnePadForTwoByteTail(digest);
    EncodedLength(digest);
  }
}
