/**
 * Base 64 encoding with the alphabet of RFC 4648, section 4 (Table 1) and '=' padding.
 * The script only decodes (`base64.b64decode`); the encoder is the reference the decoder
 * is proved against.
 */
module Base64 {
  import opened Wrappers
  import opened Bytes

  type Sextet = x: int | 0 <= x < 64

  const Pad: char := '='

  /** Table 1 of RFC 4648: 0..25 are 'A'..'Z', 26..51 'a'..'z', 52..61 '0'..'9', then '+' and '/'. */
  function CharOf(v: Sextet): (c: char)
    ensures c != Pad
  {
    if v < 26 then ('A' as int + v) as char
    else if v < 52 then ('a' as int + (v - 26)) as char
    else if v < 62 then ('0' as int + (v - 52)) as char
    else if v == 62 then '+'
    else '/'
  }

  /** The inverse of Table 1: the value of an alphabet character, `None` for any other character. */
  function ValueOf(c: char): (r: Option<Sextet>)
    ensures r.Some? ==> CharOf(r.value) == c
  {
    if 'A' <= c <= 'Z' then Some(c as int - 'A' as int)
    else if 'a' <= c <= 'z' then Some(c as int - 'a' as int + 26)
    else if '0' <= c <= '9' then Some(c as int - '0' as int + 52)
    else if c == '+' then Some(62)
    else if c == '/' then Some(63)
    else None
  }

  lemma ValueOfCharOf(v: Sextet)
    ensures ValueOf(CharOf(v)) == Some(v)
  {
  }

  /** The first byte of a group: the six bits of `v0` and the high two bits of `v1`. */
  function Byte0(v0: Sextet, v1: Sextet): Byte { v0 * 4 + v1 / 16 }

  /** The second byte of a group: the low four bits of `v1` and the high four bits of `v2`. */
  function Byte1(v1: Sextet, v2: Sextet): Byte { (v1 % 16) * 16 + v2 / 4 }

  /** The third byte of a group: the low two bits of `v2` and the six bits of `v3`. */
  function Byte2(v2: Sextet, v3: Sextet): Byte { (v2 % 4) * 64 + v3 }

  /** Encoding of a full 24-bit group: three bytes become four characters. */
  function EncodeGroup(b0: Byte, b1: Byte, b2: Byte): string {
    [CharOf(b0 / 4), CharOf((b0 % 4) * 16 + b1 / 16), CharOf((b1 % 16) * 4 + b2 / 64), CharOf(b2 % 64)]
  }

  /** RFC 4648 section 4 encoding, with padding of the final quantum as in section 4, cases (2) and (3). */
  function Encode(b: seq<Byte>): (s: string)
    ensures |s| % 4 == 0
    ensures forall i | 0 <= i < |s| :: s[i] == Pad || ValueOf(s[i]).Some?
  {
    if |b| == 0 then []
    else if |b| == 1 then [CharOf(b[0] / 4), CharOf((b[0] % 4) * 16), Pad, Pad]
    else if |b| == 2 then [CharOf(b[0] / 4), CharOf((b[0] % 4) * 16 + b[1] / 16), CharOf((b[1] % 16) * 4), Pad]
    else EncodeGroup(b[0], b[1], b[2]) + Encode(b[3..])
  }

  /** Four alphabet characters as three bytes. */
  function DecodeGroup(c0: char, c1: char, c2: char, c3: char): Option<seq<Byte>> {
    match (ValueOf(c0), ValueOf(c1), ValueOf(c2), ValueOf(c3))
    case (Some(v0), Some(v1), Some(v2), Some(v3)) =>
      Some([Byte0(v0, v1), Byte1(v1, v2), Byte2(v2, v3)])
    case _ => None
  }

  /** The last quantum: a full group, or two or three characters followed by padding. */
  function DecodeFinal(c0: char, c1: char, c2: char, c3: char): Option<seq<Byte>> {
    if c2 == Pad && c3 == Pad then
      match (ValueOf(c0), ValueOf(c1))
      case (Some(v0), Some(v1)) => Some([Byte0(v0, v1)])
      case _ => None
    else if c3 == Pad then
      match (ValueOf(c0), ValueOf(c1), ValueOf(c2))
      case (Some(v0), Some(v1), Some(v2)) => Some([Byte0(v0, v1), Byte1(v1, v2)])
      case _ => None
    else DecodeGroup(c0, c1, c2, c3)
  }

  /**
   * Strict decoding of well-formed input: a length that is a multiple of four, alphabet
   * characters only, padding only in the last quantum. Like Python's decoder it does not
   * insist that the unused bits before the padding are zero.
   */
  function Decode(s: string): (r: Option<seq<Byte>>)
    ensures |s| % 4 != 0 ==> r.None?
  {
    if |s| == 0 then Some([])
    else if |s| < 4 then None
    else if |s| == 4 then DecodeFinal(s[0], s[1], s[2], s[3])
    else
      match DecodeGroup(s[0], s[1], s[2], s[3])
      case None => None
      case Some(group) =>
        assert |s[4..]| % 4 == |s| % 4;
        match Decode(s[4..])
        case None => None
        case Some(rest) => Some(group + rest)
  }

  /** The sextets a group of three bytes is cut into put the same three bytes back together. */
  lemma BitsRoundTrip(b0: Byte, b1: Byte, b2: Byte)
    ensures Byte0(b0 / 4, (b0 % 4) * 16 + b1 / 16) == b0
    ensures Byte1((b0 % 4) * 16 + b1 / 16, (b1 % 16) * 4 + b2 / 64) == b1
    ensures Byte2((b1 % 16) * 4 + b2 / 64, b2 % 64) == b2
  {
    var v1 := (b0 % 4) * 16 + b1 / 16;
    var v2 := (b1 % 16) * 4 + b2 / 64;
    assert v1 / 16 == b0 % 4 && v1 % 16 == b1 / 16;
    assert v2 / 4 == b1 % 16 && v2 % 4 == b2 / 64;
  }

  lemma GroupRoundTrip(b0: Byte, b1: Byte, b2: Byte)
    ensures var s := EncodeGroup(b0, b1, b2);
      DecodeGroup(s[0], s[1], s[2], s[3]) == Some([b0, b1, b2])
  {
    var v1 := (b0 % 4) * 16 + b1 / 16;
    var v2 := (b1 % 16) * 4 + b2 / 64;
    ValueOfCharOf(b0 / 4);
    ValueOfCharOf(v1);
    ValueOfCharOf(v2);
    ValueOfCharOf(b2 % 64);
    BitsRoundTrip(b0, b1, b2);
  }

  /** A final quantum holding one byte decodes to that byte. */
  lemma OneByteRoundTrip(b0: Byte)
    ensures DecodeFinal(CharOf(b0 / 4), CharOf((b0 % 4) * 16), Pad, Pad) == Some([b0])
  {
    ValueOfCharOf(b0 / 4);
    ValueOfCharOf((b0 % 4) * 16);
    assert Byte0(b0 / 4, (b0 % 4) * 16) == b0;
  }

  /** A final quantum holding two bytes decodes to those bytes. */
  lemma TwoBytesRoundTrip(b0: Byte, b1: Byte)
    ensures DecodeFinal(CharOf(b0 / 4), CharOf((b0 % 4) * 16 + b1 / 16), CharOf((b1 % 16) * 4), Pad)
         == Some([b0, b1])
  {
    var v1 := (b0 % 4) * 16 + b1 / 16;
    ValueOfCharOf(b0 / 4);
    ValueOfCharOf(v1);
    ValueOfCharOf((b1 % 16) * 4);
    assert v1 / 16 == b0 % 4 && v1 % 16 == b1 / 16;
    assert Byte0(b0 / 4, v1) == b0;
    assert Byte1(v1, (b1 % 16) * 4) == b1;
  }

  lemma ShortRoundTrip(b: seq<Byte>)
    requires 1 <= |b| <= 2
    ensures Decode(Encode(b)) == Some(b)
  {
    if |b| == 1 {
      OneByteRoundTrip(b[0]);
      assert [b[0]] == b;
    } else {
      TwoBytesRoundTrip(b[0], b[1]);
      assert [b[0], b[1]] == b;
    }
  }

  /** Decoding undoes encoding: every byte string comes back from its base 64 text. */
  lemma {:induction false} DecodeEncode(b: seq<Byte>)
    ensures Decode(Encode(b)) == Some(b)
  {
    if 1 <= |b| <= 2 {
      ShortRoundTrip(b);
    } else if |b| == 3 {
      LongRoundTrip(b);
    } else if |b| > 3 {
      DecodeEncode(b[3..]);
      LongRoundTrip(b);
    }
  }

  /** Three or more bytes: the first group decodes back, and the rest does if its own encoding does. */
  lemma LongRoundTrip(b: seq<Byte>)
    requires |b| >= 3
    requires |b| > 3 ==> Decode(Encode(b[3..])) == Some(b[3..])
    ensures Decode(Encode(b)) == Some(b)
  {
    var g := EncodeGroup(b[0], b[1], b[2]);
    var t := Encode(b[3..]);
    assert Encode(b) == g + t;
    GroupRoundTrip(b[0], b[1], b[2]);
    FirstThree(b);
    if |b| == 3 {
      assert g + t == g;
      FullFinalGroup(g);
    } else {
      DecodeCons(g, t);
    }
  }

  /** A sequence of three or more elements is its first three followed by the rest. */
  lemma FirstThree<T>(b: seq<T>)
    requires |b| >= 3
    ensures [b[0], b[1], b[2]] + b[3..] == b
    ensures |b| == 3 ==> [b[0], b[1], b[2]] == b
  {
  }

  /** A last quantum without padding decodes as a full group. */
  lemma FullFinalGroup(g: string)
    requires |g| == 4 && DecodeGroup(g[0], g[1], g[2], g[3]).Some?
    ensures Decode(g) == DecodeGroup(g[0], g[1], g[2], g[3])
  {
    assert ValueOf(g[2]).Some? && ValueOf(g[3]).Some?;
  }

  /** A full group followed by more text decodes as the group's bytes followed by the rest's. */
  lemma DecodeCons(g: string, t: string)
    requires |g| == 4 && |t| > 0
    ensures Decode(g + t) ==
      match DecodeGroup(g[0], g[1], g[2], g[3])
      case None => None
      case Some(bytes) => (match Decode(t) case None => None case Some(rest) => Some(bytes + rest))
  {
    var s := g + t;
    assert s[0] == g[0] && s[1] == g[1] && s[2] == g[2] && s[3] == g[3];
    assert s[4..] == t;
  }

  /**
   * Well-formed base 64 text: a length that is a multiple of four, alphabet characters
   * only except for padding in the last two positions, and padding in the next-to-last
   * position only when the last one is padding too.
   */
  predicate WellFormed(s: string) {
    |s| % 4 == 0 &&
    (forall i | 0 <= i < |s| - 2 :: ValueOf(s[i]).Some?) &&
    (forall i | |s| - 2 <= i < |s| && 0 <= i :: ValueOf(s[i]).Some? || s[i] == Pad) &&
    (|s| >= 2 && s[|s| - 2] == Pad ==> s[|s| - 1] == Pad)
  }

  /** The decoder accepts exactly the well-formed texts. */
  lemma {:induction false} DecodeIffWellFormed(s: string)
    ensures Decode(s).Some? <==> WellFormed(s)
  {
    if 0 < |s| < 4 {
      assert !WellFormed(s);
    } else if |s| == 4 {
      FinalIffWellFormed(s);
    } else if |s| > 4 {
      DecodeIffWellFormed(s[4..]);
      WellFormedLong(s);
      assert Decode(s).Some? <==> DecodeGroup(s[0], s[1], s[2], s[3]).Some? && Decode(s[4..]).Some?;
    }
  }

  lemma FinalIffWellFormed(s: string)
    requires |s| == 4
    ensures DecodeFinal(s[0], s[1], s[2], s[3]).Some? <==> WellFormed(s)
  {
    assert ValueOf(Pad).None?;
  }

  /** A longer text is well-formed when its first group is four alphabet characters and the rest is well-formed. */
  lemma WellFormedLong(s: string)
    requires |s| > 4
    ensures WellFormed(s) <==>
      (forall i | 0 <= i < 4 :: ValueOf(s[i]).Some?) && WellFormed(s[4..])
  {
    var t := s[4..];
    assert forall i | 0 <= i < |t| :: t[i] == s[i + 4];
    if WellFormed(s) {
      assert forall i | 0 <= i < |t| - 2 :: ValueOf(t[i]).Some?;
    }
    if (forall i | 0 <= i < 4 :: ValueOf(s[i]).Some?) && WellFormed(t) {
      forall i | 0 <= i < |s| - 2
        ensures ValueOf(s[i]).Some?
      {
        if i >= 4 { assert s[i] == t[i - 4]; }
      }
    }
  }
}
