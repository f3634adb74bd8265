/**
 * The base64 encoding of section 4 of RFC 4648: the standard alphabet
 * `A-Z a-z 0-9 + /` with `=` padding, as the `STANDARD` engine of the
 * base64 crate produces it.  The strict decoder beside it is the partner
 * that shows the encoding loses nothing.
 */
module Base64 {
  import opened Wrappers
  import opened Bytes

  type sextet = x: int | 0 <= x < 64

  const PAD: char := '='

  /** The character of the alphabet (Table 1 of RFC 4648) for one 6-bit value. */
  function Char(i: sextet): (c: char)
    ensures Index(c) == Some(i)
    ensures c != PAD
    ensures ' ' < c <= '~'
  {
    if i < 26 then ('A' as int + i) as char
    else if i < 52 then ('a' as int + i - 26) as char
    else if i < 62 then ('0' as int + i - 52) as char
    else if i == 62 then '+'
    else '/'
  }

  /** The inverse of Char: the 6-bit value of an alphabet character. */
  function Index(c: char): Option<sextet>
  {
    if 'A' <= c <= 'Z' then Some(c as int - 'A' as int)
    else if 'a' <= c <= 'z' then Some(c as int - 'a' as int + 26)
    else if '0' <= c <= '9' then Some(c as int - '0' as int + 52)
    else if c == '+' then Some(62)
    else if c == '/' then Some(63)
    else None
  }

  /** Three octets become four characters. */
  function EncodeGroup(b0: byte, b1: byte, b2: byte): string
  {
    [Char(b0 / 4), Char((b0 % 4) * 16 + b1 / 16), Char((b1 % 16) * 4 + b2 / 64), Char(b2 % 64)]
  }

  /** A final quantum of one octet: two characters and two pad characters. */
  function EncodeTail1(b0: byte): string
  {
    [Char(b0 / 4), Char((b0 % 4) * 16), PAD, PAD]
  }

  /** A final quantum of two octets: three characters and one pad character. */
  function EncodeTail2(b0: byte, b1: byte): string
  {
    [Char(b0 / 4), Char((b0 % 4) * 16 + b1 / 16), Char((b1 % 16) * 4), PAD]
  }

  /** A character that may appear in encoded data, padding included. */
  predicate InAlphabet(c: char)
  {
    Index(c).Some? || c == PAD
  }

  function Encode(b: seq<byte>): (s: string)
    ensures |s| == 4 * ((|b| + 2) / 3)
    ensures forall k :: 0 <= k < |s| ==> InAlphabet(s[k]) && ' ' < s[k] <= '~'
    decreases |b|
  {
    if |b| == 0 then []
    else if |b| == 1 then EncodeTail1(b[0])
    else if |b| == 2 then EncodeTail2(b[0], b[1])
    else EncodeGroup(b[0], b[1], b[2]) + Encode(b[3..])
  }

  /**
   * One four-character quantum.  Padding is accepted only in the last
   * quantum, and the bits that padding discards must be zero (the
   * canonical encoding of section 3.5 of RFC 4648).
   */
  function DecodeQuad(q: string, last: bool): Option<seq<byte>>
    requires |q| == 4
  {
    match (Index(q[0]), Index(q[1]))
    case (Some(c0), Some(c1)) =>
      if last && q[2] == PAD && q[3] == PAD then
        if c1 % 16 == 0 then Some([c0 * 4 + c1 / 16]) else None
      else
        (match Index(q[2])
         case None => None
         case Some(c2) =>
           if last && q[3] == PAD then
             if c2 % 4 == 0 then Some([c0 * 4 + c1 / 16, (c1 % 16) * 16 + c2 / 4]) else None
           else
             (match Index(q[3])
              case None => None
              case Some(c3) => Some([c0 * 4 + c1 / 16, (c1 % 16) * 16 + c2 / 4, (c2 % 4) * 64 + c3])))
    case _ => None
  }

  function Decode(s: string): Option<seq<byte>>
    decreases |s|
  {
    if |s| == 0 then Some([])
    else if |s| < 4 then None
    else
      match DecodeQuad(s[..4], |s| == 4)
      case None => None
      case Some(g) =>
        if |s| == 4 then Some(g)
        else
          match Decode(s[4..])
          case None => None
          case Some(rest) => Some(g + rest)
  }

  lemma GroupRoundTrip(b0: byte, b1: byte, b2: byte, last: bool)
    ensures DecodeQuad(EncodeGroup(b0, b1, b2), last) == Some([b0, b1, b2])
  {
    var c1: sextet := (b0 % 4) * 16 + b1 / 16;
    var c2: sextet := (b1 % 16) * 4 + b2 / 64;
    assert c1 / 16 == b0 % 4 && c1 % 16 == b1 / 16;
    assert c2 / 4 == b1 % 16 && c2 % 4 == b2 / 64;
  }

  lemma Tail1RoundTrip(b0: byte)
    ensures DecodeQuad(EncodeTail1(b0), true) == Some([b0])
  {
  }

  lemma Tail2RoundTrip(b0: byte, b1: byte)
    ensures DecodeQuad(EncodeTail2(b0, b1), true) == Some([b0, b1])
  {
    var c1, c2 := (b0 % 4) * 16 + b1 / 16, (b1 % 16) * 4;
    assert c1 / 16 == b0 % 4 && c1 % 16 == b1 / 16;
    assert c2 % 4 == 0 && c2 / 4 == b1 % 16;
  }

  /** A full quantum followed by more encoded data decodes quantum by quantum. */
  lemma DecodeThen(g: string, rest: string, x: seq<byte>, y: seq<byte>)
    requires |g| == 4 && DecodeQuad(g, false) == Some(x) && |rest| > 0 && Decode(rest) == Some(y)
    ensures Decode(g + rest) == Some(x + y)
  {
  }

  lemma OneRoundTrip(b: seq<byte>)
    requires |b| == 1
    ensures Decode(Encode(b)) == Some(b)
  {
    Tail1RoundTrip(b[0]);
    var s := Encode(b);
    assert s[..4] == s;
    assert b == [b[0]];
  }

  lemma TwoRoundTrip(b: seq<byte>)
    requires |b| == 2
    ensures Decode(Encode(b)) == Some(b)
  {
    Tail2RoundTrip(b[0], b[1]);
    var s := Encode(b);
    assert s[..4] == s;
    assert b == [b[0], b[1]];
  }

  lemma ThreeRoundTrip(b: seq<byte>)
    requires |b| == 3
    ensures Decode(Encode(b)) == Some(b)
  {
    GroupRoundTrip(b[0], b[1], b[2], true);
    var s := Encode(b);
    assert b[3..] == [];
    assert s == EncodeGroup(b[0], b[1], b[2]);
    assert s[..4] == s;
    assert b == [b[0], b[1], b[2]];
  }

  lemma SplitThree(b: seq<byte>)
    requires |b| >= 3
    ensures [b[0], b[1], b[2]] + b[3..] == b
  {
  }

  /** Past the first quantum, the round trip of the rest carries over. */
  lemma LongRoundTrip(b: seq<byte>)
    requires |b| > 3 && Decode(Encode(b[3..])) == Some(b[3..])
    ensures Decode(Encode(b)) == Some(b)
  {
    var g, rest := EncodeGroup(b[0], b[1], b[2]), Encode(b[3..]);
    assert Encode(b) == g + rest;
    assert |rest| > 0;
    GroupRoundTrip(b[0], b[1], b[2], false);
    DecodeThen(g, rest, [b[0], b[1], b[2]], b[3..]);
    SplitThree(b);
  }

  /** Decoding what was encoded gives back the octets. */
  lemma {:induction false} DecodeEncode(b: seq<byte>)
    ensures Decode(Encode(b)) == Some(b)
    decreases |b|
  {
    if |b| == 1 {
      OneRoundTrip(b);
    } else if |b| == 2 {
      TwoRoundTrip(b);
    } else if |b| == 3 {
      ThreeRoundTrip(b);
    } else if |b| > 3 {
      DecodeEncode(b[3..]);
      LongRoundTrip(b);
    }
  }
}
