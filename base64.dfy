/**
 * Base64 as defined in section 4 of RFC 4648: every 3 input bytes become 4
 * characters of the 64-character alphabet, and a final group of 1 or 2 bytes
 * is padded with `=` to 4 characters. This is what the generator's
 * `encode_image_base64` produces for the bytes of an image file.
 */
module Base64 {
  import opened Options

  type byte = x: int | 0 <= x < 256

  /** A character of the alphabet of Table 1 of RFC 4648. */
  predicate IsBase64Char(c: char) {
    ('A' <= c <= 'Z') || ('a' <= c <= 'z') || ('0' <= c <= '9') || c == '+' || c == '/'
  }

  /** The character that encodes the 6-bit value `i` (Table 1 of RFC 4648). */
  function IndexChar(i: int): (c: char)
    requires 0 <= i < 64
    ensures IsBase64Char(c)
  {
    if i < 26 then ('A' as int + i) as char
    else if i < 52 then ('a' as int + (i - 26)) as char
    else if i < 62 then ('0' as int + (i - 52)) as char
    else if i == 62 then '+'
    else '/'
  }

  /** The 6-bit value an alphabet character stands for. */
  function CharIndex(c: char): (i: int)
    requires IsBase64Char(c)
    ensures 0 <= i < 64 && IndexChar(i) == c
  {
    if 'A' <= c <= 'Z' then c as int - 'A' as int
    else if 'a' <= c <= 'z' then c as int - 'a' as int + 26
    else if '0' <= c <= '9' then c as int - '0' as int + 52
    else if c == '+' then 62
    else 63
  }

  lemma CharIndexOfIndexChar(i: int)
    requires 0 <= i < 64
    ensures CharIndex(IndexChar(i)) == i
  {
  }

  /** Three bytes (24 bits) as four 6-bit characters. */
  function EncodeGroup(b0: byte, b1: byte, b2: byte): string {
    [IndexChar(b0 / 4), IndexChar((b0 % 4) * 16 + b1 / 16),
     IndexChar((b1 % 16) * 4 + b2 / 64), IndexChar(b2 % 64)]
  }

  /** A final group of two bytes: three characters and one `=`. */
  function EncodeTail2(b0: byte, b1: byte): string {
    [IndexChar(b0 / 4), IndexChar((b0 % 4) * 16 + b1 / 16), IndexChar((b1 % 16) * 4), '=']
  }

  /** A final group of one byte: two characters and `==`. */
  function EncodeTail1(b0: byte): string {
    [IndexChar(b0 / 4), IndexChar((b0 % 4) * 16), '=', '=']
  }

  /**
   * `base64.b64encode(data)`: the output has 4 characters per started group
   * of 3 bytes, uses only the alphabet, and `=` only in its last two places.
   */
  function Encode(data: seq<byte>): (r: string)
    ensures |r| == 4 * ((|data| + 2) / 3)
    ensures forall i :: 0 <= i < |r| ==> IsBase64Char(r[i]) || r[i] == '='
    ensures forall i :: 0 <= i < |r| - 2 ==> r[i] != '='
    decreases |data|
  {
    if |data| == 0 then ""
    else if |data| == 1 then EncodeTail1(data[0])
    else if |data| == 2 then EncodeTail2(data[0], data[1])
    else EncodeGroup(data[0], data[1], data[2]) + Encode(data[3..])
  }

  /** Four alphabet characters as three bytes; `None` if any is not in the alphabet. */
  function DecodeGroup(s: string): Option<seq<byte>>
    requires |s| == 4
  {
    if IsBase64Char(s[0]) && IsBase64Char(s[1]) && IsBase64Char(s[2]) && IsBase64Char(s[3]) then
      var a, b, c, d := CharIndex(s[0]), CharIndex(s[1]), CharIndex(s[2]), CharIndex(s[3]);
      Some([a * 4 + b / 16, (b % 16) * 16 + c / 4, (c % 4) * 64 + d])
    else None
  }

  /** The last group of an encoding, which may carry one or two `=`. */
  function DecodeFinal(s: string): Option<seq<byte>>
    requires |s| == 4
  {
    if s[2] == '=' && s[3] == '=' then
      if IsBase64Char(s[0]) && IsBase64Char(s[1]) then
        var a, b := CharIndex(s[0]), CharIndex(s[1]);
        Some([a * 4 + b / 16])
      else None
    else if s[3] == '=' then
      if IsBase64Char(s[0]) && IsBase64Char(s[1]) && IsBase64Char(s[2]) then
        var a, b, c := CharIndex(s[0]), CharIndex(s[1]), CharIndex(s[2]);
        Some([a * 4 + b / 16, (b % 16) * 16 + c / 4])
      else None
    else DecodeGroup(s)
  }

  /** Base64 decoding: `None` for a length that is not a multiple of 4 or a stray character. */
  function Decode(s: string): Option<seq<byte>>
    decreases |s|
  {
    if |s| == 0 then Some([])
    else if |s| < 4 then None
    else if |s| == 4 then DecodeFinal(s)
    else
      match DecodeGroup(s[..4])
      case None => None
      case Some(group) =>
        match Decode(s[4..])
        case None => None
        case Some(rest) => Some(group + rest)
  }

  lemma GroupRoundTrip(b0: byte, b1: byte, b2: byte)
    ensures DecodeGroup(EncodeGroup(b0, b1, b2)) == Some([b0, b1, b2])
  {
    var i0, i1, i2, i3 := b0 / 4, (b0 % 4) * 16 + b1 / 16, (b1 % 16) * 4 + b2 / 64, b2 % 64;
    CharIndexOfIndexChar(i0);
    CharIndexOfIndexChar(i1);
    CharIndexOfIndexChar(i2);
    CharIndexOfIndexChar(i3);
    Digits16(b0 % 4, b1 / 16);
    Digits4(b1 % 16, b2 / 64);
  }

  /** Splitting a 6-bit value into its high 2 and low 4 bits. */
  lemma Digits16(hi: int, lo: int)
    requires 0 <= hi < 4 && 0 <= lo < 16
    ensures (hi * 16 + lo) / 16 == hi && (hi * 16 + lo) % 16 == lo
  {
  }

  /** Splitting a 6-bit value into its high 4 and low 2 bits. */
  lemma Digits4(hi: int, lo: int)
    requires 0 <= hi < 16 && 0 <= lo < 4
    ensures (hi * 4 + lo) / 4 == hi && (hi * 4 + lo) % 4 == lo
  {
  }

  lemma LastGroupRoundTrip(b0: byte, b1: byte, b2: byte)
    ensures Decode(EncodeGroup(b0, b1, b2)) == Some([b0, b1, b2])
  {
    GroupRoundTrip(b0, b1, b2);
  }

  lemma Tail2RoundTrip(b0: byte, b1: byte)
    ensures Decode(EncodeTail2(b0, b1)) == Some([b0, b1])
  {
    var i0, i1, i2 := b0 / 4, (b0 % 4) * 16 + b1 / 16, (b1 % 16) * 4;
    CharIndexOfIndexChar(i0);
    CharIndexOfIndexChar(i1);
    CharIndexOfIndexChar(i2);
    Digits16(b0 % 4, b1 / 16);
    Digits4(b1 % 16, 0);
  }

  lemma Tail1RoundTrip(b0: byte)
    ensures Decode(EncodeTail1(b0)) == Some([b0])
  {
    var i0, i1 := b0 / 4, (b0 % 4) * 16;
    CharIndexOfIndexChar(i0);
    CharIndexOfIndexChar(i1);
    Digits16(b0 % 4, 0);
  }

  /** Decoding a text longer than one group decodes its first group, then the rest. */
  lemma DecodeSplit(head: string, tail: string)
    requires |head| == 4 && |tail| > 0
    ensures Decode(head + tail) ==
      match DecodeGroup(head)
      case None => None
      case Some(group) => match Decode(tail) case None => None case Some(rest) => Some(group + rest)
  {
    var s := head + tail;
    assert s[..4] == head && s[4..] == tail;
  }

  /** Round trip of an input of at most one group (RFC 4648 section 4, cases (1) to (3)). */
  lemma ShortRoundTrip(data: seq<byte>)
    requires 0 < |data| <= 3
    ensures Decode(Encode(data)) == Some(data)
  {
    if |data| == 1 {
      OneByte(data);
      Tail1RoundTrip(data[0]);
    } else if |data| == 2 {
      TwoBytes(data);
      Tail2RoundTrip(data[0], data[1]);
    } else {
      ThreeBytes(data);
      LastGroupRoundTrip(data[0], data[1], data[2]);
    }
  }

  lemma OneByte(data: seq<byte>)
    requires |data| == 1
    ensures data == [data[0]] && Encode(data) == EncodeTail1(data[0])
  {
  }

  lemma TwoBytes(data: seq<byte>)
    requires |data| == 2
    ensures data == [data[0], data[1]] && Encode(data) == EncodeTail2(data[0], data[1])
  {
  }

  lemma ThreeBytes(data: seq<byte>)
    requires |data| == 3
    ensures data == [data[0], data[1], data[2]] && Encode(data) == EncodeGroup(data[0], data[1], data[2])
  {
    var group := EncodeGroup(data[0], data[1], data[2]);
    assert data[3..] == [];
    assert Encode(data) == group + Encode([]);
    assert group + "" == group;
  }

  lemma SplitAfterGroup(data: seq<byte>)
    requires |data| >= 3
    ensures [data[0], data[1], data[2]] + data[3..] == data
  {
  }

  /** One step of the round trip: a full group followed by a non-empty rest. */
  lemma LongRoundTrip(data: seq<byte>)
    requires |data| > 3
    requires Decode(Encode(data[3..])) == Some(data[3..])
    ensures Decode(Encode(data)) == Some(data)
  {
    SplitAfterGroup(data);
    var head, tail := EncodeGroup(data[0], data[1], data[2]), Encode(data[3..]);
    assert Encode(data) == head + tail;
    GroupRoundTrip(data[0], data[1], data[2]);
    DecodeSplit(head, tail);
  }

  /** Decoding an encoding gives back the original bytes. */
  lemma {:induction false} DecodeEncode(data: seq<byte>)
    ensures Decode(Encode(data)) == Some(data)
    decreases |data|
  {
    if 0 < |data| <= 3 {
      ShortRoundTrip(data);
    } else if |data| > 3 {
      DecodeEncode(data[3..]);
      LongRoundTrip(data);
    }
  }
}
