/**
  The digest conversions of the manager: a hexadecimal MD5 string becomes the base64
  value of the `Content-MD5` header and back. Hex is the base16 encoding of section 8 of
  RFC 4648 (decoding accepts both cases, encoding writes lower case, as `binascii` does);
  base64 is the encoding of section 4 of RFC 4648 with `=` padding.
 */
module Digest {
  import opened Outcomes

  type Byte = x: int | 0 <= x < 256

  // ---------------------------------------------------------------- base16

  function HexValue(c: char): Option<int> {
    if '0' <= c <= '9' then Some(c as int - '0' as int)
    else if 'a' <= c <= 'f' then Some(c as int - 'a' as int + 10)
    else if 'A' <= c <= 'F' then Some(c as int - 'A' as int + 10)
    else None
  }

  function HexDigit(v: int): (c: char)
    requires 0 <= v < 16
    ensures HexValue(c) == Some(v)
  {
    if v < 10 then ('0' as int + v) as char else ('a' as int + v - 10) as char
  }

  predicate IsLowerHexDigit(c: char) {
    '0' <= c <= '9' || 'a' <= c <= 'f'
  }

  predicate IsLowerHex(s: string) {
    forall i :: 0 <= i < |s| ==> IsLowerHexDigit(s[i])
  }

  predicate IsHex(s: string) {
    forall i :: 0 <= i < |s| ==> HexValue(s[i]).Some?
  }

  /** `binascii.a2b_hex`: fails on an odd length or a character that is not a hex digit. */
  function HexDecode(s: string): (r: Option<seq<Byte>>)
    ensures r.Some? <==> |s| % 2 == 0 && IsHex(s)
    ensures r.Some? ==> |r.value| == |s| / 2
    decreases |s|
  {
    if |s| % 2 == 1 then None
    else if s == [] then Some([])
    else if HexValue(s[0]).None? || HexValue(s[1]).None? then None
    else
      match HexDecode(s[2..])
      case None =>
        assert !IsHex(s) by {
          var i :| 0 <= i < |s[2..]| && HexValue(s[2..][i]).None?;
          assert HexValue(s[i + 2]).None?;
        }
        None
      case Some(rest) =>
        var hi := HexValue(s[0]).value;
        var lo := HexValue(s[1]).value;
        assert 0 <= hi < 16 && 0 <= lo < 16;
        assert IsHex(s) by {
          forall i | 0 <= i < |s| ensures HexValue(s[i]).Some? {
            if i >= 2 { assert s[i] == s[2..][i - 2]; }
          }
        }
        Some([hi * 16 + lo] + rest)
  }

  /** `binascii.b2a_hex`: two lower-case digits per byte. */
  function HexEncode(bs: seq<Byte>): (s: string)
    ensures |s| == 2 * |bs| && IsLowerHex(s)
  {
    if bs == [] then [] else [HexDigit(bs[0] / 16), HexDigit(bs[0] % 16)] + HexEncode(bs[1..])
  }

  lemma HexDigitLower(v: int)
    requires 0 <= v < 16
    ensures IsLowerHexDigit(HexDigit(v))
  {
  }

  /** Decoding what was encoded gives the bytes back. */
  lemma {:induction false} HexDecodeEncode(bs: seq<Byte>)
    ensures HexDecode(HexEncode(bs)) == Some(bs)
  {
    if bs != [] {
      var s := HexEncode(bs);
      assert s == [HexDigit(bs[0] / 16), HexDigit(bs[0] % 16)] + HexEncode(bs[1..]);
      assert s[2..] == HexEncode(bs[1..]);
      HexDecodeEncode(bs[1..]);
      LowerHexIsHex(s);
      HexDecodeCons(s);
      DigitsOfByte(bs[0]);
      assert [bs[0] / 16 * 16 + bs[0] % 16] + bs[1..] == bs;
    }
  }

  /** The two digits of a byte decode to its high and low halves. */
  lemma DigitsOfByte(b: Byte)
    ensures HexValue(HexDigit(b / 16)) == Some(b / 16) && HexValue(HexDigit(b % 16)) == Some(b % 16)
  {
  }

  /** A lower-case digit is the digit of its own value. */
  lemma LowerDigitOfValue(c: char)
    requires IsLowerHexDigit(c)
    ensures HexValue(c).Some? && 0 <= HexValue(c).value < 16 && HexDigit(HexValue(c).value) == c
  {
  }

  /** Two lower-case digits survive decoding to a byte and re-encoding. */
  lemma LowerPairOfByte(c0: char, c1: char)
    requires IsLowerHexDigit(c0) && IsLowerHexDigit(c1)
    ensures var b := HexValue(c0).value * 16 + HexValue(c1).value;
      0 <= b < 256 && HexDigit(b / 16) == c0 && HexDigit(b % 16) == c1
  {
    LowerDigitOfValue(c0);
    LowerDigitOfValue(c1);
    var hi := HexValue(c0).value;
    var lo := HexValue(c1).value;
    var b := hi * 16 + lo;
    assert b / 16 == hi && b % 16 == lo;
  }

  /** Decoding a non-empty hex string decodes its first pair and then the rest. */
  lemma HexDecodeCons(s: string)
    requires |s| >= 2 && |s| % 2 == 0 && IsHex(s)
    ensures HexDecode(s[2..]).Some?
    ensures HexDecode(s) == Some([HexValue(s[0]).value * 16 + HexValue(s[1]).value] + HexDecode(s[2..]).value)
  {
    assert IsHex(s[2..]) by {
      forall i | 0 <= i < |s| - 2 ensures HexValue(s[2..][i]).Some? {
        assert s[2..][i] == s[i + 2];
      }
    }
    assert HexValue(s[0]).Some? && HexValue(s[1]).Some?;
  }

  /** Every lower-case hex string is hex. */
  lemma LowerHexIsHex(s: string)
    requires IsLowerHex(s)
    ensures IsHex(s)
  {
    forall i | 0 <= i < |s| ensures HexValue(s[i]).Some? {
      assert IsLowerHexDigit(s[i]);
    }
  }

  /** Lower-case hex of even length survives decoding and re-encoding unchanged. */
  lemma {:induction false} HexEncodeDecode(s: string)
    requires |s| % 2 == 0 && IsLowerHex(s)
    ensures HexDecode(s).Some? && HexEncode(HexDecode(s).value) == s
    decreases |s|
  {
    LowerHexIsHex(s);
    if s != [] {
      var tail := s[2..];
      assert IsLowerHex(tail) by {
        forall i | 0 <= i < |tail| ensures IsLowerHexDigit(tail[i]) {
          assert tail[i] == s[i + 2];
        }
      }
      HexEncodeDecode(tail);
      HexDecodeCons(s);
      var rest := HexDecode(tail).value;
      assert IsLowerHexDigit(s[0]) && IsLowerHexDigit(s[1]);
      LowerPairOfByte(s[0], s[1]);
      var b := HexValue(s[0]).value * 16 + HexValue(s[1]).value;
      var bs := [b] + rest;
      assert bs[0] == b && bs[1..] == rest;
      assert HexEncode(bs) == [HexDigit(b / 16), HexDigit(b % 16)] + HexEncode(rest);
      assert s == [s[0], s[1]] + tail;
    }
  }

  // ---------------------------------------------------------------- base64

  /** The character of a six-bit value in the standard alphabet. */
  function B64Char(v: int): (c: char)
    requires 0 <= v < 64
  {
    if v < 26 then ('A' as int + v) as char
    else if v < 52 then ('a' as int + v - 26) as char
    else if v < 62 then ('0' as int + v - 52) as char
    else if v == 62 then '+'
    else '/'
  }

  /** The six-bit value of an alphabet character. */
  function B64Value(c: char): (r: Option<int>)
    ensures r.Some? ==> 0 <= r.value < 64
  {
    if 'A' <= c <= 'Z' then Some(c as int - 'A' as int)
    else if 'a' <= c <= 'z' then Some(c as int - 'a' as int + 26)
    else if '0' <= c <= '9' then Some(c as int - '0' as int + 52)
    else if c == '+' then Some(62)
    else if c == '/' then Some(63)
    else None
  }

  lemma B64CharValue(v: int)
    requires 0 <= v < 64
    ensures B64Value(B64Char(v)) == Some(v) && B64Char(v) != '='
  {
  }

  /** `base64.b64encode`: each group of three bytes becomes four characters; a final group
      of one or two bytes is padded with `=`. */
  function Base64Encode(bs: seq<Byte>): (s: string)
    ensures |s| % 4 == 0
    decreases |bs|
  {
    if |bs| == 0 then []
    else if |bs| == 1 then
      [B64Char(bs[0] / 4), B64Char(bs[0] % 4 * 16), '=', '=']
    else if |bs| == 2 then
      [B64Char(bs[0] / 4), B64Char(bs[0] % 4 * 16 + bs[1] / 16), B64Char(bs[1] % 16 * 4), '=']
    else
      FullGroup(bs[0], bs[1], bs[2]) + Base64Encode(bs[3..])
  }

  /** Three bytes as four characters. */
  function FullGroup(b0: Byte, b1: Byte, b2: Byte): string {
    [B64Char(b0 / 4), B64Char(b0 % 4 * 16 + b1 / 16), B64Char(b1 % 16 * 4 + b2 / 64), B64Char(b2 % 64)]
  }

  /** One group of four characters; padding is allowed only in the final group.
      Bits below the last whole byte are ignored, as Python's decoder ignores them. */
  function DecodeGroup(g: string, final: bool): Option<seq<Byte>>
    requires |g| == 4
  {
    var (a, b, c, d) := (g[0], g[1], g[2], g[3]);
    match (B64Value(a), B64Value(b), B64Value(c), B64Value(d))
    case (Some(va), Some(vb), Some(vc), Some(vd)) =>
      Some([va * 4 + vb / 16, vb % 16 * 16 + vc / 4, vc % 4 * 64 + vd])
    case (Some(va), Some(vb), Some(vc), None) =>
      if final && d == '=' then Some([va * 4 + vb / 16, vb % 16 * 16 + vc / 4]) else None
    case (Some(va), Some(vb), None, None) =>
      if final && c == '=' && d == '=' then Some([va * 4 + vb / 16]) else None
    case _ => None
  }

  /** `base64.b64decode` on well-formed input: a multiple of four alphabet characters
      with at most two `=` at the end. */
  function Base64Decode(s: string): Option<seq<Byte>>
    decreases |s|
  {
    if |s| % 4 != 0 then None
    else if s == [] then Some([])
    else
      Concat(DecodeGroup(s[..4], s[4..] == []), Base64Decode(s[4..]))
  }

  /** Both halves decoded: their concatenation; otherwise the decoder's error. */
  function Concat(a: Option<seq<Byte>>, b: Option<seq<Byte>>): Option<seq<Byte>> {
    if a.Some? && b.Some? then Some(a.value + b.value) else None
  }

  lemma DecodeFullQuad(b0: Byte, b1: Byte, b2: Byte, final: bool)
    ensures DecodeGroup(FullGroup(b0, b1, b2), final) == Some([b0, b1, b2])
  {
    B64CharValue(b0 / 4);
    B64CharValue(b0 % 4 * 16 + b1 / 16);
    B64CharValue(b1 % 16 * 4 + b2 / 64);
    B64CharValue(b2 % 64);
    var vb := b0 % 4 * 16 + b1 / 16;
    var vc := b1 % 16 * 4 + b2 / 64;
    assert vb / 16 == b0 % 4 && vb % 16 == b1 / 16;
    assert vc / 4 == b1 % 16 && vc % 4 == b2 / 64;
  }

  lemma DecodeOneByte(b0: Byte)
    ensures Base64Decode(Base64Encode([b0])) == Some([b0])
  {
    var s := [B64Char(b0 / 4), B64Char(b0 % 4 * 16), '=', '='];
    assert Base64Encode([b0]) == s;
    B64CharValue(b0 / 4);
    B64CharValue(b0 % 4 * 16);
    assert B64Value('=') == None;
    assert s[..4] == s;
    assert DecodeGroup(s[..4], true) == Some([b0]);
    assert s[4..] == [] && Base64Decode(s[4..]) == Some([]);
    assert [b0] + [] == [b0];
  }

  lemma DecodeTwoBytes(b0: Byte, b1: Byte)
    ensures Base64Decode(Base64Encode([b0, b1])) == Some([b0, b1])
  {
    var s := [B64Char(b0 / 4), B64Char(b0 % 4 * 16 + b1 / 16), B64Char(b1 % 16 * 4), '='];
    assert Base64Encode([b0, b1]) == s;
    B64CharValue(b0 / 4);
    B64CharValue(b0 % 4 * 16 + b1 / 16);
    B64CharValue(b1 % 16 * 4);
    var vb := b0 % 4 * 16 + b1 / 16;
    assert vb / 16 == b0 % 4 && vb % 16 == b1 / 16;
    assert B64Value('=') == None;
    assert s[..4] == s;
    assert DecodeGroup(s[..4], true) == Some([b0, b1]);
    assert s[4..] == [] && Base64Decode(s[4..]) == Some([]);
    assert [b0, b1] + [] == [b0, b1];
  }

  /** Decoding what was encoded gives the bytes back. */
  lemma {:induction false} Base64DecodeEncode(bs: seq<Byte>)
    ensures Base64Decode(Base64Encode(bs)) == Some(bs)
    decreases |bs|
  {
    if |bs| == 1 {
      DecodeEncodeOne(bs);
    } else if |bs| == 2 {
      DecodeEncodeTwo(bs);
    } else if |bs| >= 3 {
      var rest := Base64Encode(bs[3..]);
      Base64DecodeEncode(bs[3..]);
      EncodeFirstGroup(bs);
      DecodeFullQuad(bs[0], bs[1], bs[2], rest == []);
      DecodeAppend(FullGroup(bs[0], bs[1], bs[2]), rest, [bs[0], bs[1], bs[2]], bs[3..]);
      assert [bs[0], bs[1], bs[2]] + bs[3..] == bs;
    }
  }

  lemma DecodeEncodeOne(bs: seq<Byte>)
    requires |bs| == 1
    ensures Base64Decode(Base64Encode(bs)) == Some(bs)
  {
    assert [bs[0]] == bs;
    DecodeOneByte(bs[0]);
  }

  lemma DecodeEncodeTwo(bs: seq<Byte>)
    requires |bs| == 2
    ensures Base64Decode(Base64Encode(bs)) == Some(bs)
  {
    assert [bs[0], bs[1]] == bs;
    DecodeTwoBytes(bs[0], bs[1]);
  }

  /** The encoding of three or more bytes starts with the group of the first three. */
  lemma EncodeFirstGroup(bs: seq<Byte>)
    requires |bs| >= 3
    ensures Base64Encode(bs) == FullGroup(bs[0], bs[1], bs[2]) + Base64Encode(bs[3..])
  {
  }

  /** Decoding a leading group of four and the rest separately. */
  lemma DecodeAppend(group: string, rest: string, g: seq<Byte>, r: seq<Byte>)
    requires |group| == 4 && |rest| % 4 == 0
    requires DecodeGroup(group, rest == []) == Some(g)
    requires Base64Decode(rest) == Some(r)
    ensures Base64Decode(group + rest) == Some(g + r)
  {
    DecodeGroupThenRest(group, rest);
  }

  lemma DecodeGroupThenRest(group: string, rest: string)
    requires |group| == 4 && |rest| % 4 == 0
    ensures Base64Decode(group + rest) == Concat(DecodeGroup(group, rest == []), Base64Decode(rest))
  {
    var s := group + rest;
    SplitAfterGroup(group, rest);
    DecodeStep(s);
  }

  lemma SplitAfterGroup(group: string, rest: string)
    requires |group| == 4
    ensures (group + rest)[..4] == group && (group + rest)[4..] == rest
  {
  }

  /** A non-empty input of whole groups decodes as its first group followed by the rest. */
  lemma DecodeStep(s: string)
    requires |s| % 4 == 0 && s != []
    ensures Base64Decode(s) == Concat(DecodeGroup(s[..4], s[4..] == []), Base64Decode(s[4..]))
  {
  }

  // ---------------------------------------------------------------- the manager's pair

  /** `md5_to_base64`: hex decode, then base64 encode; fails where `a2b_hex` raises. */
  function Md5ToBase64(md5: string): (r: Option<string>)
    ensures r.Some? <==> |md5| % 2 == 0 && IsHex(md5)
  {
    match HexDecode(md5)
    case Some(bs) => Some(Base64Encode(bs))
    case None => None
  }

  /** `base64_to_md5`: base64 decode, then lower-case hex encode. */
  function Base64ToMd5(b64: string): (r: Option<string>)
    ensures r.Some? ==> IsLowerHex(r.value) && |r.value| % 2 == 0
  {
    var bs := Base64Decode(b64);
    if bs.Some? then Some(HexEncode(bs.value)) else None
  }

  /** A lower-case hex digest survives the trip to base64 and back. */
  lemma Md5RoundTrip(md5: string)
    requires |md5| % 2 == 0 && IsLowerHex(md5)
    ensures Md5ToBase64(md5).Some?
    ensures Base64ToMd5(Md5ToBase64(md5).value) == Some(md5)
  {
    HexEncodeDecode(md5);
    Base64DecodeEncode(HexDecode(md5).value);
  }

  /** A base64 header value produced by the encoder survives the trip to hex and back. */
  lemma Base64RoundTrip(bs: seq<Byte>)
    ensures Base64ToMd5(Base64Encode(bs)).Some?
    ensures Md5ToBase64(Base64ToMd5(Base64Encode(bs)).value) == Some(Base64Encode(bs))
  {
    Base64DecodeEncode(bs);
    HexDecodeEncode(bs);
  }

  /** Every started group of three bytes yields four characters. */
  lemma {:induction false} Base64Length(bs: seq<Byte>)
    ensures |Base64Encode(bs)| == 4 * ((|bs| + 2) / 3)
    decreases |bs|
  {
    if |bs| >= 3 {
      Base64Length(bs[3..]);
      assert (|bs| + 2) / 3 == (|bs[3..]| + 2) / 3 + 1;
    }
  }

  /** An MD5 digest is sixteen bytes, 32 hex digits; its base64 form has 24 characters. */
  lemma Md5HeaderLength(md5: string)
    requires |md5| == 32 && IsHex(md5)
    ensures Md5ToBase64(md5).Some? && |Md5ToBase64(md5).value| == 24
  {
    Base64Length(HexDecode(md5).value);
  }
}
