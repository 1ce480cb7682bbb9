/** Lowercase hexadecimal text: `hex::encode` (object hashes and tree entry
    hashes are kept as this text) and its inverse, which the tree serializer
    uses to write an entry's hash back as raw bytes. */
module Hex {
  import opened Bytes
  import opened Results

  function HexDigit(n: nat): Byte
    requires n < 16
  {
    if n < 10 then 0x30 + n else 0x61 + (n - 10)
  }

  /** The value of one lowercase hex digit ('0'..'9', 'a'..'f'). */
  function DigitValue(c: Byte): (r: Option<nat>)
    ensures r.Some? ==> r.value < 16 && HexDigit(r.value) == c
  {
    if 0x30 <= c <= 0x39 then Some(c - 0x30)
    else if 0x61 <= c <= 0x66 then Some(c - 0x61 + 10)
    else None
  }

  predicate IsLowerHex(s: Bytes)
  {
    forall i :: 0 <= i < |s| ==> DigitValue(s[i]).Some?
  }

  /** `hex::encode`: two lowercase digits per byte, high nibble first. */
  function Encode(bs: Bytes): (r: Bytes)
    ensures |r| == 2 * |bs| && IsLowerHex(r)
    ensures forall i :: 0 <= i < |bs| ==> r[2 * i] == HexDigit(bs[i] / 16) && r[2 * i + 1] == HexDigit(bs[i] % 16)
  {
    if bs == [] then []
    else
      var hi, lo := bs[0] / 16, bs[0] % 16;
      assert DigitValue(HexDigit(hi)) == Some(hi);
      assert DigitValue(HexDigit(lo)) == Some(lo);
      var rest := Encode(bs[1..]);
      EncodeCons(bs, [HexDigit(hi), HexDigit(lo)], rest);
      [HexDigit(hi), HexDigit(lo)] + rest
  }

  /** The digits of the first byte in front of the digits of the rest. */
  lemma EncodeCons(bs: Bytes, head: Bytes, rest: Bytes)
    requires bs != [] && head == [HexDigit(bs[0] / 16), HexDigit(bs[0] % 16)]
    requires |rest| == 2 * (|bs| - 1)
    requires forall i :: 0 <= i < |bs| - 1 ==> rest[2 * i] == HexDigit(bs[1..][i] / 16) && rest[2 * i + 1] == HexDigit(bs[1..][i] % 16)
    ensures forall i :: 0 <= i < |bs| ==> (head + rest)[2 * i] == HexDigit(bs[i] / 16) && (head + rest)[2 * i + 1] == HexDigit(bs[i] % 16)
  {
    forall i | 0 <= i < |bs| ensures (head + rest)[2 * i] == HexDigit(bs[i] / 16) && (head + rest)[2 * i + 1] == HexDigit(bs[i] % 16) {
      if i > 0 {
        assert bs[i] == bs[1..][i - 1];
        assert (head + rest)[2 * i] == rest[2 * (i - 1)];
        assert (head + rest)[2 * i + 1] == rest[2 * (i - 1) + 1];
      }
    }
  }

  /** Encoding a single byte: its high digit, then its low digit. */
  lemma EncodeByte(x: Byte, rest: Bytes)
    ensures Encode([x] + rest) == [HexDigit(x / 16), HexDigit(x % 16)] + Encode(rest)
  {
    assert ([x] + rest)[1..] == rest;
  }

  /** The unit test of `encode`: a digest's first byte names the directory
      `e6`. */
  lemma EncodeExample()
    ensures Encode([0xe6]) == Ascii("e6")
  {
    EncodeByte(0xe6, []);
  }

  /** Lowercase-hex decoding, the inverse of `Encode`: defined exactly on
      even-length strings of lowercase hex digits. The tree serializer's
      `hex_to_hex_byte` has no definition in the source; this strict inverse
      is the behaviour assumed for it. */
  function Decode(s: Bytes): (r: Option<Bytes>)
    ensures r.Some? <==> |s| % 2 == 0 && IsLowerHex(s)
    ensures r.Some? ==> 2 * |r.value| == |s|
    decreases |s|
  {
    if |s| == 0 then Some([])
    else if |s| == 1 then None
    else
      var rest := Decode(s[2..]);
      assert IsLowerHex(s) <==> DigitValue(s[0]).Some? && DigitValue(s[1]).Some? && IsLowerHex(s[2..]) by {
        if DigitValue(s[0]).Some? && DigitValue(s[1]).Some? && IsLowerHex(s[2..]) {
          forall i | 0 <= i < |s| ensures DigitValue(s[i]).Some? {
            if i >= 2 { assert s[i] == s[2..][i - 2]; }
          }
        }
      }
      match (DigitValue(s[0]), DigitValue(s[1]), rest)
      case (Some(hi), Some(lo), Some(tail)) => Some([hi * 16 + lo] + tail)
      case _ => None
  }

  /** The two digits of a byte in front of decodable text decode to that
      byte in front of the text's bytes. */
  lemma DecodePair(x: Byte, t: Bytes)
    requires Decode(t).Some?
    ensures Decode([HexDigit(x / 16), HexDigit(x % 16)] + t) == Some([x] + Decode(t).value)
  {
    var s := [HexDigit(x / 16), HexDigit(x % 16)] + t;
    assert s[2..] == t;
    assert DigitValue(s[0]) == Some(x / 16) && DigitValue(s[1]) == Some(x % 16);
  }

  /** Decoding recovers the encoded bytes. */
  lemma {:induction false} DecodeEncode(bs: Bytes)
    ensures Decode(Encode(bs)) == Some(bs)
  {
    if bs != [] {
      assert bs == [bs[0]] + bs[1..];
      EncodeByte(bs[0], bs[1..]);
      DecodeEncode(bs[1..]);
      DecodePair(bs[0], Encode(bs[1..]));
    }
  }

  /** Encoding recovers the decoded text: the decoder accepts only the
      encoder's output. */
  lemma {:induction false} EncodeDecode(s: Bytes)
    requires Decode(s).Some?
    ensures Encode(Decode(s).value) == s
    decreases |s|
  {
    if |s| >= 2 {
      var hi, lo := DigitValue(s[0]).value, DigitValue(s[1]).value;
      var b := hi * 16 + lo;
      EncodeDecode(s[2..]);
      assert b / 16 == hi && b % 16 == lo;
      var bs := Decode(s).value;
      assert bs == [b] + Decode(s[2..]).value;
      assert bs[1..] == Decode(s[2..]).value;
      assert s == [s[0], s[1]] + s[2..];
    }
  }
}
