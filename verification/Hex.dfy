/** `clodex_sha256_hex` and the lowercase-digest check of both sides of the wire. */
module Hex {
  import opened Bytes

  /** The alphabet "0123456789abcdef" at index `d`. */
  function Digit(d: int): (c: byte)
    requires 0 <= d < 16
  {
    if d < 10 then '0' as int + d else 'a' as int + (d - 10)
  }

  predicate IsHexDigit(c: int) {
    '0' as int <= c <= '9' as int || 'a' as int <= c <= 'f' as int
  }

  function Value(c: byte): (d: int)
    requires IsHexDigit(c)
    ensures 0 <= d < 16 && Digit(d) == c
  {
    if c <= '9' as int then c - '0' as int else c - 'a' as int + 10
  }

  lemma DigitIsHex(d: int)
    requires 0 <= d < 16
    ensures IsHexDigit(Digit(d)) && Value(Digit(d)) == d
  {
  }

  function Encode(bytes: seq<byte>): (r: seq<byte>)
    ensures |r| == 2 * |bytes|
  {
    seq(2 * |bytes|, i requires 0 <= i < 2 * |bytes| =>
      if i % 2 == 0 then Digit(bytes[i / 2] / 16) else Digit(bytes[i / 2] % 16))
  }

  /** `is_lowercase_digest` and the pattern `^[a-f0-9]{64}$`. */
  predicate IsLowercaseDigest(text: seq<int>) {
    |text| == 64 && forall i :: 0 <= i < 64 ==> IsHexDigit(text[i])
  }

  function Decode(text: seq<byte>): (r: seq<byte>)
    requires |text| % 2 == 0
    requires forall i :: 0 <= i < |text| ==> IsHexDigit(text[i])
    ensures 2 * |r| == |text|
  {
    seq(|text| / 2, i requires 0 <= i < |text| / 2 => 16 * Value(text[2 * i]) + Value(text[2 * i + 1]))
  }

  /** Every printed digest is made of lowercase hexadecimal digits and decodes to its octets. */
  lemma EncodeRoundTrip(bytes: seq<byte>)
    ensures forall i :: 0 <= i < |Encode(bytes)| ==> IsHexDigit(Encode(bytes)[i])
    ensures Decode(Encode(bytes)) == bytes
  {
    hide Digit, Value, IsHexDigit;
    var text := Encode(bytes);
    forall i | 0 <= i < |text|
      ensures IsHexDigit(text[i])
    {
      DigitIsHex(bytes[i / 2] / 16);
      DigitIsHex(bytes[i / 2] % 16);
    }
    forall i | 0 <= i < |bytes|
      ensures Decode(text)[i] == bytes[i]
    {
      DigitIsHex(bytes[i] / 16);
      DigitIsHex(bytes[i] % 16);
    }
  }

  lemma PairOfDigits(high: byte, low: byte)
    requires IsHexDigit(high) && IsHexDigit(low)
    ensures var b := 16 * Value(high) + Value(low); 0 <= b < 256 && Digit(b / 16) == high && Digit(b % 16) == low
  {
  }

  /** Every text that passes the digest check is the printed form of exactly one digest. */
  lemma DecodeRoundTrip(text: seq<byte>)
    requires |text| % 2 == 0
    requires forall i :: 0 <= i < |text| ==> IsHexDigit(text[i])
    ensures Encode(Decode(text)) == text
  {
    hide Digit, Value, IsHexDigit;
    var bytes := Decode(text);
    forall i | 0 <= i < |text|
      ensures Encode(bytes)[i] == text[i]
    {
      var k := i / 2;
      assert i == 2 * k || i == 2 * k + 1;
      PairOfDigits(text[2 * k], text[2 * k + 1]);
    }
  }

  lemma EncodeInjective(a: seq<byte>, b: seq<byte>)
    requires Encode(a) == Encode(b)
    ensures a == b
  {
    EncodeRoundTrip(a);
    EncodeRoundTrip(b);
  }

  lemma DigestIsLowercase(digest: seq<byte>)
    requires |digest| == 32
    ensures IsLowercaseDigest(Encode(digest)) && Decode(Encode(digest)) == digest
  {
    EncodeRoundTrip(digest);
  }

  /** `clodex_sha256_hex` */
  method PrintHex(digest: seq<byte>) returns (output: array<byte>)
    requires |digest| == 32
    ensures fresh(output) && output.Length == 65
    ensures output[..64] == Encode(digest) && output[64] == 0
  {
    output := new byte[65](_ => 0);
    for index := 0 to 32
      invariant forall i :: 0 <= i < 2 * index ==> output[i] == Encode(digest)[i]
    {
      output[2 * index] := Digit(digest[index] / 16);
      output[2 * index + 1] := Digit(digest[index] % 16);
    }
    output[64] := 0;
  }
}
