/** Octets, 64-bit words and big-endian encoding, shared by the hash and the native helper. */
module Bytes {
  type byte = b: int | 0 <= b < 256
  type u64 = n: int | 0 <= n < TWO_64

  const TWO_64: int := 0x1_0000_0000_0000_0000

  const SLASH: byte := '/' as int

  /** The `width` low-order octets of `n`, most significant first. */
  function BigEndian(n: nat, width: nat): (r: seq<byte>)
    ensures |r| == width
    decreases width
  {
    if width == 0 then [] else BigEndian(n / 256, width - 1) + [n % 256]
  }

  function FromBigEndian(s: seq<byte>): (n: nat)
  {
    if s == [] then 0 else FromBigEndian(s[..|s| - 1]) * 256 + s[|s| - 1]
  }

  function Pow256(k: nat): (p: int)
    ensures p > 0
  {
    if k == 0 then 1 else 256 * Pow256(k - 1)
  }

  /** Decoding undoes encoding for every number that fits the width. */
  lemma {:induction false} BigEndianRoundTrip(n: nat, width: nat)
    requires n < Pow256(width)
    ensures FromBigEndian(BigEndian(n, width)) == n
    decreases width
  {
    if width > 0 {
      BigEndianRoundTrip(n / 256, width - 1);
      var s := BigEndian(n, width);
      assert s[..|s| - 1] == BigEndian(n / 256, width - 1);
    }
  }

  /** `hash_u64_field` and `store_be64`: eight octets, most significant first. */
  function U64(n: u64): (r: seq<byte>)
    ensures |r| == 8
  {
    BigEndian(n, 8)
  }

  lemma {:induction false} U64Injective(a: u64, b: u64)
    requires U64(a) == U64(b)
    ensures a == b
  {
    assert Pow256(8) == TWO_64 by {
      assert Pow256(2) == 0x1_0000;
      assert Pow256(4) == 0x1_0000_0000;
      assert Pow256(6) == 0x1_0000_0000_0000;
    }
    BigEndianRoundTrip(a, 8);
    BigEndianRoundTrip(b, 8);
  }

  predicate IsAscii(s: string) { forall i :: 0 <= i < |s| ==> s[i] < 128 as char }

  /** The octets of an ASCII literal in the C source. */
  function Ascii(s: string): (r: seq<byte>)
    requires IsAscii(s)
    ensures |r| == |s|
    ensures forall i :: 0 <= i < |s| ==> r[i] == s[i] as int && r[i] < 128
  {
    seq(|s|, i requires 0 <= i < |s| => s[i] as int)
  }
}
