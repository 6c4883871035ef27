/**
 * SHA-256 as FIPS 180-4 defines it, for messages that are whole octets: padding (section 5.1.1),
 * parsing (section 5.2.1), the initial value (section 5.3.3) and the computation (section 6.2.2).
 * Nothing here buffers or streams.
 */
module Sha256Spec {
  import opened Bytes

  const BLOCK: nat := 64

  // Section 4.1.2: the logical functions.
  function Rotr(x: bv32, n: nat): (r: bv32)
    requires 0 < n < 32
  {
    (x >> n) | (x << (32 - n))
  }

  /** Section 3.2: it is the rotation of a word, for every amount that is used. */
  lemma RotrRotates(x: bv32)
    ensures Rotr(x, 2) == x.RotateRight(2) && Rotr(x, 13) == x.RotateRight(13) && Rotr(x, 22) == x.RotateRight(22)
    ensures Rotr(x, 6) == x.RotateRight(6) && Rotr(x, 11) == x.RotateRight(11) && Rotr(x, 25) == x.RotateRight(25)
    ensures Rotr(x, 7) == x.RotateRight(7) && Rotr(x, 18) == x.RotateRight(18)
    ensures Rotr(x, 17) == x.RotateRight(17) && Rotr(x, 19) == x.RotateRight(19)
  {
  }

  /** Section 3.2: addition modulo 2^32. */
  function Plus(x: bv32, y: bv32): bv32 { x + y }

  function Plus4(w: bv32, x: bv32, y: bv32, z: bv32): bv32 { w + x + y + z }

  function Ch(x: bv32, y: bv32, z: bv32): bv32 { (x & y) ^ (!x & z) }
  function Maj(x: bv32, y: bv32, z: bv32): bv32 { (x & y) ^ (x & z) ^ (y & z) }
  function BigSigma0(x: bv32): bv32 { Rotr(x, 2) ^ Rotr(x, 13) ^ Rotr(x, 22) }
  function BigSigma1(x: bv32): bv32 { Rotr(x, 6) ^ Rotr(x, 11) ^ Rotr(x, 25) }
  function SmallSigma0(x: bv32): bv32 { Rotr(x, 7) ^ Rotr(x, 18) ^ (x >> 3) }
  function SmallSigma1(x: bv32): bv32 { Rotr(x, 17) ^ Rotr(x, 19) ^ (x >> 10) }

  // Section 4.2.2: the constants, eight to a row.
  function KRow(i: nat): (r: seq<bv32>)
    ensures |r| == 8
  {
    match i
    case 0 => [0x428a2f98, 0x71374491, 0xb5c0fbcf, 0xe9b5dba5, 0x3956c25b, 0x59f111f1, 0x923f82a4, 0xab1c5ed5]
    case 1 => [0xd807aa98, 0x12835b01, 0x243185be, 0x550c7dc3, 0x72be5d74, 0x80deb1fe, 0x9bdc06a7, 0xc19bf174]
    case 2 => [0xe49b69c1, 0xefbe4786, 0x0fc19dc6, 0x240ca1cc, 0x2de92c6f, 0x4a7484aa, 0x5cb0a9dc, 0x76f988da]
    case 3 => [0x983e5152, 0xa831c66d, 0xb00327c8, 0xbf597fc7, 0xc6e00bf3, 0xd5a79147, 0x06ca6351, 0x14292967]
    case 4 => [0x27b70a85, 0x2e1b2138, 0x4d2c6dfc, 0x53380d13, 0x650a7354, 0x766a0abb, 0x81c2c92e, 0x92722c85]
    case 5 => [0xa2bfe8a1, 0xa81a664b, 0xc24b8b70, 0xc76c51a3, 0xd192e819, 0xd6990624, 0xf40e3585, 0x106aa070]
    case 6 => [0x19a4c116, 0x1e376c08, 0x2748774c, 0x34b0bcb5, 0x391c0cb3, 0x4ed8aa4a, 0x5b9cca4f, 0x682e6ff3]
    case _ => [0x748f82ee, 0x78a5636f, 0x84c87814, 0x8cc70208, 0x90befffa, 0xa4506ceb, 0xbef9a3f7, 0xc67178f2]
  }

  /** The constant of round `t`. */
  function K(t: nat): (k: bv32)
    requires t < 64
  {
    KRow(t / 8)[t % 8]
  }

  // Section 5.3.3: the initial hash value.
  function H0(): (h: seq<bv32>)
    ensures |h| == 8
  {
    [ 0x6a09e667, 0xbb67ae85, 0x3c6ef372, 0xa54ff53a, 0x510e527f, 0x9b05688c, 0x1f83d9ab, 0x5be0cd19 ]
  }

  /** Section 5.2.1: the big-endian word at octet `4 * t` of a block. */
  function WordAt(block: seq<byte>, t: nat): (w: bv32)
    requires |block| == BLOCK && t < 16
  {
    (block[4 * t] as bv32 << 24) | (block[4 * t + 1] as bv32 << 16) |
    (block[4 * t + 2] as bv32 << 8) | block[4 * t + 3] as bv32
  }

  /** Section 6.2.2, step 1: the message schedule. */
  function Schedule(block: seq<byte>, t: nat): (w: bv32)
    requires |block| == BLOCK && t < 64
  {
    if t < 16 then WordAt(block, t)
    else Plus4(SmallSigma1(Schedule(block, t - 2)), Schedule(block, t - 7),
               SmallSigma0(Schedule(block, t - 15)), Schedule(block, t - 16))
  }

  datatype Registers = Registers(a: bv32, b: bv32, c: bv32, d: bv32, e: bv32, f: bv32, g: bv32, h: bv32)

  function Load(h: seq<bv32>): (r: Registers)
    requires |h| == 8
  {
    Registers(h[0], h[1], h[2], h[3], h[4], h[5], h[6], h[7])
  }

  /** Section 6.2.2, step 3: one round with schedule word `w` and constant `k`. */
  function Round(r: Registers, k: bv32, w: bv32): Registers {
    var t1 := Plus(Plus(Plus(Plus(r.h, BigSigma1(r.e)), Ch(r.e, r.f, r.g)), k), w);
    var t2 := Plus(BigSigma0(r.a), Maj(r.a, r.b, r.c));
    Registers(Plus(t1, t2), r.a, r.b, r.c, Plus(r.d, t1), r.e, r.f, r.g)
  }

  /** The registers after the first `t` rounds. */
  function Rounds(h: seq<bv32>, block: seq<byte>, t: nat): (r: Registers)
    requires |h| == 8 && |block| == BLOCK && t <= 64
  {
    if t == 0 then Load(h) else Round(Rounds(h, block, t - 1), K(t - 1), Schedule(block, t - 1))
  }

  /** Section 6.2.2, step 4: the next intermediate hash value. */
  function Compress(h: seq<bv32>, block: seq<byte>): (r: seq<bv32>)
    requires |h| == 8 && |block| == BLOCK
    ensures |r| == 8
  {
    var v := Rounds(h, block, 64);
    [Plus(h[0], v.a), Plus(h[1], v.b), Plus(h[2], v.c), Plus(h[3], v.d),
     Plus(h[4], v.e), Plus(h[5], v.f), Plus(h[6], v.g), Plus(h[7], v.h)]
  }

  /** The intermediate hash value after the first `k` blocks of `m`. */
  function Chain(m: seq<byte>, k: nat): (h: seq<bv32>)
    requires BLOCK * k <= |m|
    ensures |h| == 8
  {
    if k == 0 then H0() else Compress(Chain(m, k - 1), m[BLOCK * (k - 1)..BLOCK * k])
  }

  /** The number of blocks of the padded message. */
  function BlockCount(length: nat): (n: nat) { (length + 8) / BLOCK + 1 }

  /** Section 5.1.1: the number of zero octets between the 0x80 octet and the length. */
  function ZeroCount(length: nat): (z: nat)
    ensures z < BLOCK
  {
    BLOCK * BlockCount(length) - length - 9
  }

  function Zeros(n: nat): (r: seq<byte>)
    ensures |r| == n
  {
    seq(n, _ => 0)
  }

  /**
   * The standard asks for the least number k of zero *bits* with l + 1 + k = 448 modulo 512.  The
   * octet 0x80 supplies the one bit and seven of the zeros; the rest are whole zero octets.
   */
  lemma PaddingIsLeast(length: nat, k: nat)
    ensures (8 * length + 1 + 7 + 8 * ZeroCount(length)) % 512 == 448
    ensures (8 * length + 1 + k) % 512 == 448 ==> k >= 7 + 8 * ZeroCount(length)
  {
    var z, n := ZeroCount(length), BlockCount(length);
    assert 8 * length + 8 + 8 * z == 512 * (n - 1) + 448;
    if (8 * length + 1 + k) % 512 == 448 {
      var p := (8 * length + 1 + k) / 512;
      assert 8 * length + 1 + k == 512 * p + 448;
      assert k - (7 + 8 * z) == 512 * (p - n + 1);
    }
  }

  /** The padded message.  The standard is for messages under 2^64 bits; the length field is 64 bits wide. */
  function Pad(m: seq<byte>): (r: seq<byte>)
    ensures |r| == BLOCK * BlockCount(|m|)
  {
    m + [0x80] + Zeros(ZeroCount(|m|)) + U64(8 * |m| % TWO_64)
  }

  function Octet(w: bv32): (b: byte) { (w & 0xff) as bv8 as int }

  function WordOctets(w: bv32): (r: seq<byte>)
    ensures |r| == 4
  {
    [Octet(w >> 24), Octet(w >> 16), Octet(w >> 8), Octet(w)]
  }

  function Octets(ws: seq<bv32>): (r: seq<byte>)
    ensures |r| == 4 * |ws|
  {
    if ws == [] then [] else Octets(ws[..|ws| - 1]) + WordOctets(ws[|ws| - 1])
  }

  /** The message digest. */
  function Sha256(m: seq<byte>): (d: seq<byte>)
    ensures |d| == 32
  {
    Octets(Chain(Pad(m), BlockCount(|m|)))
  }
}
