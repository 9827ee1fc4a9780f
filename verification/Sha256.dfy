/** SHA-256 as FIPS 180-4 defines it, for messages of whole bytes. */
module Sha256 {
  // ----- Sections 3.2 and 4.1.2: functions -----

  /** Addition modulo 2^32. */
  function Add(x: bv32, y: bv32): bv32 {
    x + y
  }

  function ROTR(n: nat, x: bv32): bv32
    requires 0 < n < 32
  {
    (x >> n) | (x << (32 - n))
  }

  function Ch(x: bv32, y: bv32, z: bv32): bv32 {
    (x & y) ^ (!x & z)
  }

  function Maj(x: bv32, y: bv32, z: bv32): bv32 {
    (x & y) ^ (x & z) ^ (y & z)
  }

  function BigSigma0(x: bv32): bv32 {
    ROTR(2, x) ^ ROTR(13, x) ^ ROTR(22, x)
  }

  function BigSigma1(x: bv32): bv32 {
    ROTR(6, x) ^ ROTR(11, x) ^ ROTR(25, x)
  }

  function SmallSigma0(x: bv32): bv32 {
    ROTR(7, x) ^ ROTR(18, x) ^ (x >> 3)
  }

  function SmallSigma1(x: bv32): bv32 {
    ROTR(17, x) ^ ROTR(19, x) ^ (x >> 10)
  }

  // ----- Section 4.2.2 and 5.3.3: constants -----

  function K256(): (k: seq<bv32>)
    ensures |k| == 64
  {
    [0x428a2f98, 0x71374491, 0xb5c0fbcf, 0xe9b5dba5, 0x3956c25b, 0x59f111f1, 0x923f82a4, 0xab1c5ed5]
    + [0xd807aa98, 0x12835b01, 0x243185be, 0x550c7dc3, 0x72be5d74, 0x80deb1fe, 0x9bdc06a7, 0xc19bf174]
    + [0xe49b69c1, 0xefbe4786, 0x0fc19dc6, 0x240ca1cc, 0x2de92c6f, 0x4a7484aa, 0x5cb0a9dc, 0x76f988da]
    + [0x983e5152, 0xa831c66d, 0xb00327c8, 0xbf597fc7, 0xc6e00bf3, 0xd5a79147, 0x06ca6351, 0x14292967]
    + [0x27b70a85, 0x2e1b2138, 0x4d2c6dfc, 0x53380d13, 0x650a7354, 0x766a0abb, 0x81c2c92e, 0x92722c85]
    + [0xa2bfe8a1, 0xa81a664b, 0xc24b8b70, 0xc76c51a3, 0xd192e819, 0xd6990624, 0xf40e3585, 0x106aa070]
    + [0x19a4c116, 0x1e376c08, 0x2748774c, 0x34b0bcb5, 0x391c0cb3, 0x4ed8aa4a, 0x5b9cca4f, 0x682e6ff3]
    + [0x748f82ee, 0x78a5636f, 0x84c87814, 0x8cc70208, 0x90befffa, 0xa4506ceb, 0xbef9a3f7, 0xc67178f2]
  }

  function InitialHash(): (h: seq<bv32>)
    ensures |h| == 8
  {
    [0x6a09e667, 0xbb67ae85, 0x3c6ef372, 0xa54ff53a, 0x510e527f, 0x9b05688c, 0x1f83d9ab, 0x5be0cd19]
  }

  // ----- Section 5: preprocessing -----

  const BLOCK := 64

  function Zeros(n: nat): (z: seq<bv8>)
    ensures |z| == n
  {
    seq(n, _ => 0)
  }

  /** A number of 64 bits, most significant byte first. */
  function BigEndian64(w: bv64): (s: seq<bv8>)
    ensures |s| == 8
  {
    [((w >> 56) & 0xFF) as bv8, ((w >> 48) & 0xFF) as bv8, ((w >> 40) & 0xFF) as bv8, ((w >> 32) & 0xFF) as bv8,
     ((w >> 24) & 0xFF) as bv8, ((w >> 16) & 0xFF) as bv8, ((w >> 8) & 0xFF) as bv8, (w & 0xFF) as bv8]
  }

  const LENGTH_SIZE := 0x1_0000_0000_0000_0000

  /** The number of zero bytes between the one bit and the length: less than a block, so the fewest that fill one up. */
  function ZeroCount(length: nat): (z: nat)
    ensures (length + 1 + z + 8) % BLOCK == 0 && z < BLOCK
  {
    var r := length % BLOCK;
    assert length == length / BLOCK * BLOCK + r;
    if r <= 55 then
      assert length + 1 + (55 - r) + 8 == (length / BLOCK + 1) * BLOCK;
      55 - r
    else
      assert length + 1 + (119 - r) + 8 == (length / BLOCK + 2) * BLOCK;
      119 - r
  }

  /** The length of a message in bits. */
  function LengthField(length: nat): (s: seq<bv8>)
    requires 8 * length < LENGTH_SIZE
    ensures |s| == 8
  {
    BigEndian64((8 * length) as bv64)
  }

  /** Section 5.1.1: a one bit, the fewest zero bits that will do, and the length in bits. */
  function Padding(length: nat): (p: seq<bv8>)
    requires 8 * length < LENGTH_SIZE
    ensures (length + |p|) % BLOCK == 0 && |p| == 1 + ZeroCount(length) + 8
  {
    [0x80] + Zeros(ZeroCount(length)) + LengthField(length)
  }

  // ----- Section 6.2.2: hash computation -----

  function BigEndian32(s: seq<bv8>): bv32
    requires |s| == 4
  {
    ((s[0] as bv32) << 24) | ((s[1] as bv32) << 16) | ((s[2] as bv32) << 8) | (s[3] as bv32)
  }

  /** The message schedule of a block, all 64 words of it. */
  function W(block: seq<bv8>, t: nat): bv32
    requires |block| == BLOCK && t < 64
  {
    if t < 16 then BigEndian32(block[4 * t..4 * t + 4])
    else Add(Add(Add(SmallSigma1(W(block, t - 2)), W(block, t - 7)), SmallSigma0(W(block, t - 15))), W(block, t - 16))
  }

  datatype Vars = Vars(a: bv32, b: bv32, c: bv32, d: bv32, e: bv32, f: bv32, g: bv32, h: bv32)

  function Round(v: Vars, k: bv32, w: bv32): Vars {
    var T1 := Add(Add(Add(Add(v.h, BigSigma1(v.e)), Ch(v.e, v.f, v.g)), k), w);
    var T2 := Add(BigSigma0(v.a), Maj(v.a, v.b, v.c));
    Vars(Add(T1, T2), v.a, v.b, v.c, Add(v.d, T1), v.e, v.f, v.g)
  }

  function Rounds(v: Vars, block: seq<bv8>, n: nat): Vars
    requires |block| == BLOCK && n <= 64
  {
    if n == 0 then v else Round(Rounds(v, block, n - 1), K256()[n - 1], W(block, n - 1))
  }

  function VarsOf(h: seq<bv32>): Vars
    requires |h| == 8
  {
    Vars(h[0], h[1], h[2], h[3], h[4], h[5], h[6], h[7])
  }

  function Sum(h: seq<bv32>, v: Vars): (r: seq<bv32>)
    requires |h| == 8
    ensures |r| == 8
  {
    [Add(h[0], v.a), Add(h[1], v.b), Add(h[2], v.c), Add(h[3], v.d),
     Add(h[4], v.e), Add(h[5], v.f), Add(h[6], v.g), Add(h[7], v.h)]
  }

  function Compress(h: seq<bv32>, block: seq<bv8>): (r: seq<bv32>)
    requires |h| == 8 && |block| == BLOCK
    ensures |r| == 8
  {
    Sum(h, Rounds(VarsOf(h), block, 64))
  }

  function HashBlocks(h: seq<bv32>, s: seq<bv8>): (r: seq<bv32>)
    requires |h| == 8 && |s| % BLOCK == 0
    ensures |r| == 8
    decreases |s|
  {
    if s == [] then h else Compress(HashBlocks(h, s[..|s| - BLOCK]), s[|s| - BLOCK..])
  }

  function BigEndianBytes(w: bv32): (s: seq<bv8>)
    ensures |s| == 4
  {
    [((w >> 24) & 0xFF) as bv8, ((w >> 16) & 0xFF) as bv8, ((w >> 8) & 0xFF) as bv8, (w & 0xFF) as bv8]
  }

  function BytesOf(h: seq<bv32>): (s: seq<bv8>)
    ensures |s| == 4 * |h|
  {
    if h == [] then [] else BytesOf(h[..|h| - 1]) + BigEndianBytes(h[|h| - 1])
  }

  /** The digest of a message. */
  function Digest(m: seq<bv8>): (d: seq<bv8>)
    requires 8 * |m| < LENGTH_SIZE
    ensures |d| == 32
  {
    BytesOf(HashBlocks(InitialHash(), m + Padding(|m|)))
  }

  // ----- Parts of messages -----

  lemma {:induction false} HashBlocksMore(h: seq<bv32>, s: seq<bv8>, block: seq<bv8>)
    requires |h| == 8 && |s| % BLOCK == 0 && |block| == BLOCK
    ensures HashBlocks(h, s + block) == Compress(HashBlocks(h, s), block)
  {
    assert (s + block)[..|s + block| - BLOCK] == s;
    assert (s + block)[|s + block| - BLOCK..] == block;
  }
}
