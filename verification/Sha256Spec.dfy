/** SHA-256 as FIPS 180-4 defines it: padding (section 5.1.1), message schedule
    and compression (section 6.2.2), folded over the blocks of the message. */
module Sha256Spec {
  import opened Arith

  type byte = bv8
  type word = bv32

  const BLOCK: nat := 64
  const DIGEST: nat := 32

  // The round constants, four rows of sixteen.
  const K0: seq<word> := [
    0x428a2f98, 0x71374491, 0xb5c0fbcf, 0xe9b5dba5, 0x3956c25b, 0x59f111f1, 0x923f82a4, 0xab1c5ed5,
    0xd807aa98, 0x12835b01, 0x243185be, 0x550c7dc3, 0x72be5d74, 0x80deb1fe, 0x9bdc06a7, 0xc19bf174]
  const K1: seq<word> := [
    0xe49b69c1, 0xefbe4786, 0x0fc19dc6, 0x240ca1cc, 0x2de92c6f, 0x4a7484aa, 0x5cb0a9dc, 0x76f988da,
    0x983e5152, 0xa831c66d, 0xb00327c8, 0xbf597fc7, 0xc6e00bf3, 0xd5a79147, 0x06ca6351, 0x14292967]
  const K2: seq<word> := [
    0x27b70a85, 0x2e1b2138, 0x4d2c6dfc, 0x53380d13, 0x650a7354, 0x766a0abb, 0x81c2c92e, 0x92722c85,
    0xa2bfe8a1, 0xa81a664b, 0xc24b8b70, 0xc76c51a3, 0xd192e819, 0xd6990624, 0xf40e3585, 0x106aa070]
  const K3: seq<word> := [
    0x19a4c116, 0x1e376c08, 0x2748774c, 0x34b0bcb5, 0x391c0cb3, 0x4ed8aa4a, 0x5b9cca4f, 0x682e6ff3,
    0x748f82ee, 0x78a5636f, 0x84c87814, 0x8cc70208, 0x90befffa, 0xa4506ceb, 0xbef9a3f7, 0xc67178f2]

  const K: seq<word> := K0 + K1 + K2 + K3

  const H0: seq<word> := [
    0x6a09e667, 0xbb67ae85, 0x3c6ef372, 0xa54ff53a, 0x510e527f, 0x9b05688c, 0x1f83d9ab, 0x5be0cd19]

  /** Addition modulo 2^32. */
  function Add(x: word, y: word): word { x + y }

  function Rotr(x: word, n: bv5): word
    requires n != 0
  {
    (x >> n) | (x << (32 - n as bv6))
  }

  function Ch(x: word, y: word, z: word): word { (x & y) ^ (!x & z) }

  function Maj(x: word, y: word, z: word): word { (x & y) ^ (x & z) ^ (y & z) }

  function BigSigma0(x: word): word { Rotr(x, 2) ^ Rotr(x, 13) ^ Rotr(x, 22) }

  function BigSigma1(x: word): word { Rotr(x, 6) ^ Rotr(x, 11) ^ Rotr(x, 25) }

  function SmallSigma0(x: word): word { Rotr(x, 7) ^ Rotr(x, 18) ^ (x >> 3) }

  function SmallSigma1(x: word): word { Rotr(x, 17) ^ Rotr(x, 19) ^ (x >> 10) }

  function JoinBytes(b0: byte, b1: byte, b2: byte, b3: byte): word {
    ((b0 as word) << 24) | ((b1 as word) << 16) | ((b2 as word) << 8) | (b3 as word)
  }

  function WordBytes(x: word): (b: seq<byte>)
    ensures |b| == 4
  {
    [((x >> 24) & 0xff) as byte, ((x >> 16) & 0xff) as byte, ((x >> 8) & 0xff) as byte, (x & 0xff) as byte]
  }

  /** Message schedule word t, section 6.2.2 step 1. */
  function W(block: seq<byte>, t: nat): word
    requires |block| == BLOCK
  {
    if t < 16 then JoinBytes(block[4 * t], block[4 * t + 1], block[4 * t + 2], block[4 * t + 3])
    else Add(Add(Add(SmallSigma1(W(block, t - 2)), W(block, t - 7)), SmallSigma0(W(block, t - 15))), W(block, t - 16))
  }

  datatype Vars = Vars(a: word, b: word, c: word, d: word, e: word, f: word, g: word, h: word)

  /** One round, step 3. */
  function Round(v: Vars, k: word, w: word): Vars {
    var t1 := Add(Add(Add(Add(v.h, BigSigma1(v.e)), Ch(v.e, v.f, v.g)), k), w);
    var t2 := Add(BigSigma0(v.a), Maj(v.a, v.b, v.c));
    Vars(Add(t1, t2), v.a, v.b, v.c, Add(v.d, t1), v.e, v.f, v.g)
  }

  function Rounds(v: Vars, block: seq<byte>, t: nat): Vars
    requires |block| == BLOCK && t <= 64
  {
    if t == 0 then v else Round(Rounds(v, block, t - 1), K[t - 1], W(block, t - 1))
  }

  function Load(s: seq<word>): Vars
    requires |s| == 8
  {
    Vars(s[0], s[1], s[2], s[3], s[4], s[5], s[6], s[7])
  }

  function AddVars(s: seq<word>, v: Vars): (r: seq<word>)
    requires |s| == 8
    ensures |r| == 8
  {
    [Add(s[0], v.a), Add(s[1], v.b), Add(s[2], v.c), Add(s[3], v.d),
     Add(s[4], v.e), Add(s[5], v.f), Add(s[6], v.g), Add(s[7], v.h)]
  }

  function Compress(s: seq<word>, block: seq<byte>): (r: seq<word>)
    requires |s| == 8 && |block| == BLOCK
    ensures |r| == 8
  {
    AddVars(s, Rounds(Load(s), block, 64))
  }

  /** The hash value after all blocks of a whole-block message. */
  function HashBlocks(m: seq<byte>): (s: seq<word>)
    requires |m| % BLOCK == 0
    ensures |s| == 8
  {
    if |m| == 0 then H0
    else Compress(HashBlocks(m[..|m| - BLOCK]), m[|m| - BLOCK..])
  }

  function Zeros(n: nat): (z: seq<byte>)
    ensures |z| == n
  {
    seq(n, _ => 0)
  }

  /** The n-byte big-endian form of x, cut to n bytes. */
  function BigEndian(x: nat, n: nat): (b: seq<byte>)
    ensures |b| == n
  {
    if n == 0 then [] else BigEndian(x / 256, n - 1) + [(x % 256) as byte]
  }

  /** How many zero bytes follow the 0x80 byte. */
  function ZeroCount(len: nat): nat {
    if len % BLOCK <= 55 then 55 - len % BLOCK else 119 - len % BLOCK
  }

  lemma PadLength(len: nat)
    ensures (len + 1 + ZeroCount(len) + 8) % BLOCK == 0
  {
  }

  function PadTail(len: nat): (p: seq<byte>)
    ensures |p| == 1 + ZeroCount(len) + 8
  {
    [0x80] + Zeros(ZeroCount(len)) + BigEndian(8 * len, 8)
  }

  function Pad(m: seq<byte>): (p: seq<byte>)
    ensures |p| % BLOCK == 0
  {
    PadLength(|m|);
    m + PadTail(|m|)
  }

  /** k zero bits bring the message and the 1 bit to 64 bits before a block end. */
  predicate FillsBlock(len: nat, k: nat) {
    (8 * len + 1 + k) % 512 == 448
  }

  /** The padding is the standard's: its zero bits, seven of which share the byte of
      the leading 1, are the least number that fills the block. */
  lemma PadIsLeast(len: nat)
    ensures FillsBlock(len, 7 + 8 * ZeroCount(len))
    ensures forall k: nat :: FillsBlock(len, k) ==> 7 + 8 * ZeroCount(len) <= k
  {
    var q, r := len / BLOCK, len % BLOCK;
    assert len == BLOCK * q + r;
    ModUnique(8 * len + 1 + (7 + 8 * ZeroCount(len)), if r <= 55 then q else q + 1, 448, 512);
    forall k: nat | FillsBlock(len, k)
      ensures 7 + 8 * ZeroCount(len) <= k
    {
      var z := (8 * len + 1 + k) / 512;
      assert 8 * r + 1 + k == 448 + 512 * (z - q);
    }
  }

  function Digest(s: seq<word>): (d: seq<byte>)
    ensures |d| == 4 * |s|
  {
    if |s| == 0 then [] else Digest(s[..|s| - 1]) + WordBytes(s[|s| - 1])
  }

  /** The hash of a message; the standard defines it below 2^61 bytes. */
  function Hash(m: seq<byte>): (d: seq<byte>)
    ensures |d| == DIGEST
  {
    Digest(HashBlocks(Pad(m)))
  }
}
