/** What the pieces of SHA-256 are, independently of how they are computed: the
    round functions bit by bit, the constants as roots of primes, and the words as
    numbers. */
module Sha256Meaning {
  import opened Arith
  import opened Primes
  import opened Sha256Spec

  // ----- The round functions -----

  /** Bit i of a word; positions are added modulo 32. */
  predicate Bit(x: word, i: bv5) { (x >> i) & 1 == 1 }

  /** Ch takes y where x is set and z elsewhere. */
  lemma ChSelects(x: word, y: word, z: word)
    ensures Ch(x, y, z) & x == y & x
    ensures Ch(x, y, z) & !x == z & !x
  {
  }

  lemma MajSymmetric(x: word, y: word, z: word)
    ensures Maj(x, y, z) == Maj(y, x, z) == Maj(x, z, y)
  {
  }

  /** Maj agrees with any two arguments wherever they agree: it is the majority. */
  lemma MajAgrees(x: word, y: word, z: word)
    ensures Maj(x, x, z) == x
    ensures Maj(x, y, z) & !(x ^ y) == x & !(x ^ y)
  {
  }

  lemma ShiftsMove(x: word, n: bv5, i: bv5)
    requires n != 0
    ensures Bit((x >> n) | (x << (32 - n as bv6)), i) == Bit(x, i + n)
  {
  }

  /** A rotation by n moves bit i + n, counted modulo 32, to bit i. */
  lemma RotrMoves(x: word, n: bv5, i: bv5)
    requires n != 0
    ensures Bit(Rotr(x, n), i) == Bit(x, i + n)
  {
    hide Bit;
    ShiftsMove(x, n, i);
  }

  // ----- Words as bytes -----

  lemma JoinUndoesSplit(x: word)
    ensures var b := WordBytes(x);
      JoinBytes(b[0], b[1], b[2], b[3]) == x
  {
  }

  lemma SplitUndoesJoin(b0: byte, b1: byte, b2: byte, b3: byte)
    ensures WordBytes(JoinBytes(b0, b1, b2, b3)) == [b0, b1, b2, b3]
  {
  }

  predicate Odd(x: word) { x & 1 == 1 }

  function Half(x: word): word { x >> 1 }

  /** The number that the lowest k bits of a word spell. */
  function Spelled(x: word, k: nat): nat
    decreases k
  {
    if k == 0 then 0 else (if Odd(x) then 1 else 0) + 2 * Spelled(Half(x), k - 1)
  }

  function Byte(x: word): byte { (x & 0xff) as byte }

  function ByteUp(x: word): word { x >> 8 }

  function Digit(x: word): nat { if Odd(x) then 1 else 0 }

  function Half4(x: word): word { Half(Half(Half(Half(x)))) }

  function Low4(x: word): nat {
    Digit(x) + 2 * Digit(Half(x)) + 4 * Digit(Half(Half(x))) + 8 * Digit(Half(Half(Half(x))))
  }

  lemma SpelledNibble(x: word, k: nat)
    ensures Spelled(x, 4 + k) == Low4(x) + 16 * Spelled(Half4(x), k)
  {
    hide Odd, Half;
    var x1 := Half(x);
    var x2 := Half(x1);
    var x3 := Half(x2);
    assert Spelled(x, 4 + k) == Digit(x) + 2 * Spelled(x1, 3 + k);
    assert Spelled(x1, 3 + k) == Digit(x1) + 2 * Spelled(x2, 2 + k);
    assert Spelled(x2, 2 + k) == Digit(x2) + 2 * Spelled(x3, 1 + k);
  }

  lemma ByteIsNibbles(x: word)
    ensures Byte(x) as int == Low4(x) + 16 * Low4(Half4(x))
  {
  }

  lemma EightHalves(x: word)
    ensures Half4(Half4(x)) == ByteUp(x)
  {
  }

  /** Eight bits of a word are its low byte, and the rest comes after. */
  lemma SpelledByte(x: word, k: nat)
    ensures Spelled(x, 8 + k) == Byte(x) as int + 256 * Spelled(ByteUp(x), k)
  {
    hide Byte, ByteUp, Low4, Half4, Spelled;
    SpelledNibble(x, 4 + k);
    SpelledNibble(Half4(x), k);
    ByteIsNibbles(x);
    EightHalves(x);
  }

  lemma BytesAre(x: word)
    ensures WordBytes(x) == [Byte(ByteUp(ByteUp(ByteUp(x)))), Byte(ByteUp(ByteUp(x))), Byte(ByteUp(x)), Byte(x)]
  {
  }

  lemma BigEndianSnoc(b: byte, y: nat, n: nat)
    ensures BigEndian(b as int + 256 * y, n + 1) == BigEndian(y, n) + [b]
  {
    ModUnique(b as int + 256 * y, y, b as int, 256);
  }

  lemma NoDigits()
    ensures BigEndian(0, 0) == []
  {
  }

  /** A word's bytes are the big-endian form of the number its bits spell. */
  lemma SplitIsBigEndian(x: word)
    ensures WordBytes(x) == BigEndian(Spelled(x, 32), 4)
  {
    hide Byte, ByteUp, Spelled, BigEndian, WordBytes;
    BytesAre(x);
    var x1 := ByteUp(x);
    var x2 := ByteUp(x1);
    var x3 := ByteUp(x2);
    var n3 := SpelledEnd(x3);
    SpelledByte(x2, 8);
    SpelledByte(x1, 16);
    SpelledByte(x, 24);
    BigEndianSnoc(Byte(x2), n3, 1);
    BigEndianSnoc(Byte(x1), Spelled(x2, 16), 2);
    BigEndianSnoc(Byte(x), Spelled(x1, 24), 3);
  }

  lemma SpelledEnd(x: word) returns (n: nat)
    ensures n == Spelled(x, 8) && BigEndian(n, 1) == [Byte(x)]
  {
    hide Byte, ByteUp, Odd, Half, BigEndian;
    n := Spelled(x, 8);
    SpelledByte(x, 0);
    assert Spelled(ByteUp(x), 0) == 0;
    BigEndianSnoc(Byte(x), 0, 0);
    NoDigits();
  }

  // ----- The constants -----

  predicate CubeRootOf(c: nat, p: nat) {
    c * c * c <= p * BASE * BASE * BASE < (c + 1) * (c + 1) * (c + 1)
  }

  predicate SquareRootOf(c: nat, p: nat) {
    c * c <= p * BASE * BASE < (c + 1) * (c + 1)
  }

  /** k holds the first 32 fraction bits of the cube root of p. */
  ghost predicate CubeFraction(k: word, p: nat) {
    exists c: nat :: c % BASE == k as int && CubeRootOf(c, p)
  }

  ghost predicate SquareFraction(k: word, p: nat) {
    exists c: nat :: c % BASE == k as int && SquareRootOf(c, p)
  }

  lemma Cube(k: word, p: nat, c: nat)
    requires c % BASE == k as int && CubeRootOf(c, p)
    ensures CubeFraction(k, p)
  {
  }

  lemma Square(k: word, p: nat, c: nat)
    requires c % BASE == k as int && SquareRootOf(c, p)
    ensures SquareFraction(k, p)
  {
  }

  lemma Cubes0(t: nat)
    requires 0 <= t < 8
    ensures CubeFraction(K[t], PRIMES[t])
  {
    hide CubeFraction;
    match t
    case 0 => Cube(0x428a2f98, 2, 0x1_428a2f98);
    case 1 => Cube(0x71374491, 3, 0x1_71374491);
    case 2 => Cube(0xb5c0fbcf, 5, 0x1_b5c0fbcf);
    case 3 => Cube(0xe9b5dba5, 7, 0x1_e9b5dba5);
    case 4 => Cube(0x3956c25b, 11, 0x2_3956c25b);
    case 5 => Cube(0x59f111f1, 13, 0x2_59f111f1);
    case 6 => Cube(0x923f82a4, 17, 0x2_923f82a4);
    case _ => Cube(0xab1c5ed5, 19, 0x2_ab1c5ed5);
  }

  lemma Cubes8(t: nat)
    requires 8 <= t < 16
    ensures CubeFraction(K[t], PRIMES[t])
  {
    hide CubeFraction;
    match t
    case 8 => Cube(0xd807aa98, 23, 0x2_d807aa98);
    case 9 => Cube(0x12835b01, 29, 0x3_12835b01);
    case 10 => Cube(0x243185be, 31, 0x3_243185be);
    case 11 => Cube(0x550c7dc3, 37, 0x3_550c7dc3);
    case 12 => Cube(0x72be5d74, 41, 0x3_72be5d74);
    case 13 => Cube(0x80deb1fe, 43, 0x3_80deb1fe);
    case 14 => Cube(0x9bdc06a7, 47, 0x3_9bdc06a7);
    case _ => Cube(0xc19bf174, 53, 0x3_c19bf174);
  }

  lemma Cubes16(t: nat)
    requires 16 <= t < 24
    ensures CubeFraction(K[t], PRIMES[t])
  {
    hide CubeFraction;
    match t
    case 16 => Cube(0xe49b69c1, 59, 0x3_e49b69c1);
    case 17 => Cube(0xefbe4786, 61, 0x3_efbe4786);
    case 18 => Cube(0x0fc19dc6, 67, 0x4_0fc19dc6);
    case 19 => Cube(0x240ca1cc, 71, 0x4_240ca1cc);
    case 20 => Cube(0x2de92c6f, 73, 0x4_2de92c6f);
    case 21 => Cube(0x4a7484aa, 79, 0x4_4a7484aa);
    case 22 => Cube(0x5cb0a9dc, 83, 0x4_5cb0a9dc);
    case _ => Cube(0x76f988da, 89, 0x4_76f988da);
  }

  lemma Cubes24(t: nat)
    requires 24 <= t < 32
    ensures CubeFraction(K[t], PRIMES[t])
  {
    hide CubeFraction;
    match t
    case 24 => Cube(0x983e5152, 97, 0x4_983e5152);
    case 25 => Cube(0xa831c66d, 101, 0x4_a831c66d);
    case 26 => Cube(0xb00327c8, 103, 0x4_b00327c8);
    case 27 => Cube(0xbf597fc7, 107, 0x4_bf597fc7);
    case 28 => Cube(0xc6e00bf3, 109, 0x4_c6e00bf3);
    case 29 => Cube(0xd5a79147, 113, 0x4_d5a79147);
    case 30 => Cube(0x06ca6351, 127, 0x5_06ca6351);
    case _ => Cube(0x14292967, 131, 0x5_14292967);
  }

  lemma Cubes32(t: nat)
    requires 32 <= t < 40
    ensures CubeFraction(K[t], PRIMES[t])
  {
    hide CubeFraction;
    match t
    case 32 => Cube(0x27b70a85, 137, 0x5_27b70a85);
    case 33 => Cube(0x2e1b2138, 139, 0x5_2e1b2138);
    case 34 => Cube(0x4d2c6dfc, 149, 0x5_4d2c6dfc);
    case 35 => Cube(0x53380d13, 151, 0x5_53380d13);
    case 36 => Cube(0x650a7354, 157, 0x5_650a7354);
    case 37 => Cube(0x766a0abb, 163, 0x5_766a0abb);
    case 38 => Cube(0x81c2c92e, 167, 0x5_81c2c92e);
    case _ => Cube(0x92722c85, 173, 0x5_92722c85);
  }

  lemma Cubes40(t: nat)
    requires 40 <= t < 48
    ensures CubeFraction(K[t], PRIMES[t])
  {
    hide CubeFraction;
    match t
    case 40 => Cube(0xa2bfe8a1, 179, 0x5_a2bfe8a1);
    case 41 => Cube(0xa81a664b, 181, 0x5_a81a664b);
    case 42 => Cube(0xc24b8b70, 191, 0x5_c24b8b70);
    case 43 => Cube(0xc76c51a3, 193, 0x5_c76c51a3);
    case 44 => Cube(0xd192e819, 197, 0x5_d192e819);
    case 45 => Cube(0xd6990624, 199, 0x5_d6990624);
    case 46 => Cube(0xf40e3585, 211, 0x5_f40e3585);
    case _ => Cube(0x106aa070, 223, 0x6_106aa070);
  }

  lemma Cubes48(t: nat)
    requires 48 <= t < 56
    ensures CubeFraction(K[t], PRIMES[t])
  {
    hide CubeFraction;
    match t
    case 48 => Cube(0x19a4c116, 227, 0x6_19a4c116);
    case 49 => Cube(0x1e376c08, 229, 0x6_1e376c08);
    case 50 => Cube(0x2748774c, 233, 0x6_2748774c);
    case 51 => Cube(0x34b0bcb5, 239, 0x6_34b0bcb5);
    case 52 => Cube(0x391c0cb3, 241, 0x6_391c0cb3);
    case 53 => Cube(0x4ed8aa4a, 251, 0x6_4ed8aa4a);
    case 54 => Cube(0x5b9cca4f, 257, 0x6_5b9cca4f);
    case _ => Cube(0x682e6ff3, 263, 0x6_682e6ff3);
  }

  lemma Cubes56(t: nat)
    requires 56 <= t < 64
    ensures CubeFraction(K[t], PRIMES[t])
  {
    hide CubeFraction;
    match t
    case 56 => Cube(0x748f82ee, 269, 0x6_748f82ee);
    case 57 => Cube(0x78a5636f, 271, 0x6_78a5636f);
    case 58 => Cube(0x84c87814, 277, 0x6_84c87814);
    case 59 => Cube(0x8cc70208, 281, 0x6_8cc70208);
    case 60 => Cube(0x90befffa, 283, 0x6_90befffa);
    case 61 => Cube(0xa4506ceb, 293, 0x6_a4506ceb);
    case 62 => Cube(0xbef9a3f7, 307, 0x6_bef9a3f7);
    case _ => Cube(0xc67178f2, 311, 0x6_c67178f2);
  }

  /** The round constants are the fractions of the cube roots of the first 64 primes. */
  lemma RoundConstants(t: nat)
    requires t < 64
    ensures CubeFraction(K[t], PRIMES[t])
  {
    hide CubeFraction, K, PRIMES;
    if t < 8 {
      Cubes0(t);
    } else if t < 16 {
      Cubes8(t);
    } else if t < 24 {
      Cubes16(t);
    } else if t < 32 {
      Cubes24(t);
    } else if t < 40 {
      Cubes32(t);
    } else if t < 48 {
      Cubes40(t);
    } else if t < 56 {
      Cubes48(t);
    } else {
      Cubes56(t);
    }
  }

  /** The initial hash value holds those of the square roots of the first 8. */
  lemma InitialHash(t: nat)
    requires t < 8
    ensures SquareFraction(H0[t], PRIMES[t])
  {
    hide SquareFraction;
    match t
    case 0 => Square(0x6a09e667, 2, 0x1_6a09e667);
    case 1 => Square(0xbb67ae85, 3, 0x1_bb67ae85);
    case 2 => Square(0x3c6ef372, 5, 0x2_3c6ef372);
    case 3 => Square(0xa54ff53a, 7, 0x2_a54ff53a);
    case 4 => Square(0x510e527f, 11, 0x3_510e527f);
    case 5 => Square(0x9b05688c, 13, 0x3_9b05688c);
    case 6 => Square(0x1f83d9ab, 17, 0x4_1f83d9ab);
    case _ => Square(0x5be0cd19, 19, 0x4_5be0cd19);
  }
}
