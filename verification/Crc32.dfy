/** The packer's bit-serial CRC-32 (reflected polynomial 0xEDB88320) and exactly
    how long a burst of errors it is sure to detect. */
module Crc32 {
  const POLY: bv32 := 0xEDB8_8320

  // The operations on the 32-bit register. Proofs hide their definitions and use
  // only the laws stated right below.

  function Xor(x: bv32, y: bv32): bv32 { x ^ y }

  function Widen(b: bv8): bv32 { b as bv32 }

  function Not(x: bv32): bv32 { !x }

  function Shr(x: bv32): bv32 { x >> 1 }

  function Shl(x: bv32): bv32 { x << 1 }

  predicate Odd(x: bv32) { x & 1 == 1 }

  predicate Meets(x: bv32, m: bv32) { x & m != 0 }

  function Bit(b: bool): bv32 { if b then 1 else 0 }

  lemma NotNot(x: bv32)
    ensures Not(Not(x)) == x
  {
  }

  lemma XorComm(x: bv32, y: bv32)
    ensures Xor(x, y) == Xor(y, x)
  {
  }

  lemma XorAssoc(x: bv32, y: bv32, z: bv32)
    ensures Xor(Xor(x, y), z) == Xor(x, Xor(y, z))
  {
  }

  lemma XorUnit(x: bv32)
    ensures Xor(x, 0) == x && Xor(0, x) == x && Xor(x, x) == 0
  {
  }

  lemma XorZero(x: bv32, y: bv32)
    requires Xor(x, y) == 0
    ensures x == y
  {
  }

  lemma ShrXor(x: bv32, y: bv32)
    ensures Shr(Xor(x, y)) == Xor(Shr(x), Shr(y))
  {
  }

  lemma OddXor(x: bv32, y: bv32)
    ensures Odd(Xor(x, y)) == (Odd(x) != Odd(y))
  {
  }

  lemma OddBit(b: bool)
    ensures Odd(Bit(b)) == b && Shr(Bit(b)) == 0
  {
  }

  lemma ShrShl(x: bv32)
    requires !Meets(x, 0x8000_0000)
    ensures Shr(Shl(x)) == x
  {
  }

  lemma OddShl(x: bv32)
    ensures !Odd(Shl(x))
  {
  }

  lemma Split(x: bv32)
    ensures Xor(Bit(Odd(x)), Shl(Shr(x))) == x
  {
  }

  lemma MeetsShifted(x: bv32, m: bv32)
    requires Meets(x, Shl(m))
    ensures Meets(Shr(x), m)
  {
  }

  // ----- The code -----

  /** One bit step of the shift register. */
  function Step(c: bv32): bv32 {
    Xor(Shr(c), if Odd(c) then POLY else 0)
  }

  function Steps(c: bv32, n: nat): bv32
    decreases n
  {
    if n == 0 then c else Step(Steps(c, n - 1))
  }

  /** The register after a message, one byte at a time. */
  function Feed(c: bv32, data: seq<bv8>): bv32
    decreases data
  {
    if |data| == 0 then c
    else Steps(Xor(Feed(c, data[..|data| - 1]), Widen(data[|data| - 1])), 8)
  }

  function Crc(data: seq<bv8>): bv32 {
    Not(Feed(0xFFFF_FFFF, data))
  }

  method Compute(data: seq<bv8>) returns (r: bv32)
    ensures r == Crc(data)
  {
    hide Step, Xor, Not;
    var crc: bv32 := 0xFFFF_FFFF;
    for i := 0 to |data|
      invariant crc == Feed(0xFFFF_FFFF, data[..i])
    {
      crc := Xor(crc, Widen(data[i]));
      ghost var c := crc;
      for j := 0 to 8
        invariant crc == Steps(c, j)
      {
        crc := Step(crc);
      }
      assert data[..i + 1][..i] == data[..i];
    }
    assert data[..|data|] == data;
    return Not(crc);
  }

  // ----- The step is an injective linear map -----

  lemma XorSwap(a: bv32, b: bv32, c: bv32, d: bv32)
    ensures Xor(Xor(a, b), Xor(c, d)) == Xor(Xor(a, c), Xor(b, d))
  {
    hide Xor;
    XorAssoc(a, b, Xor(c, d));
    XorAssoc(b, c, d);
    XorComm(b, c);
    XorAssoc(c, b, d);
    XorAssoc(a, c, Xor(b, d));
  }

  lemma StepLinear(x: bv32, y: bv32)
    ensures Step(Xor(x, y)) == Xor(Step(x), Step(y))
  {
    hide Xor, Shr, Odd;
    ShrXor(x, y);
    OddXor(x, y);
    var p, q: bv32 := if Odd(x) then POLY else 0, if Odd(y) then POLY else 0;
    XorSwap(Shr(x), p, Shr(y), q);
    XorUnit(POLY);
    XorUnit(0);
  }

  lemma StepZero(x: bv32)
    ensures Step(x) == 0 <==> x == 0
  {
  }

  lemma {:induction false} StepsZero(x: bv32, n: nat)
    ensures Steps(x, n) == 0 <==> x == 0
  {
    hide Step;
    if n > 0 {
      StepsZero(x, n - 1);
      StepZero(Steps(x, n - 1));
    }
  }

  lemma {:induction false} StepsFront(x: bv32, n: nat)
    requires n > 0
    ensures Steps(x, n) == Steps(Step(x), n - 1)
  {
    hide Step;
    if n > 1 {
      StepsFront(x, n - 1);
    }
  }

  // ----- The message as bits, least significant bit of each byte first -----

  function FeedBits(c: bv32, bits: seq<bool>): bv32
    decreases bits
  {
    if |bits| == 0 then c else FeedBits(Step(Xor(c, Bit(bits[0]))), bits[1..])
  }

  function BitsOf(x: bv32, n: nat): (bits: seq<bool>)
    ensures |bits| == n
    decreases n
  {
    if n == 0 then [] else [Odd(x)] + BitsOf(Shr(x), n - 1)
  }

  function Bits(data: seq<bv8>): (bits: seq<bool>)
    ensures |bits| == 8 * |data|
  {
    if |data| == 0 then [] else Bits(data[..|data| - 1]) + BitsOf(Widen(data[|data| - 1]), 8)
  }

  /** The little-endian word of at most 32 bits. */
  function WordOf(bits: seq<bool>): bv32 {
    if |bits| == 0 then 0 else Xor(Bit(bits[0]), Shl(WordOf(bits[1..])))
  }

  /** Nothing is left of w after n right shifts. */
  predicate Below(w: bv32, n: nat)
    decreases n
  {
    if n == 0 then w == 0 else Below(Shr(w), n - 1)
  }

  function BitMask(j: nat): bv32 {
    if j == 0 then 1 else Shl(BitMask(j - 1))
  }

  lemma {:induction false} BelowMask(w: bv32, n: nat, j: nat)
    requires Below(w, n) && n <= j
    ensures !Meets(w, BitMask(j))
    decreases j
  {
    hide Shr, Shl;
    if n > 0 && Meets(w, BitMask(j)) {
      hide Meets;
      MeetsShifted(w, BitMask(j - 1));
      BelowMask(Shr(w), n - 1, j - 1);
    }
  }

  lemma MaskFour(j: nat)
    ensures BitMask(j + 4) == Shl(Shl(Shl(Shl(BitMask(j)))))
  {
    hide Shl;
    assert BitMask(j + 3) == Shl(BitMask(j + 2)) && BitMask(j + 2) == Shl(BitMask(j + 1));
  }

  lemma TopMask()
    ensures BitMask(31) == 0x8000_0000
  {
    MaskFour(0);
    MaskFour(4);
    MaskFour(8);
    MaskFour(12);
    MaskFour(16);
    MaskFour(20);
    MaskFour(24);
    assert BitMask(28) == 0x1000_0000;
    assert BitMask(31) == Shl(BitMask(30)) && BitMask(30) == Shl(BitMask(29)) && BitMask(29) == Shl(BitMask(28));
  }

  lemma {:induction false} WordBelow(bits: seq<bool>)
    requires |bits| <= 32
    ensures Below(WordOf(bits), |bits|)
    ensures |bits| < 32 ==> Shr(Shl(WordOf(bits))) == WordOf(bits)
  {
    hide Xor, Shl, Shr, Bit, Odd, Meets;
    if |bits| > 0 {
      var w := WordOf(bits[1..]);
      WordBelow(bits[1..]);
      ShrXor(Bit(bits[0]), Shl(w));
      OddBit(bits[0]);
      XorUnit(w);
    }
    if |bits| < 32 {
      TopMask();
      BelowMask(WordOf(bits), |bits|, 31);
      ShrShl(WordOf(bits));
    }
  }

  /** Feeding k <= 32 bits is k steps from the register xored with their word. */
  lemma {:induction false} FeedWord(c: bv32, bits: seq<bool>)
    requires |bits| <= 32
    ensures FeedBits(c, bits) == Steps(Xor(c, WordOf(bits)), |bits|)
    decreases bits
  {
    hide Xor, Shl, Shr, Odd, Bit, Step;
    if |bits| == 0 {
      XorUnit(c);
    } else {
      var b, rest := Bit(bits[0]), bits[1..];
      var w := WordOf(rest);
      WordBelow(rest);
      StepShl(w);
      FeedWord(Step(Xor(c, b)), rest);
      StepLinear(Xor(c, b), Shl(w));
      XorAssoc(c, b, Shl(w));
      StepsFront(Xor(c, WordOf(bits)), |bits|);
    }
  }

  lemma StepShl(w: bv32)
    requires Shr(Shl(w)) == w
    ensures Step(Shl(w)) == w
  {
  }

  /** Only zero bits have the zero word. */
  lemma {:induction false} WordZero(bits: seq<bool>)
    requires |bits| <= 32 && WordOf(bits) == 0
    ensures forall i :: 0 <= i < |bits| ==> !bits[i]
  {
    hide Xor, Shl, Shr, Odd, Bit;
    if |bits| > 0 {
      var rest := bits[1..];
      var w := WordOf(rest);
      XorZero(Bit(bits[0]), Shl(w));
      OddShl(w);
      OddBit(bits[0]);
      WordBelow(rest);
      WordZero(rest);
      forall i | 0 <= i < |bits|
        ensures !bits[i]
      {
        assert i > 0 ==> bits[i] == rest[i - 1];
      }
    }
  }

  /** Reading back the bits of a short word. */
  lemma {:induction false} WordOfBits(x: bv32, n: nat)
    requires Below(x, n)
    ensures WordOf(BitsOf(x, n)) == x
    decreases n
  {
    hide Xor, Shl, Shr, Odd, Bit;
    if n > 0 {
      WordOfBits(Shr(x), n - 1);
      assert BitsOf(x, n)[1..] == BitsOf(Shr(x), n - 1);
      Split(x);
    }
  }

  lemma {:induction false} FeedConcat(c: bv32, a: seq<bool>, b: seq<bool>)
    ensures FeedBits(c, a + b) == FeedBits(FeedBits(c, a), b)
    decreases a
  {
    hide Step, Xor, Bit;
    if |a| == 0 {
      assert a + b == b;
    } else {
      assert (a + b)[1..] == a[1..] + b;
      FeedConcat(Step(Xor(c, Bit(a[0]))), a[1..], b);
    }
  }

  lemma ByteBelow(b: bv8)
    ensures Below(Widen(b), 8)
  {
  }

  /** The byte-wise CRC is the bit-serial register run over all the bits. */
  lemma {:induction false} FeedIsFeedBits(c: bv32, data: seq<bv8>)
    ensures Feed(c, data) == FeedBits(c, Bits(data))
    decreases data
  {
    hide Step, Xor;
    if |data| > 0 {
      var rest, x := data[..|data| - 1], Widen(data[|data| - 1]);
      FeedIsFeedBits(c, rest);
      FeedConcat(c, Bits(rest), BitsOf(x, 8));
      FeedWord(Feed(c, rest), BitsOf(x, 8));
      ByteBelow(data[|data| - 1]);
      WordOfBits(x, 8);
    }
  }

  // ----- Bursts -----

  function Differ(a: seq<bool>, b: seq<bool>): (d: seq<bool>)
    requires |a| == |b|
    ensures |d| == |a|
  {
    seq(|a|, i requires 0 <= i < |a| => a[i] != b[i])
  }

  /** The difference of two runs is the run of the difference. */
  lemma {:induction false} FeedLinear(c: bv32, c': bv32, a: seq<bool>, b: seq<bool>)
    requires |a| == |b|
    ensures Xor(FeedBits(c, a), FeedBits(c', b)) == FeedBits(Xor(c, c'), Differ(a, b))
    decreases a
  {
    hide Step, Xor, Bit;
    if |a| > 0 {
      var x, y := Bit(a[0]), Bit(b[0]);
      FeedLinear(Step(Xor(c, x)), Step(Xor(c', y)), a[1..], b[1..]);
      assert Differ(a, b)[1..] == Differ(a[1..], b[1..]);
      StepLinear(Xor(c, x), Xor(c', y));
      XorSwap(c, x, c', y);
      XorBits(a[0], b[0]);
    }
  }

  lemma XorBits(a: bool, b: bool)
    ensures Xor(Bit(a), Bit(b)) == Bit(a != b)
  {
  }

  lemma {:induction false} FeedZeros(c: bv32, bits: seq<bool>)
    requires forall i :: 0 <= i < |bits| ==> !bits[i]
    ensures FeedBits(c, bits) == 0 <==> c == 0
    decreases bits
  {
    hide Step, Xor;
    if |bits| > 0 {
      XorUnit(c);
      FeedZeros(Step(c), bits[1..]);
      StepZero(c);
    }
  }

  ghost predicate WithinWindow(d: seq<bool>, p: nat) {
    forall i :: 0 <= i < |d| && d[i] ==> p <= i < p + 32
  }

  ghost predicate AllFalse(d: seq<bool>) {
    forall i :: 0 <= i < |d| ==> !d[i]
  }

  /** Zeros, a non-zero burst of at most 32 bits, zeros: the register is not 0. */
  lemma BurstBetweenZeros(head: seq<bool>, burst: seq<bool>, tail: seq<bool>)
    requires AllFalse(head) && AllFalse(tail) && |burst| <= 32 && !AllFalse(burst)
    ensures FeedBits(0, head + (burst + tail)) != 0
  {
    hide Step, Xor, WordOf;
    FeedConcat(0, head, burst + tail);
    FeedZeros(0, head);
    FeedConcat(0, burst, tail);
    FeedWord(0, burst);
    XorUnit(WordOf(burst));
    if WordOf(burst) == 0 {
      WordZero(burst);
    }
    StepsZero(WordOf(burst), |burst|);
    FeedZeros(FeedBits(0, burst), tail);
  }

  lemma BurstLeavesTrace(d: seq<bool>, p: nat)
    requires WithinWindow(d, p) && !AllFalse(d)
    ensures FeedBits(0, d) != 0
  {
    hide FeedBits;
    var i :| 0 <= i < |d| && d[i];
    var q := if p + 32 <= |d| then p + 32 else |d|;
    var head, burst, tail := d[..p], d[p..q], d[q..];
    assert d == head + (burst + tail);
    assert burst[i - p];
    BurstBetweenZeros(head, burst, tail);
  }

  /** Messages of any length whose bits differ only inside some window of 32
      consecutive bits, and do differ there, have different checksums. */
  lemma BurstDetected(m: seq<bv8>, m': seq<bv8>, p: nat)
    requires |m| == |m'| && m != m'
    requires WithinWindow(Differ(Bits(m), Bits(m')), p)
    ensures Crc(m) != Crc(m')
  {
    hide Step, Xor, Not;
    var d := Differ(Bits(m), Bits(m'));
    FeedIsFeedBits(0xFFFF_FFFF, m);
    FeedIsFeedBits(0xFFFF_FFFF, m');
    FeedLinear(0xFFFF_FFFF, 0xFFFF_FFFF, Bits(m), Bits(m'));
    XorUnit(0xFFFF_FFFF);
    BitsInjective(m, m');
    BurstLeavesTrace(d, p);
    XorUnit(Feed(0xFFFF_FFFF, m));
    NotNot(Feed(0xFFFF_FFFF, m));
    NotNot(Feed(0xFFFF_FFFF, m'));
  }

  lemma BitsInjective(m: seq<bv8>, m': seq<bv8>)
    requires |m| == |m'| && m != m'
    ensures !AllFalse(Differ(Bits(m), Bits(m')))
  {
    hide Bits;
    if Bits(m) == Bits(m') {
      SameBits(m, m');
    } else {
      var i :| 0 <= i < |Bits(m)| && Bits(m)[i] != Bits(m')[i];
      assert Differ(Bits(m), Bits(m'))[i];
    }
  }

  lemma {:induction false} SameBits(m: seq<bv8>, m': seq<bv8>)
    requires |m| == |m'| && Bits(m) == Bits(m')
    ensures m == m'
  {
    hide BitsOf, Bits, Widen;
    if |m| > 0 {
      var n := |m| - 1;
      BitsLast(m);
      BitsLast(m');
      ConcatInjective(Bits(m[..n]), BitsOf(Widen(m[n]), 8), Bits(m'[..n]), BitsOf(Widen(m'[n]), 8));
      SameBits(m[..n], m'[..n]);
      SameByte(m[n], m'[n]);
      assert m == m[..n] + [m[n]] && m' == m'[..n] + [m'[n]];
    }
  }

  lemma BitsLast(m: seq<bv8>)
    requires |m| > 0
    ensures Bits(m) == Bits(m[..|m| - 1]) + BitsOf(Widen(m[|m| - 1]), 8)
  {
  }

  lemma ConcatInjective(a: seq<bool>, x: seq<bool>, b: seq<bool>, y: seq<bool>)
    requires |a| == |b| && a + x == b + y
    ensures a == b && x == y
  {
    assert a == (a + x)[..|a|] && b == (b + y)[..|a|];
    assert x == (a + x)[|a|..] && y == (b + y)[|a|..];
  }

  lemma SameByte(b: bv8, b': bv8)
    requires BitsOf(Widen(b), 8) == BitsOf(Widen(b'), 8)
    ensures b == b'
  {
    hide BitsOf, WordOf, Below;
    ByteBelow(b);
    ByteBelow(b');
    WordOfBits(Widen(b), 8);
    WordOfBits(Widen(b'), 8);
  }

  // ----- Four-byte windows, and why 32 bits is the limit -----

  lemma {:induction false} BitsAt(m: seq<bv8>, i: nat)
    requires i < 8 * |m|
    ensures Bits(m)[i] == BitsOf(Widen(m[i / 8]), 8)[i % 8]
  {
    var n := |m| - 1;
    if i < 8 * n {
      BitsAt(m[..n], i);
    } else {
      assert i / 8 == n && i % 8 == i - 8 * n;
    }
  }

  /** In bytes: a difference confined to four consecutive bytes is detected. */
  lemma FourByteBurstDetected(m: seq<bv8>, m': seq<bv8>, p: nat)
    requires |m| == |m'| && m != m'
    requires forall i :: 0 <= i < |m| && m[i] != m'[i] ==> p <= i < p + 4
    ensures Crc(m) != Crc(m')
  {
    hide Crc, BitsOf;
    var d := Differ(Bits(m), Bits(m'));
    forall i | 0 <= i < |d| && d[i]
      ensures 8 * p <= i < 8 * p + 32
    {
      BitsAt(m, i);
      BitsAt(m', i);
      assert m[i / 8] != m'[i / 8];
    }
    BurstDetected(m, m', 8 * p);
  }

  /** The polynomial itself as an error pattern, 33 bits long. */
  function Pattern(): (bits: seq<bool>)
    ensures |bits| == 33
  {
    [true] + BitsOf(POLY, 32)
  }

  lemma PatternVanishes()
    ensures FeedBits(0, Pattern()) == 0
  {
    hide BitsOf, WordOf, Below, Steps;
    XorUnit(1);
    assert Step(1) == POLY;
    assert Pattern()[1..] == BitsOf(POLY, 32);
    FeedWord(POLY, BitsOf(POLY, 32));
    PolyBelow();
    WordOfBits(POLY, 32);
    XorUnit(POLY);
    StepsZero(0, 32);
  }

  /** Every pair of messages that differ by the pattern, anywhere, collide: 32 bits
      is the longest burst that is always detected. */
  lemma PatternUndetected(m: seq<bv8>, m': seq<bv8>, p: nat)
    requires |m| == |m'| && p + 33 <= 8 * |m|
    requires var d := Differ(Bits(m), Bits(m'));
      d[p..p + 33] == Pattern() && forall i :: 0 <= i < |d| && d[i] ==> p <= i < p + 33
    ensures Crc(m) == Crc(m')
  {
    hide Step, Xor, Not, Pattern, Bits, Feed, FeedBits;
    var d := Differ(Bits(m), Bits(m'));
    FeedIsFeedBits(0xFFFF_FFFF, m);
    FeedIsFeedBits(0xFFFF_FFFF, m');
    FeedLinear(0xFFFF_FFFF, 0xFFFF_FFFF, Bits(m), Bits(m'));
    XorUnit(0xFFFF_FFFF);
    var head, tail := d[..p], d[p + 33..];
    assert d == head + (Pattern() + tail);
    FeedConcat(0, head, Pattern() + tail);
    FeedZeros(0, head);
    FeedConcat(0, Pattern(), tail);
    PatternVanishes();
    FeedZeros(0, tail);
    XorZero(Feed(0xFFFF_FFFF, m), Feed(0xFFFF_FFFF, m'));
  }

  lemma PolyBelow()
    ensures Below(POLY, 32)
  {
    assert Below(0x0000_0000, 0);
    assert Below(0x0000_00ED, 8);
    assert Below(0x0000_EDB8, 16);
    assert Below(0x00ED_B883, 24);
  }

  lemma {:induction false} BitsZero(data: seq<bv8>)
    requires forall i :: 0 <= i < |data| ==> data[i] == 0
    ensures forall i :: 0 <= i < |Bits(data)| ==> !Bits(data)[i]
  {
    hide BitsOf;
    if |data| > 0 {
      BitsZero(data[..|data| - 1]);
      ZeroBits(8);
    }
  }

  lemma {:induction false} ZeroBits(n: nat)
    ensures forall i :: 0 <= i < n ==> !BitsOf(0, n)[i]
  {
    if n > 0 {
      ZeroBits(n - 1);
    }
  }

  /** Such messages exist: five zero bytes and the pattern packed into bytes. */
  lemma PatternExample()
    ensures Crc([0, 0, 0, 0, 0]) == Crc([0x41, 0x06, 0x71, 0xDB, 0x01])
  {
    hide Xor, Not, Feed, FeedBits, Bits;
    var z, e: seq<bv8> := [0, 0, 0, 0, 0], [0x41, 0x06, 0x71, 0xDB, 0x01];
    PatternBytes();
    BitsZero(z);
    assert Differ(Bits(z), Bits(e)) == Bits(e);
    FeedIsFeedBits(0xFFFF_FFFF, z);
    FeedIsFeedBits(0xFFFF_FFFF, e);
    FeedIsFeedBits(0, e);
    FeedLinear(0xFFFF_FFFF, 0xFFFF_FFFF, Bits(z), Bits(e));
    XorUnit(0xFFFF_FFFF);
    XorZero(Feed(0xFFFF_FFFF, z), Feed(0xFFFF_FFFF, e));
  }

  lemma PatternSteps1()
    ensures Steps(Xor(0, Widen(0x41)), 8) == 0x01DB_7106
    ensures Steps(Xor(0x01DB_7106, Widen(0x06)), 8) == 0x0001_DB71
  {
  }

  lemma PatternSteps2()
    ensures Steps(Xor(0x0001_DB71, Widen(0x71)), 8) == 0x0000_01DB
  {
  }

  lemma PatternSteps3()
    ensures Steps(Xor(0x0000_01DB, Widen(0xDB)), 8) == 0x0000_0001
  {
  }

  lemma PatternSteps4()
    ensures Steps(Xor(0x0000_0001, Widen(0x01)), 8) == 0
  {
  }

  lemma PatternBytes()
    ensures Feed(0, [0x41, 0x06, 0x71, 0xDB, 0x01]) == 0
  {
    hide Steps, Xor, Widen;
    var e: seq<bv8> := [0x41, 0x06, 0x71, 0xDB, 0x01];
    PatternSteps1();
    PatternSteps2();
    PatternSteps3();
    PatternSteps4();
    FeedNext(e, 0, 0, 0x01DB_7106);
    FeedNext(e, 1, 0x01DB_7106, 0x0001_DB71);
    FeedNext(e, 2, 0x0001_DB71, 0x0000_01DB);
    FeedNext(e, 3, 0x0000_01DB, 0x0000_0001);
    FeedNext(e, 4, 0x0000_0001, 0);
    assert e[..5] == e;
  }

  lemma FeedNext(e: seq<bv8>, k: nat, c: bv32, c': bv32)
    requires k < |e| && Feed(0, e[..k]) == c
    requires Steps(Xor(c, Widen(e[k])), 8) == c'
    ensures Feed(0, e[..k + 1]) == c'
  {
    FeedNextFrom(0, e, k, c, c');
  }

  lemma FeedNextFrom(start: bv32, e: seq<bv8>, k: nat, c: bv32, c': bv32)
    requires k < |e| && Feed(start, e[..k]) == c
    requires Steps(Xor(c, Widen(e[k])), 8) == c'
    ensures Feed(start, e[..k + 1]) == c'
  {
    hide Step, Xor;
    assert e[..k + 1][..k] == e[..k];
  }

  // ----- Check value and residue -----

  lemma CheckSteps1()
    ensures Steps(Xor(0xFFFF_FFFF, Widen(0x31)), 8) == 0x7C23_1048
    ensures Steps(Xor(0x7C23_1048, Widen(0x32)), 8) == 0xB0AC_BB32
    ensures Steps(Xor(0xB0AC_BB32, Widen(0x33)), 8) == 0x77B7_9C2D
  {
  }

  lemma CheckSteps2()
    ensures Steps(Xor(0x77B7_9C2D, Widen(0x34)), 8) == 0x641C_1F5C
    ensures Steps(Xor(0x641C_1F5C, Widen(0x35)), 8) == 0x340A_C5E3
    ensures Steps(Xor(0x340A_C5E3, Widen(0x36)), 8) == 0xF68D_2C9E
  {
  }

  lemma CheckSteps3()
    ensures Steps(Xor(0xF68D_2C9E, Widen(0x37)), 8) == 0xAFFC_9660
    ensures Steps(Xor(0xAFFC_9660, Widen(0x38)), 8) == 0x651F_2550
    ensures Steps(Xor(0x651F_2550, Widen(0x39)), 8) == 0x340B_C6D9
  {
  }

  /** The checksum of the digits "123456789", by which the algorithm is known. */
  lemma CheckValue()
    ensures Crc([0x31, 0x32, 0x33, 0x34, 0x35, 0x36, 0x37, 0x38, 0x39]) == 0xCBF4_3926
  {
    hide Steps, Xor, Widen;
    var e: seq<bv8> := [0x31, 0x32, 0x33, 0x34, 0x35, 0x36, 0x37, 0x38, 0x39];
    CheckSteps1();
    CheckSteps2();
    CheckSteps3();
    assert Feed(0xFFFF_FFFF, e[..0]) == 0xFFFF_FFFF;
    FeedNextFrom(0xFFFF_FFFF, e, 0, 0xFFFF_FFFF, 0x7C23_1048);
    FeedNextFrom(0xFFFF_FFFF, e, 1, 0x7C23_1048, 0xB0AC_BB32);
    FeedNextFrom(0xFFFF_FFFF, e, 2, 0xB0AC_BB32, 0x77B7_9C2D);
    FeedNextFrom(0xFFFF_FFFF, e, 3, 0x77B7_9C2D, 0x641C_1F5C);
    FeedNextFrom(0xFFFF_FFFF, e, 4, 0x641C_1F5C, 0x340A_C5E3);
    FeedNextFrom(0xFFFF_FFFF, e, 5, 0x340A_C5E3, 0xF68D_2C9E);
    FeedNextFrom(0xFFFF_FFFF, e, 6, 0xF68D_2C9E, 0xAFFC_9660);
    FeedNextFrom(0xFFFF_FFFF, e, 7, 0xAFFC_9660, 0x651F_2550);
    FeedNextFrom(0xFFFF_FFFF, e, 8, 0x651F_2550, 0x340B_C6D9);
    assert e[..9] == e;
  }

  function LowByte(x: bv32): bv8 { (x & 0xff) as bv8 }

  function ByteUp(x: bv32): bv32 { x >> 8 }

  /** The four bytes of a word, least significant first. */
  function LittleEndian(x: bv32): (b: seq<bv8>)
    ensures |b| == 4
  {
    [LowByte(x), LowByte(ByteUp(x)), LowByte(ByteUp(ByteUp(x))), LowByte(ByteUp(ByteUp(ByteUp(x))))]
  }

  lemma {:induction false} FeedAppend(c: bv32, a: seq<bv8>, b: seq<bv8>)
    ensures Feed(c, a + b) == Feed(Feed(c, a), b)
    decreases b
  {
    hide Steps, Xor, Widen;
    if |b| == 0 {
      assert a + b == a;
    } else {
      assert (a + b)[..|a + b| - 1] == a + b[..|b| - 1];
      FeedAppend(c, a, b[..|b| - 1]);
    }
  }

  lemma {:induction false} StepsLinear(x: bv32, y: bv32, n: nat)
    ensures Steps(Xor(x, y), n) == Xor(Steps(x, n), Steps(y, n))
    decreases n
  {
    hide Step, Xor;
    if n > 0 {
      StepsLinear(x, y, n - 1);
      StepLinear(Steps(x, n - 1), Steps(y, n - 1));
    }
  }

  lemma {:induction false} StepsAdd(x: bv32, n: nat, k: nat)
    ensures Steps(x, n + k) == Steps(Steps(x, n), k)
    decreases k
  {
    hide Step;
    if k > 0 {
      StepsAdd(x, n, k - 1);
    }
  }

  /** Eight steps drop a byte that is known to leave the register unchanged above. */
  lemma ShiftsOut(x: bv32)
    requires LowByte(x) == 0
    ensures Steps(x, 8) == ByteUp(x)
  {
    var x1 := Step(x);
    var x2 := Step(x1);
    var x3 := Step(x2);
    var x4 := Step(x3);
    var x5 := Step(x4);
    var x6 := Step(x5);
    var x7 := Step(x6);
    assert Steps(x, 1) == x1 && Steps(x, 2) == x2 && Steps(x, 3) == x3 && Steps(x, 4) == x4;
    assert Steps(x, 5) == x5 && Steps(x, 6) == x6 && Steps(x, 7) == x7 && Steps(x, 8) == Step(x7);
  }

  lemma ByteParts(x: bv32)
    ensures LowByte(Xor(x, Widen(LowByte(x)))) == 0
    ensures ByteUp(Xor(x, Widen(LowByte(x)))) == ByteUp(x)
  {
  }

  /** A word is eight steps away from what its low byte makes of the register. */
  lemma FeedLow(c: bv32, x: bv32)
    ensures Steps(Xor(c, x), 8) == Xor(Steps(Xor(c, Widen(LowByte(x))), 8), ByteUp(x))
  {
    hide Step, Xor, Widen, LowByte, ByteUp;
    var low := Widen(LowByte(x));
    var high := Xor(x, low);
    ByteParts(x);
    XorComm(x, low);
    XorAssoc(low, low, x);
    XorUnit(low);
    XorUnit(x);
    XorAssoc(c, low, high);
    StepsLinear(Xor(c, low), high, 8);
    ShiftsOut(high);
  }

  /** Feeding a word's four bytes is 32 steps from the register xored with it. */
  lemma FeedLittleEndian(c: bv32, x: bv32)
    ensures Feed(c, LittleEndian(x)) == Steps(Xor(c, x), 32)
  {
    hide Step, Steps, Xor, Widen, LowByte, ByteUp;
    var x1 := ByteUp(x);
    var x2 := ByteUp(x1);
    var x3 := ByteUp(x2);
    var e := LittleEndian(x);
    var c1 := Steps(Xor(c, Widen(e[0])), 8);
    var c2 := Steps(Xor(c1, Widen(e[1])), 8);
    var c3 := Steps(Xor(c2, Widen(e[2])), 8);
    var c4 := Steps(Xor(c3, Widen(e[3])), 8);
    assert Feed(c, e[..0]) == c;
    FeedNextFrom(c, e, 0, c, c1);
    FeedNextFrom(c, e, 1, c1, c2);
    FeedNextFrom(c, e, 2, c2, c3);
    FeedNextFrom(c, e, 3, c3, c4);
    assert e[..4] == e;
    FeedLow(c, x);
    FeedLow(c1, x1);
    FeedLow(c2, x2);
    FeedLow(c3, x3);
    NoByteLeft(x);
    XorUnit(c4);
    StepsAdd(Xor(c, x), 8, 24);
    StepsAdd(Xor(c1, x1), 8, 16);
    StepsAdd(Xor(c2, x2), 8, 8);
  }

  lemma NoByteLeft(x: bv32)
    ensures ByteUp(ByteUp(ByteUp(ByteUp(x)))) == 0
  {
  }

  lemma XorNot(x: bv32)
    ensures Xor(x, Not(x)) == 0xFFFF_FFFF
  {
  }

  lemma ResidueSteps()
    ensures Steps(0xFFFF_FFFF, 8) == 0x2DFD_1072
    ensures Steps(0x2DFD_1072, 8) == 0xBE26_ED00
    ensures Steps(0xBE26_ED00, 8) == 0x00BE_26ED
    ensures Steps(0x00BE_26ED, 8) == 0xDEBB_20E3
  {
  }

  /** A message followed by its own checksum always has the same checksum. */
  lemma Residue(m: seq<bv8>)
    ensures Crc(m + LittleEndian(Crc(m))) == 0x2144_DF1C
  {
    hide Steps, Xor, LittleEndian, Feed;
    var r := Feed(0xFFFF_FFFF, m);
    FeedAppend(0xFFFF_FFFF, m, LittleEndian(Crc(m)));
    FeedLittleEndian(r, Not(r));
    XorNot(r);
    ResidueSteps();
    StepsAdd(0xFFFF_FFFF, 8, 24);
    StepsAdd(0x2DFD_1072, 8, 16);
    StepsAdd(0xBE26_ED00, 8, 8);
  }
}
