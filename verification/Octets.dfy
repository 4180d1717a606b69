/** Octet strings as numbers (OS2IP and I2OSP of RFC 8017, sections 4.1 and 4.2),
    and their packing into little-endian limbs. */
module Octets {
  import opened Arith
  import opened Limbs

  /** The big-endian value of an octet string. */
  function OS2IP(b: seq<u8>): nat
  {
    if |b| == 0 then 0 else OS2IP(b[..|b| - 1]) * 256 + b[|b| - 1] as int
  }

  /** The n-octet big-endian form of x. */
  function I2OSP(x: nat, n: nat): (b: seq<u8>)
    ensures |b| == n
  {
    if n == 0 then [] else I2OSP(x / 256, n - 1) + [(x % 256) as u8]
  }

  lemma {:induction false} I2OSPInverse(b: seq<u8>)
    ensures I2OSP(OS2IP(b), |b|) == b
  {
    if |b| > 0 {
      var b', last := b[..|b| - 1], b[|b| - 1];
      I2OSPInverse(b');
      ModUnique(OS2IP(b), OS2IP(b'), last as int, 256);
      assert b == b' + [last];
    }
  }

  lemma {:induction false} OS2IPInverse(x: nat, n: nat)
    requires x < Pow(256, n)
    ensures OS2IP(I2OSP(x, n)) == x
  {
    if n > 0 {
      ModUnique(x, x / 256, x % 256, 256);
      OS2IPInverse(x / 256, n - 1);
      assert I2OSP(x, n)[..n - 1] == I2OSP(x / 256, n - 1);
    }
  }

  lemma {:induction false} OS2IPBound(b: seq<u8>)
    ensures OS2IP(b) < Pow(256, |b|)
  {
    if |b| > 0 {
      OS2IPBound(b[..|b| - 1]);
    }
  }

  lemma {:induction false} OS2IPConcat(x: seq<u8>, y: seq<u8>)
    ensures OS2IP(x + y) == OS2IP(x) * Pow(256, |y|) + OS2IP(y)
  {
    if |y| == 0 {
      assert x + y == x;
    } else {
      var y' := y[..|y| - 1];
      OS2IPConcat(x, y');
      assert (x + y)[..|x + y| - 1] == x + y';
      MulDistrib(OS2IP(x) * Pow(256, |y'|), OS2IP(y'), 256);
      MulAssoc(OS2IP(x), Pow(256, |y'|), 256);
    }
  }

  // Octet b of an n-octet string lives in this limb, shifted left by this much.
  function LimbOf(n: nat, b: nat): nat
    requires b < n
  {
    (n - 1 - b) / 4
  }

  function ShiftOf(b: nat): nat {
    24 - 8 * (b % 4)
  }

  /** The octet of residue q modulo 4 in limb l once the first `upto` octets are
      packed; 0 while there is none. */
  function Slot(bytes: seq<u8>, upto: nat, l: nat, q: nat): (r: int)
    requires upto <= |bytes|
    ensures 0 <= r < 256
  {
    if upto == 0 then 0
    else if LimbOf(|bytes|, upto - 1) == l && (upto - 1) % 4 == q then bytes[upto - 1] as int
    else Slot(bytes, upto - 1, l, q)
  }

  /** No two octets share a limb and a residue. */
  lemma SlotsDistinct(n: nat, b: nat, c: nat)
    requires b < n && c < n && LimbOf(n, b) == LimbOf(n, c) && b % 4 == c % 4
    ensures b == c
  {
  }

  lemma {:induction false} SlotEmpty(bytes: seq<u8>, upto: nat, b: nat)
    requires upto <= b < |bytes|
    ensures Slot(bytes, upto, LimbOf(|bytes|, b), b % 4) == 0
  {
    if upto > 0 {
      SlotEmpty(bytes, upto - 1, b);
      if LimbOf(|bytes|, upto - 1) == LimbOf(|bytes|, b) && (upto - 1) % 4 == b % 4 {
        SlotsDistinct(|bytes|, upto - 1, b);
      }
    }
  }

  lemma {:induction false} SlotFull(bytes: seq<u8>, upto: nat, b: nat)
    requires b < upto <= |bytes|
    ensures Slot(bytes, upto, LimbOf(|bytes|, b), b % 4) == bytes[b] as int
  {
    if upto - 1 > b {
      SlotFull(bytes, upto - 1, b);
      if LimbOf(|bytes|, upto - 1) == LimbOf(|bytes|, b) && (upto - 1) % 4 == b % 4 {
        SlotsDistinct(|bytes|, upto - 1, b);
      }
    }
  }

  function PackedLimb(bytes: seq<u8>, upto: nat, l: nat): (r: int)
    requires upto <= |bytes|
    ensures 0 <= r < BASE
  {
    Join(Slot(bytes, upto, l, 0), Slot(bytes, upto, l, 1), Slot(bytes, upto, l, 2), Slot(bytes, upto, l, 3))
  }

  function Pack(bytes: seq<u8>): (limbs: seq<u32>)
    ensures |limbs| == LIMBS
  {
    seq(LIMBS, l requires 0 <= l < LIMBS => PackedLimb(bytes, |bytes|, l) as u32)
  }

  function Unpack(limbs: seq<u32>, n: nat): (bytes: seq<u8>)
    requires n <= 4 * |limbs|
    ensures |bytes| == n
  {
    seq(n, b requires 0 <= b < n => ByteAt(limbs[LimbOf(n, b)], ShiftOf(b)))
  }

  /** What an octet of residue q counts for in its limb. */
  function Weight(q: nat): nat {
    if q == 0 then 0x100_0000 else if q == 1 then 0x1_0000 else if q == 2 then 0x100 else 1
  }

  lemma WeightIsShift(q: nat)
    requires q < 4
    ensures Pow(2, 24 - 8 * q) == Weight(q)
  {
    assert Pow(2, 8) == 0x100;
    PowAdd(2, 8, 8);
    PowAdd(2, 16, 8);
  }

  function Join(s0: int, s1: int, s2: int, s3: int): int {
    s0 * 0x100_0000 + s1 * 0x1_0000 + s2 * 0x100 + s3
  }

  /** Or-ing an octet into an empty slot adds it there. */
  lemma OrSlot(s0: int, s1: int, s2: int, s3: int, y: u8, q: nat)
    requires 0 <= s0 < 256 && 0 <= s1 < 256 && 0 <= s2 < 256 && 0 <= s3 < 256 && q < 4
    requires [s0, s1, s2, s3][q] == 0
    ensures 0 <= y as int * Weight(q) < BASE
    ensures Or(Join(s0, s1, s2, s3), y as int * Weight(q)) == Join(s0, s1, s2, s3) + y as int * Weight(q)
  {
    if q == 0 {
      OrAt(Join(s0, s1, s2, s3), 0, Join(0, s1, s2, s3), y, 0);
    } else if q == 1 {
      OrAt(Join(s0, s1, s2, s3), s0, Join(0, 0, s2, s3), y, 1);
    } else if q == 2 {
      OrAt(Join(s0, s1, s2, s3), Join(0, 0, s0, s1), s3, y, 2);
    } else {
      OrAt(Join(s0, s1, s2, s3), Join(0, s0, s1, s2), 0, y, 3);
    }
  }

  lemma AddSlot(s0: int, s1: int, s2: int, s3: int, y: u8, q: nat)
    requires q < 4 && [s0, s1, s2, s3][q] == 0
    ensures Join(s0, s1, s2, s3) + y as int * Weight(q)
         == Join(if q == 0 then y as int else s0, if q == 1 then y as int else s1,
                 if q == 2 then y as int else s2, if q == 3 then y as int else s3)
  {
  }

  lemma OrAt(x: nat, h: nat, l: nat, y: u8, q: nat)
    requires q < 4 && l < Weight(q)
    requires x == h * (256 * Weight(q)) + l
    ensures Or(x, y as int * Weight(q)) == x + y as int * Weight(q)
  {
    WeightIsShift(q);
    assert Pow(2, 8) == 0x100;
    PowAdd(2, 8, 24 - 8 * q);
    OrField(h, l, y as int, 8, 24 - 8 * q);
  }

  /** Or-ing the next octet into its limb never meets a set bit. */
  lemma PackStep(bytes: seq<u8>, b: nat)
    requires b < |bytes|
    ensures var l := LimbOf(|bytes|, b);
      0 <= bytes[b] as int * Pow(2, ShiftOf(b)) < BASE
      && Or(PackedLimb(bytes, b, l), bytes[b] as int * Pow(2, ShiftOf(b))) == PackedLimb(bytes, b + 1, l)
  {
    var l, q := LimbOf(|bytes|, b), b % 4;
    SlotEmpty(bytes, b, b);
    var s0, s1, s2, s3 := Slot(bytes, b, l, 0), Slot(bytes, b, l, 1), Slot(bytes, b, l, 2), Slot(bytes, b, l, 3);
    assert [s0, s1, s2, s3][q] == Slot(bytes, b, l, q);
    WeightIsShift(q);
    OrSlot(s0, s1, s2, s3, bytes[b], q);
    AddSlot(s0, s1, s2, s3, bytes[b], q);
  }

  lemma PackOther(bytes: seq<u8>, b: nat, l: nat)
    requires b < |bytes| && l != LimbOf(|bytes|, b)
    ensures PackedLimb(bytes, b + 1, l) == PackedLimb(bytes, b, l)
  {
  }

  lemma FieldOf(s0: int, s1: int, s2: int, s3: int, q: nat)
    requires 0 <= s0 < 256 && 0 <= s1 < 256 && 0 <= s2 < 256 && 0 <= s3 < 256 && q < 4
    ensures Join(s0, s1, s2, s3) / Weight(q) % 256 == [s0, s1, s2, s3][q]
  {
    var x := Join(s0, s1, s2, s3);
    if q == 0 {
      ModUnique(x, s0, Join(0, s1, s2, s3), 0x100_0000);
      ModUnique(s0, 0, s0, 256);
    } else if q == 1 {
      ModUnique(x, Join(0, 0, s0, s1), Join(0, 0, s2, s3), 0x1_0000);
      ModUnique(Join(0, 0, s0, s1), s0, s1, 256);
    } else if q == 2 {
      ModUnique(x, Join(0, s0, s1, s2), s3, 0x100);
      ModUnique(Join(0, s0, s1, s2), Join(0, 0, s0, s1), s2, 256);
    } else {
      ModUnique(x, x, 0, 1);
      ModUnique(x, Join(0, s0, s1, s2), s3, 256);
    }
  }

  /** Unpacking undoes packing, for every length that fits the limbs. */
  lemma UnpackPack(bytes: seq<u8>)
    requires |bytes| <= 4 * LIMBS
    ensures Unpack(Pack(bytes), |bytes|) == bytes
  {
    var n := |bytes|;
    forall b: nat | b < n
      ensures Unpack(Pack(bytes), n)[b] == bytes[b]
    {
      var l := LimbOf(n, b);
      SlotFull(bytes, n, b);
      WeightIsShift(b % 4);
      FieldOf(Slot(bytes, n, l, 0), Slot(bytes, n, l, 1), Slot(bytes, n, l, 2), Slot(bytes, n, l, 3), b % 4);
    }
  }

  /** The four octets of limb l of a string that fills whole limbs. */
  lemma WholeLimb(bytes: seq<u8>, l: nat)
    requires |bytes| % 4 == 0 && 4 * l + 4 <= |bytes|
    ensures var c := |bytes| - 4 * l - 4;
      PackedLimb(bytes, |bytes|, l) == Join(bytes[c] as int, bytes[c + 1] as int, bytes[c + 2] as int, bytes[c + 3] as int)
  {
    var n, c := |bytes|, |bytes| - 4 * l - 4;
    assert c % 4 == 0;
    SlotFull(bytes, n, c);
    SlotFull(bytes, n, c + 1);
    SlotFull(bytes, n, c + 2);
    SlotFull(bytes, n, c + 3);
  }

  lemma Recompose(x: u32)
    ensures var n := x as int;
      Join(n / 0x100_0000 % 256, n / 0x1_0000 % 256, n / 0x100 % 256, n / 1 % 256) == n
  {
    var n := x as int;
    DivDiv(n, 0x100, 0x100);
    DivDiv(n, 0x1_0000, 0x100);
    ModUnique(n / 0x100_0000, 0, n / 0x100_0000, 256);
    ModUnique(n, n, 0, 1);
  }

  lemma UnpackAt(limbs: seq<u32>, l: nat, q: nat)
    requires |limbs| == LIMBS && l < LIMBS && q < 4
    ensures Unpack(limbs, 4 * LIMBS)[4 * LIMBS - 4 * l - 4 + q] as int == limbs[l] as int / Weight(q) % 256
  {
    var n, c := 4 * LIMBS, 4 * LIMBS - 4 * l - 4 + q;
    assert LimbOf(n, c) == l && c % 4 == q;
    WeightIsShift(q);
  }

  /** Packing undoes unpacking when all limbs are filled. */
  lemma PackUnpack(limbs: seq<u32>)
    requires |limbs| == LIMBS
    ensures Pack(Unpack(limbs, 4 * LIMBS)) == limbs
  {
    var bytes := Unpack(limbs, 4 * LIMBS);
    forall l: nat | l < LIMBS
      ensures Pack(bytes)[l] == limbs[l]
    {
      WholeLimb(bytes, l);
      UnpackAt(limbs, l, 0);
      UnpackAt(limbs, l, 1);
      UnpackAt(limbs, l, 2);
      UnpackAt(limbs, l, 3);
      Recompose(limbs[l]);
    }
  }

  lemma {:induction false} Pow256(k: nat)
    ensures Pow(256, 4 * k) == Pow(BASE, k)
  {
    if k > 0 {
      Pow256(k - 1);
      assert Pow(256, 4) == BASE;
      assert 4 * k == 4 + 4 * (k - 1);
      PowAdd(256, 4, 4 * (k - 1));
    }
  }

  lemma {:induction false} PackPrefix(bytes: seq<u8>, k: nat)
    requires |bytes| % 4 == 0 && 4 * k <= |bytes| <= 4 * LIMBS
    ensures Value(Pack(bytes)[..k]) == OS2IP(bytes[|bytes| - 4 * k..])
  {
    var n, limbs := |bytes|, Pack(bytes);
    if k > 0 {
      PackPrefix(bytes, k - 1);
      ValueSnoc(limbs, k - 1);
      var c := n - 4 * k;
      var head, rest := bytes[c..c + 4], bytes[c + 4..];
      WholeLimb(bytes, k - 1);
      FourOctets(head);
      assert limbs[k - 1] as int == OS2IP(head);
      assert bytes[c..] == head + rest;
      OS2IPConcat(head, rest);
      Pow256(k - 1);
    }
  }

  lemma FourOctets(b: seq<u8>)
    requires |b| == 4
    ensures OS2IP(b) == Join(b[0] as int, b[1] as int, b[2] as int, b[3] as int)
  {
    var b3, b2, b1 := b[..3], b[..2], b[..1];
    assert b3[..2] == b2 && b2[..1] == b1 && b1[..0] == [];
    assert OS2IP(b1) == b[0] as int;
    assert OS2IP(b2) == OS2IP(b1) * 256 + b[1] as int;
    assert OS2IP(b3) == OS2IP(b2) * 256 + b[2] as int;
  }

  /** For a whole number of limbs, the packed limbs have the octets' value. */
  lemma PackValue(bytes: seq<u8>)
    requires |bytes| % 4 == 0 && |bytes| <= 4 * LIMBS
    ensures Value(Pack(bytes)) == OS2IP(bytes)
  {
    var n, k := |bytes|, |bytes| / 4;
    assert 4 * k == n;
    PackPrefix(bytes, k);
    assert bytes[n - 4 * k..] == bytes;
    forall l | k <= l < LIMBS
      ensures Pack(bytes)[l] == 0
    {
      LimbBeyond(bytes, l);
    }
    ValueHighZeros(Pack(bytes), k);
  }

  lemma LimbBeyond(bytes: seq<u8>, l: nat)
    requires |bytes| <= 4 * l
    ensures PackedLimb(bytes, |bytes|, l) == 0
  {
    SlotBeyond(bytes, |bytes|, l, 0);
    SlotBeyond(bytes, |bytes|, l, 1);
    SlotBeyond(bytes, |bytes|, l, 2);
    SlotBeyond(bytes, |bytes|, l, 3);
  }

  lemma {:induction false} SlotBeyond(bytes: seq<u8>, upto: nat, l: nat, q: nat)
    requires upto <= |bytes| <= 4 * l
    ensures Slot(bytes, upto, l, q) == 0
  {
    if upto > 0 {
      SlotBeyond(bytes, upto - 1, l, q);
    }
  }

  /** Exactly the lengths that are a multiple of 4 keep the value: for every other
      length some string is misread. */
  lemma PackValueIffWholeLimbs(n: nat)
    requires n <= 4 * LIMBS
    ensures n % 4 == 0 <==> forall bytes: seq<u8> :: |bytes| == n ==> Value(Pack(bytes)) == OS2IP(bytes)
  {
    if n % 4 == 0 {
      forall bytes: seq<u8> | |bytes| == n
        ensures Value(Pack(bytes)) == OS2IP(bytes)
      {
        PackValue(bytes);
      }
    } else {
      Misread(n);
    }
  }

  lemma Misread(n: nat)
    requires n <= 4 * LIMBS && n % 4 != 0
    ensures exists bytes: seq<u8> :: |bytes| == n && Value(Pack(bytes)) != OS2IP(bytes)
  {
    var zeros: seq<u8> := seq(n - 1, _ => 0);
    var bytes := zeros + [1 as u8];
    OS2IPZeros(zeros);
    assert bytes[..n - 1] == zeros;
    assert OS2IP(bytes) == 1;
    MisreadValue(bytes);
  }

  lemma MisreadValue(bytes: seq<u8>)
    requires |bytes| % 4 != 0 && forall c :: 0 <= c < |bytes| - 1 ==> bytes[c] == 0
    ensures Value(Pack(bytes)) != 1
  {
    var limbs := Pack(bytes);
    forall l | 1 <= l < LIMBS
      ensures limbs[l] == 0
    {
      LimbZero(bytes, l);
    }
    SingleLimb(limbs);
    ResidueBefore(|bytes|);
    SlotZero(bytes, |bytes|, 0, 3);
    assert limbs[0] as int == PackedLimb(bytes, |bytes|, 0);
    NotOne(Slot(bytes, |bytes|, 0, 0), Slot(bytes, |bytes|, 0, 1), Slot(bytes, |bytes|, 0, 2));
  }

  lemma ResidueBefore(n: nat)
    requires n % 4 != 0
    ensures (n - 1) % 4 != 3
  {
  }

  lemma NotOne(s0: int, s1: int, s2: int)
    ensures Join(s0, s1, s2, 0) != 1
  {
  }

  lemma LimbZero(bytes: seq<u8>, l: nat)
    requires l > 0 && forall c :: 0 <= c < |bytes| - 1 ==> bytes[c] == 0
    ensures PackedLimb(bytes, |bytes|, l) == 0
  {
    SlotZero(bytes, |bytes|, l, 0);
    SlotZero(bytes, |bytes|, l, 1);
    SlotZero(bytes, |bytes|, l, 2);
    SlotZero(bytes, |bytes|, l, 3);
  }

  lemma {:induction false} SlotZero(bytes: seq<u8>, upto: nat, l: nat, q: nat)
    requires upto <= |bytes| && forall c :: 0 <= c < |bytes| - 1 ==> bytes[c] == 0
    requires l > 0 || q != (|bytes| - 1) % 4
    ensures Slot(bytes, upto, l, q) == 0
  {
    if upto > 0 {
      SlotZero(bytes, upto - 1, l, q);
    }
  }

  lemma {:induction false} OS2IPZeros(b: seq<u8>)
    requires forall k :: 0 <= k < |b| ==> b[k] == 0
    ensures OS2IP(b) == 0
  {
    if |b| > 0 {
      OS2IPZeros(b[..|b| - 1]);
    }
  }

  /** Unpacking all 64 limbs is I2OSP of their value. */
  lemma UnpackIsI2OSP(limbs: seq<u32>)
    requires |limbs| == LIMBS
    ensures Unpack(limbs, 4 * LIMBS) == I2OSP(Value(limbs), 4 * LIMBS)
  {
    var bytes := Unpack(limbs, 4 * LIMBS);
    PackUnpack(limbs);
    PackValue(bytes);
    I2OSPInverse(bytes);
  }

  /** The limbs after the first `upto` octets have been or-ed in. */
  function OrOctets(bytes: seq<u8>, upto: nat): (out: seq<u32>)
    requires upto <= |bytes| <= 4 * LIMBS
    ensures |out| == LIMBS
  {
    if upto == 0 then seq(LIMBS, _ => 0)
    else
      var before := OrOctets(bytes, upto - 1);
      var limb := LimbOf(|bytes|, upto - 1);
      before[limb := Or32(before[limb], ShiftLeft32(bytes[upto - 1] as u32, ShiftOf(upto - 1)))]
  }

  lemma {:induction false} OrOctetsPacks(bytes: seq<u8>, upto: nat, l: nat)
    requires upto <= |bytes| <= 4 * LIMBS && l < LIMBS
    ensures OrOctets(bytes, upto)[l] as int == PackedLimb(bytes, upto, l)
  {
    if upto > 0 {
      var b := upto - 1;
      OrOctetsPacks(bytes, b, l);
      if l == LimbOf(|bytes|, b) {
        PackStep(bytes, b);
        var shifted := bytes[b] as int * Pow(2, ShiftOf(b));
        ModUnique(shifted, 0, shifted, BASE);
      } else {
        PackOther(bytes, b, l);
      }
    }
  }

  /** out := the limbs of a big-endian octet string; each octet is or-ed into its
      limb. */
  method FromBytes(out: array<u32>, bytes: seq<u8>)
    requires out.Length == LIMBS && |bytes| <= 4 * LIMBS
    modifies out
    ensures out[..] == Pack(bytes)
    ensures |bytes| % 4 == 0 ==> Value(out[..]) == OS2IP(bytes)
  {
    var n := |bytes|;
    ClearLimbs(out);
    for b := 0 to n
      invariant out[..] == OrOctets(bytes, b)
    {
      var limb := LimbOf(n, b);
      out[limb] := Or32(out[limb], ShiftLeft32(bytes[b] as u32, ShiftOf(b)));
    }
    OrOctetsIsPack(bytes);
    if n % 4 == 0 {
      PackValue(bytes);
    }
  }

  /** Or-ing the octets in one by one gives the packed limbs. */
  lemma OrOctetsIsPack(bytes: seq<u8>)
    requires |bytes| <= 4 * LIMBS
    ensures OrOctets(bytes, |bytes|) == Pack(bytes)
  {
    forall l | 0 <= l < LIMBS
      ensures OrOctets(bytes, |bytes|)[l] == Pack(bytes)[l]
    {
      OrOctetsPacks(bytes, |bytes|, l);
    }
  }

  /** The big-endian octets of a limb array. */
  method ToBytes(inp: array<u32>, bytes: array<u8>)
    requires bytes.Length <= 4 * inp.Length
    modifies bytes
    ensures bytes[..] == Unpack(inp[..], bytes.Length)
  {
    var n := bytes.Length;
    for b := 0 to n
      invariant forall c :: 0 <= c < b ==> bytes[c] == ByteAt(inp[LimbOf(n, c)], ShiftOf(c))
    {
      bytes[b] := ByteAt(inp[LimbOf(n, b)], ShiftOf(b));
    }
  }
}
