/** The numbers that arrays of 32-bit limbs stand for: limb 0 is the least
    significant. */
module Limbs {
  import opened Arith

  // Limbs of a 2048-bit number.
  const LIMBS: nat := 64

  function Value(a: seq<u32>): nat
  {
    if |a| == 0 then 0
    else Value(a[..|a| - 1]) + a[|a| - 1] as int * Pow(BASE, |a| - 1)
  }

  /** The modulus that the bit-serial reduction divides by. Reducing "modulo 0"
      only drops what leaves the window, so it is a reduction modulo 2^(32 n). */
  function EffectiveModulus(m: seq<u32>): (r: nat)
    ensures 0 < r <= Pow(BASE, |m|)
  {
    ValueBound(m);
    if Value(m) == 0 then Pow(BASE, |m|) else Value(m)
  }

  lemma {:induction false} ValueBound(a: seq<u32>)
    ensures Value(a) < Pow(BASE, |a|)
  {
    if |a| > 0 {
      var n, p := |a| - 1, Pow(BASE, |a| - 1);
      ValueBound(a[..n]);
      MulMono(a[n] as int, BASE - 1, p);
      MulDistrib(BASE, -1, p);
    }
  }

  /** One more limb of a prefix. */
  lemma ValueSnoc(a: seq<u32>, i: nat)
    requires i < |a|
    ensures Value(a[..i + 1]) == Value(a[..i]) + a[i] as int * Pow(BASE, i)
  {
    assert a[..i + 1][..i] == a[..i];
  }

  lemma {:induction false} ValueZero(a: seq<u32>)
    requires forall k :: 0 <= k < |a| ==> a[k] == 0
    ensures Value(a) == 0
  {
    if |a| > 0 {
      ValueZero(a[..|a| - 1]);
    }
  }

  /** Limbs above position i that are all zero do not change the value. */
  lemma {:induction false} ValueHighZeros(a: seq<u32>, i: nat)
    requires i <= |a|
    requires forall k :: i <= k < |a| ==> a[k] == 0
    ensures Value(a) == Value(a[..i])
  {
    if i < |a| {
      var b := a[..|a| - 1];
      ValueHighZeros(b, i);
      assert b[..i] == a[..i];
    } else {
      assert a[..i] == a;
    }
  }

  lemma SingleLimb(a: seq<u32>)
    requires |a| > 0 && forall k :: 1 <= k < |a| ==> a[k] == 0
    ensures Value(a) == a[0] as int
  {
  }

  lemma {:induction false} ValueUpdate(a: seq<u32>, i: nat, v: u32)
    requires i < |a|
    ensures Value(a[i := v]) == Value(a) + (v as int - a[i] as int) * Pow(BASE, i)
  {
    var n := |a| - 1;
    var b := a[i := v];
    MulDistrib(v as int, a[i] as int, Pow(BASE, i));
    if i == n {
      assert b[..n] == a[..n];
    } else {
      ValueUpdate(a[..n], i, v);
      assert b[..n] == a[..n][i := v];
    }
  }

  /** The highest limb that differs decides the order. */
  lemma {:induction false} ValueLess(a: seq<u32>, b: seq<u32>, k: nat)
    requires |a| == |b| && k < |a|
    requires a[k] < b[k] && forall l :: k < l < |a| ==> a[l] == b[l]
    ensures Value(a) < Value(b)
  {
    var n := |a| - 1;
    if k == n {
      ValueBound(a[..n]);
      MulMono(a[n] as int + 1, b[n] as int, Pow(BASE, n));
      MulDistrib(a[n] as int, 1, Pow(BASE, n));
    } else {
      ValueLess(a[..n], b[..n], k);
    }
  }

  /** Doubling overflows the window exactly when the top bit is set. */
  lemma TopBitDecides(r: seq<u32>, bit: nat)
    requires |r| > 0 && bit <= 1
    ensures r[|r| - 1] as int / 0x8000_0000 % 2 == 1 <==> 2 * Value(r) + bit >= Pow(BASE, |r|)
  {
    var n := |r| - 1;
    var p, t := Pow(BASE, n), r[n] as int;
    ValueBound(r[..n]);
    assert Pow(BASE, |r|) == BASE * p;
    if t >= 0x8000_0000 {
      MulMono(0x8000_0000, t, p);
    } else {
      MulMono(t, 0x7fff_ffff, p);
    }
  }

  /** Bit i of the number. */
  function Bit(a: seq<u32>, i: nat): nat
    requires i < 32 * |a|
  {
    a[i / 32] as int / Pow(2, i % 32) % 2
  }

  /** The number formed by bits i and up, read from the top bit down. */
  function High(a: seq<u32>, i: nat): nat
    requires i <= 32 * |a|
    decreases 32 * |a| - i
  {
    if i == 32 * |a| then 0 else 2 * High(a, i + 1) + Bit(a, i)
  }

  lemma BitInLimb(a: seq<u32>, k: nat, j: nat)
    requires k < |a| && j < 32
    ensures a[k] as int / Pow(2, j) == 2 * (a[k] as int / Pow(2, j + 1)) + Bit(a, 32 * k + j)
  {
    assert (32 * k + j) / 32 == k && (32 * k + j) % 32 == j;
    DivDiv(a[k] as int, Pow(2, j), 2);
  }

  lemma {:induction false} HighInsideLimb(a: seq<u32>, k: nat, j: nat)
    requires k < |a| && j <= 32
    ensures High(a, 32 * k + j) == High(a, 32 * k + 32) * Pow(2, 32 - j) + a[k] as int / Pow(2, j)
    decreases 32 - j
  {
    if j == 32 {
      Pow32();
    } else {
      HighInsideLimb(a, k, j + 1);
      BitInLimb(a, k, j);
      InsideStep(High(a, 32 * k + 32), Pow(2, 31 - j), a[k] as int / Pow(2, j + 1), Bit(a, 32 * k + j), High(a, 32 * k + j + 1));
    }
  }

  lemma InsideStep(top: int, p: int, q: int, bit: int, h: int)
    requires h == top * p + q
    ensures 2 * h + bit == top * (2 * p) + (2 * q + bit)
  {
    MulDouble(top, p);
  }

  /** Splitting a number at a limb boundary. */
  lemma {:induction false} HighSplit(a: seq<u32>, k: nat)
    requires k <= |a|
    ensures Value(a) == Value(a[..k]) + Pow(BASE, k) * High(a, 32 * k)
    decreases |a| - k
  {
    if k == |a| {
      assert a[..k] == a;
    } else {
      HighSplit(a, k + 1);
      MoveBoundary(a, k);
    }
  }

  /** One limb moves from the high to the low part. */
  lemma MoveBoundary(a: seq<u32>, k: nat)
    requires k < |a|
    ensures Value(a[..k + 1]) + Pow(BASE, k + 1) * High(a, 32 * (k + 1)) == Value(a[..k]) + Pow(BASE, k) * High(a, 32 * k)
  {
    hide High, Value;
    ValueSnoc(a, k);
    HighInsideLimb(a, k, 0);
    Pow32();
    var h := High(a, 32 * k + 32);
    assert 32 * (k + 1) == 32 * k + 32;
    SplitStep(Value(a[..k]), a[k] as int, h, High(a, 32 * k), Pow(BASE, k));
  }

  lemma SplitStep(v: int, x: int, h: int, h': int, p: int)
    requires h' == h * BASE + x
    ensures (v + x * p) + (BASE * p) * h == v + p * h'
  {
  }

  /** Read bit by bit from the top, an array of limbs is its value. */
  lemma HighIsValue(a: seq<u32>)
    ensures High(a, 0) == Value(a)
  {
    HighSplit(a, 0);
    assert a[..0] == [];
  }

  method ClearLimbs(a: array<u32>)
    modifies a
    ensures forall k :: 0 <= k < a.Length ==> a[k] == 0
  {
    for i := 0 to a.Length
      invariant forall k :: 0 <= k < i ==> a[k] == 0
    {
      a[i] := 0;
    }
  }

  method CopyLimbs(dst: array<u32>, src: array<u32>)
    requires dst.Length == src.Length
    modifies dst
    ensures dst[..] == old(src[..])
  {
    forall k | 0 <= k < dst.Length {
      dst[k] := src[k];
    }
  }
}
