/** Fixed-width big integers: in-place arithmetic on little-endian arrays of
    32-bit limbs. A C array of n limbs with its count n is an array of length n.
    Every contract is integer arithmetic on `Value`. */
module BigNum {
  import opened Arith
  import opened Limbs

  method Compare(a: array<u32>, b: array<u32>) returns (r: int)
    requires a.Length == b.Length
    ensures r == 1 <==> Value(a[..]) > Value(b[..])
    ensures r == -1 <==> Value(a[..]) < Value(b[..])
    ensures r == 0 <==> Value(a[..]) == Value(b[..])
  {
    var i := a.Length - 1;
    while i >= 0
      invariant -1 <= i < a.Length
      invariant forall k :: i < k < a.Length ==> a[k] == b[k]
    {
      if a[i] > b[i] {
        ValueLess(b[..], a[..], i);
        return 1;
      }
      if a[i] < b[i] {
        ValueLess(a[..], b[..], i);
        return -1;
      }
      i := i - 1;
    }
    assert a[..] == b[..];
    return 0;
  }

  /** After i limbs: the difference of the low parts, with a borrow pending. */
  ghost predicate Subtracted(a0: seq<u32>, b0: seq<u32>, a: seq<u32>, i: nat, borrow: nat)
    requires i <= |a0| == |b0| == |a|
  {
    && a[i..] == a0[i..]
    && Value(a[..i]) == Value(a0[..i]) - Value(b0[..i]) + borrow * Pow(BASE, i)
  }

  lemma SubtractStep(a0: seq<u32>, b0: seq<u32>, a: seq<u32>, i: nat, borrow: nat, z: u32, borrow': nat)
    requires i < |a0| == |b0| == |a| && Subtracted(a0, b0, a, i, borrow)
    requires z as int == a[i] as int - b0[i] as int - borrow + borrow' * BASE
    ensures Subtracted(a0, b0, a[i := z], i + 1, borrow')
  {
    var a', p := a[i := z], Pow(BASE, i);
    var x, y := a0[i] as int, b0[i] as int;
    assert a[i] == a[i..][0] == a0[i..][0] == a0[i];
    assert a'[i + 1..] == a[i..][1..] && a0[i + 1..] == a0[i..][1..];
    assert a'[..i] == a[..i];
    ValueSnoc(a0, i);
    ValueSnoc(b0, i);
    ValueSnoc(a', i);
    MulDistrib(x - y - borrow, borrow' * BASE, p);
    MulDistrib(x - y, borrow, p);
    MulDistrib(x, y, p);
    MulAssoc(borrow', BASE, p);
  }

  /** How a 64-bit subtraction wraps: the low word and the bit above it. */
  lemma BorrowOut(x: u32, y: u32, borrow: nat)
    requires borrow <= 1
    ensures var cur := (x as int - y as int - borrow) % BASE64;
      var borrow' := cur / BASE % 2;
      cur % BASE == x as int - y as int - borrow + borrow' * BASE
  {
  }

  /** a := a - b, wrapping modulo 2^(32 n). */
  method Subtract(a: array<u32>, b: array<u32>)
    requires a.Length == b.Length
    modifies a
    ensures Value(a[..]) == old(Value(a[..])) - old(Value(b[..]))
                            + (if old(Value(a[..])) < old(Value(b[..])) then Pow(BASE, a.Length) else 0)
  {
    ghost var a0, b0 := a[..], b[..];
    assert Subtracted(a0, b0, a0, 0, 0) by { assert a0[..0] == b0[..0] == []; }
    var borrow: u64 := 0;
    for i := 0 to a.Length
      invariant borrow <= 1
      invariant forall k :: i <= k < a.Length ==> b[k] == b0[k]
      invariant Subtracted(a0, b0, a[..], i, borrow as nat)
    {
      ghost var before, borrow0 := a[..], borrow as nat;
      BorrowOut(a[i], b[i], borrow0);
      var cur: u64 := ((a[i] as int - b[i] as int - borrow as int) % BASE64) as u64;
      SubtractStep(a0, b0, before, i, borrow0, (cur as int % BASE) as u32, cur as int / BASE % 2);
      a[i] := (cur as int % BASE) as u32;
      borrow := cur / BASE as u64 % 2;
      assert a[..] == before[i := a[i]];
    }
    SubtractDone(a0, b0, a[..], borrow as nat);
  }

  lemma SubtractDone(a0: seq<u32>, b0: seq<u32>, a: seq<u32>, borrow: nat)
    requires |a0| == |b0| == |a| && borrow <= 1 && Subtracted(a0, b0, a, |a|, borrow)
    ensures Value(a) == Value(a0) - Value(b0) + (if Value(a0) < Value(b0) then Pow(BASE, |a|) else 0)
  {
    assert a[..|a|] == a && a0[..|a|] == a0 && b0[..|a|] == b0;
    ValueBound(a);
    ValueBound(a0);
    ValueBound(b0);
    Wrapped(Value(a), Value(a0) - Value(b0), borrow, Pow(BASE, |a|));
  }

  /** A result inside the window says whether a window was borrowed. */
  lemma Wrapped(v: int, d: int, k: nat, w: int)
    requires v == d + k * w && 0 <= v < w && d < w && k <= 1
    ensures v == d + (if d < 0 then w else 0)
  {
    assert k * w == if k == 0 then 0 else w;
  }

  lemma Carried(v: int, x: int, k: nat, w: int)
    requires v + k * w == x && 0 <= v < w && k <= 1
    ensures v == x - (if x >= w then w else 0)
  {
  }

  /** After i limbs: the low part is doubled, with a carry pending. */
  ghost predicate Shifted(r0: seq<u32>, bit: nat, r: seq<u32>, i: nat, carry: nat)
    requires i <= |r0| == |r|
  {
    && r[i..] == r0[i..]
    && Value(r[..i]) + carry * Pow(BASE, i) == 2 * Value(r0[..i]) + bit
  }

  lemma ShiftStep(r0: seq<u32>, bit: nat, r: seq<u32>, i: nat, carry: nat, z: u32, carry': nat)
    requires i < |r0| == |r| && Shifted(r0, bit, r, i, carry)
    requires z as int + carry' * BASE == 2 * r[i] as int + carry
    ensures Shifted(r0, bit, r[i := z], i + 1, carry')
  {
    var r', p := r[i := z], Pow(BASE, i);
    var x := r0[i] as int;
    assert r[i] == r[i..][0] == r0[i..][0] == r0[i];
    assert r'[i + 1..] == r[i..][1..] && r0[i + 1..] == r0[i..][1..];
    assert r'[..i] == r[..i];
    ValueSnoc(r0, i);
    ValueSnoc(r', i);
    MulDistrib(z as int, carry' * BASE, p);
    MulDistrib(2 * x, carry, p);
    MulAssoc(carry', BASE, p);
    MulAssoc(2, x, p);
  }

  lemma OrShifted(x: nat, carry: nat)
    requires carry <= 1
    ensures Or(2 * x, carry) == 2 * x + carry
  {
    OrZero(x);
  }

  /** r := (r << 1) | bit, dropping the bit that leaves the window. */
  method ShiftInBit(r: array<u32>, bit: nat)
    requires bit <= 1
    modifies r
    ensures Value(r[..]) == 2 * old(Value(r[..])) + bit
                            - (if 2 * old(Value(r[..])) + bit >= Pow(BASE, r.Length) then Pow(BASE, r.Length) else 0)
  {
    ghost var r0 := r[..];
    assert Shifted(r0, bit, r0, 0, bit) by { assert r0[..0] == []; }
    var carry: u32 := if bit != 0 then 1 else 0;
    for i := 0 to r.Length
      invariant carry <= 1
      invariant Shifted(r0, bit, r[..], i, carry as nat)
    {
      ghost var before, carry0 := r[..], carry as nat;
      OrShifted(r[i] as int, carry0);
      var cur: u64 := Or(2 * r[i] as int, carry as int) as u64;
      ShiftStep(r0, bit, before, i, carry0, (cur as int % BASE) as u32, cur as int / BASE);
      r[i] := (cur as int % BASE) as u32;
      carry := (cur as int / BASE) as u32;
      assert r[..] == before[i := r[i]];
    }
    ShiftDone(r0, bit, r[..], carry as nat);
  }

  lemma ShiftDone(r0: seq<u32>, bit: nat, r: seq<u32>, carry: nat)
    requires |r0| == |r| && bit <= 1 && carry <= 1 && Shifted(r0, bit, r, |r|, carry)
    ensures Value(r) == 2 * Value(r0) + bit - (if 2 * Value(r0) + bit >= Pow(BASE, |r|) then Pow(BASE, |r|) else 0)
  {
    assert r[..|r|] == r && r0[..|r|] == r0;
    ValueBound(r);
    ValueBound(r0);
    Carried(Value(r), 2 * Value(r0) + bit, carry, Pow(BASE, |r|));
  }

  /** The 64-bit accumulator of one inner multiplication step never overflows. */
  lemma AccumulatorFits(o: u32, x: u32, y: u32, carry: u32)
    ensures 0 <= o as int + x as int * y as int + carry as int < BASE64
  {
    MulMono(0, x as int, y as int);
    MulMono(x as int, BASE - 1, y as int);
    MulMono(y as int, BASE - 1, BASE - 1);
  }

  /** Inside row i, after j steps: the rows before it, the part of this row done,
      and a carry pending at limb i + j. */
  ghost predicate Accumulated(row: nat, x: nat, b: seq<u32>, out: seq<u32>, i: nat, j: nat, carry: nat)
    requires j <= |b|
  {
    Value(out) + carry * Pow(BASE, i + j) == row + x * Value(b[..j]) * Pow(BASE, i)
  }

  lemma AccumulateStep(row: nat, x: nat, b: seq<u32>, out: seq<u32>, i: nat, j: nat, carry: nat, z: u32, carry': nat)
    requires j < |b| && i + j < |out| && Accumulated(row, x, b, out, i, j, carry)
    requires z as int + carry' * BASE == out[i + j] as int + x * b[j] as int + carry
    ensures Accumulated(row, x, b, out[i + j := z], i, j + 1, carry')
  {
    ValueUpdate(out, i + j, z);
    ValueSnoc(b, j);
    PowAdd(BASE, i, j);
    assert i + (j + 1) == (i + j) + 1;
    MultiplyStep(out[i + j] as int, z as int, carry, carry', x, b[j] as int, Value(b[..j]), Pow(BASE, i), Pow(BASE, j));
  }

  /** The row's final carry lands in a limb that is still zero. */
  lemma RowDone(a: seq<u32>, b: seq<u32>, out: seq<u32>, i: nat, carry: u32)
    requires i < |a| == |b| && i + |b| < |out| && out[i + |b|] == 0
    requires Accumulated(Value(a[..i]) * Value(b), a[i] as int, b, out, i, |b|, carry as int)
    ensures Value(out[i + |b| := carry]) == Value(a[..i + 1]) * Value(b)
  {
    assert b[..|b|] == b;
    ValueUpdate(out, i + |b|, carry);
    ValueSnoc(a, i);
    var va, x, vb, p := Value(a[..i]), a[i] as int, Value(b), Pow(BASE, i);
    MulDistrib(va, x * p, vb);
    MulAssoc(x, p, vb);
    MulAssoc(x, vb, p);
  }

  /** out := a * b, exact in 2 n limbs. */
  method Multiply(a: array<u32>, b: array<u32>, out: array<u32>)
    requires a.Length == b.Length && out.Length == 2 * a.Length
    requires out != a && out != b
    modifies out
    ensures Value(out[..]) == Value(a[..]) * Value(b[..])
  {
    var n := a.Length;
    ClearLimbs(out);
    ValueZero(out[..]);
    ghost var a0, b0 := a[..], b[..];
    assert a0[..0] == [];
    for i := 0 to n
      invariant a[..] == a0 && b[..] == b0
      invariant forall k :: i + n <= k < 2 * n ==> out[k] == 0
      invariant Value(out[..]) == Value(a0[..i]) * Value(b0)
    {
      var carry: u32 := 0;
      ghost var row := Value(a0[..i]) * Value(b0);
      assert Accumulated(row, a[i] as int, b0, out[..], i, 0, 0) by { assert b0[..0] == []; }
      for j := 0 to n
        invariant a[..] == a0 && b[..] == b0
        invariant forall k :: i + n <= k < 2 * n ==> out[k] == 0
        invariant Accumulated(row, a[i] as int, b0, out[..], i, j, carry as int)
      {
        ghost var before, carry0 := out[..], carry as int;
        AccumulatorFits(out[i + j], a[i], b[j], carry);
        var cur: u64 := (out[i + j] as int + a[i] as int * b[j] as int + carry as int) as u64;
        AccumulateStep(row, a[i] as int, b0, before, i, j, carry0, (cur as int % BASE) as u32, cur as int / BASE);
        out[i + j] := (cur as int % BASE) as u32;
        carry := (cur as int / BASE) as u32;
        assert out[..] == before[i + j := out[i + j]];
      }
      ghost var before := out[..];
      RowDone(a0, b0, before, i, carry);
      out[i + n] := carry;
      assert out[..] == before[i + n := carry];
    }
    assert a0[..n] == a0;
  }

  lemma MultiplyStep(o: int, o': int, carry: int, carry': int, x: int, y: int, vb: int, p: int, q: int)
    requires o' + carry' * BASE == o + x * y + carry
    ensures (o' - o) * (p * q) + carry' * (BASE * (p * q)) - carry * (p * q) == x * (vb + y * q) * p - x * vb * p
  {
  }

  /** One step of the reduction: r := (2 r + bit) mod m. The doubled remainder may
      overflow the window; then the bit saved in `top` and the wrap of the
      subtraction cancel. */
  method ReduceBit(r: array<u32>, m: array<u32>, bit: nat)
    requires m.Length == r.Length > 0 && r != m && bit <= 1
    requires Value(r[..]) < EffectiveModulus(m[..])
    modifies r
    ensures Value(r[..]) == old((2 * Value(r[..]) + bit) % EffectiveModulus(m[..]))
  {
    ghost var v, vm, w := Value(r[..]), Value(m[..]), Pow(BASE, r.Length);
    ValueBound(m[..]);
    TopBitDecides(r[..], bit);
    var top := r[r.Length - 1] as int / 0x8000_0000 % 2;
    ShiftInBit(r, bit);
    ghost var v' := Value(r[..]);
    var reduce := top != 0;
    if !reduce {
      var c := Compare(r, m);
      reduce := c >= 0;
    }
    if reduce {
      Subtract(r, m);
    }
    ReduceBitArith(v, bit, vm, w, v', Value(r[..]));
  }

  lemma ReduceBitArith(v: nat, bit: nat, vm: nat, w: nat, v': int, v'': int)
    requires bit <= 1 && vm < w && v < (if vm == 0 then w else vm)
    requires v' == 2 * v + bit - (if 2 * v + bit >= w then w else 0)
    requires v'' == if 2 * v + bit >= w || v' >= vm then v' - vm + (if v' < vm then w else 0) else v'
    ensures v'' == (2 * v + bit) % (if vm == 0 then w else vm)
  {
    var x, m := 2 * v + bit, if vm == 0 then w else vm;
    ModUnique(x, if x >= m then 1 else 0, if x >= m then x - m else x, m);
  }

  /** r := inp mod m, one bit of the input at a time. */
  method Reduce(inp: array<u32>, m: array<u32>, r: array<u32>)
    requires m.Length == r.Length > 0
    requires r != inp && r != m
    modifies r
    ensures Value(r[..]) == Value(inp[..]) % EffectiveModulus(m[..])
  {
    ghost var inp0, m0, modulus := inp[..], m[..], EffectiveModulus(m[..]);
    ClearLimbs(r);
    ValueZero(r[..]);
    ModUnique(0, 0, 0, modulus);
    var i := 32 * inp.Length - 1;
    while i >= 0
      invariant -1 <= i < 32 * inp.Length
      invariant inp[..] == inp0 && m[..] == m0
      invariant Value(r[..]) == High(inp0, i + 1) % modulus
    {
      var bit := inp[i / 32] as int / Pow(2, i % 32) % 2;
      assert bit == Bit(inp0, i);
      ReduceBit(r, m, bit);
      DoubleMod(High(inp0, i + 1), bit, modulus);
      i := i - 1;
    }
    HighIsValue(inp0);
  }

  lemma DoubleMod(h: nat, bit: nat, m: nat)
    requires m > 0
    ensures (2 * (h % m) + bit) % m == (2 * h + bit) % m
  {
    MulAssoc(2, h / m, m);
    ModShift(2 * (h % m) + bit, 2 * (h / m), m);
  }

  /** out := (a * b) mod m; `out` may be one of the inputs. */
  method MulMod(out: array<u32>, a: array<u32>, b: array<u32>, m: array<u32>)
    requires out.Length == a.Length == b.Length == m.Length == LIMBS
    modifies out
    ensures Value(out[..]) == old((Value(a[..]) * Value(b[..])) % EffectiveModulus(m[..]))
  {
    var prod, rem := new u32[2 * LIMBS], new u32[LIMBS];
    Multiply(a, b, prod);
    Reduce(prod, m, rem);
    CopyLimbs(out, rem);
  }

  /** out := base^exp mod m by squaring and multiplying. With a zero exponent the
      result is 1, which is only reduced when the modulus is not 1. */
  method ModExp(out: array<u32>, base: array<u32>, exp: u32, m: array<u32>)
    requires out.Length == base.Length == m.Length == LIMBS
    modifies out
    ensures exp > 0 ==> Value(out[..]) == old(Pow(Value(base[..]), exp as int) % EffectiveModulus(m[..]))
    ensures exp == 0 ==> Value(out[..]) == 1
  {
    var result, b, tmp := new u32[LIMBS], new u32[LIMBS], new u32[LIMBS];
    ghost var base0, m0 := base[..], m[..];
    ghost var x, modulus := Value(base0), EffectiveModulus(m0);
    ClearLimbs(result);
    result[0] := 1;
    SingleLimb(result[..]);
    ghost var one := result[..];
    CopyLimbs(b, base);
    assert result[..] == one && b[..] == base0 && m[..] == m0;
    var e := exp as int;
    while e != 0
      invariant 0 <= e <= exp as int && m[..] == m0
      invariant Remaining(Value(result[..]), Value(b[..]), e, modulus) == Remaining(1, x, exp as int, modulus)
      invariant e == exp as int ==> Value(result[..]) == 1
      invariant e == 0 && exp > 0 ==> Value(result[..]) < modulus
      decreases e
    {
      ghost var v, w, e0 := Value(result[..]), Value(b[..]), e;
      if e % 2 == 1 {
        MulMod(result, result, b, m);
      }
      e := e / 2;
      ghost var v' := Value(result[..]);
      SquareMultiplyStep(v, w, e0, v', modulus);
      if e != 0 {
        MulMod(tmp, b, b, m);
        ghost var r0 := result[..];
        CopyLimbs(b, tmp);
        assert result[..] == r0;
      }
    }
    RemainingDone(Value(result[..]), Value(b[..]), x, exp as int, modulus);
    CopyLimbs(out, result);
  }

  /** What is left to compute: v * b^e modulo m. */
  function Remaining(v: nat, b: nat, e: nat, m: nat): nat
    requires m > 0
  {
    (v * Pow(b, e)) % m
  }

  lemma RemainingDone(v: nat, b: nat, x: nat, e: nat, m: nat)
    requires m > 0 && Remaining(v, b, 0, m) == Remaining(1, x, e, m)
    ensures v < m ==> v == Pow(x, e) % m
  {
    assert v * Pow(b, 0) == v;
    if v < m {
      ModUnique(v, 0, v, m);
    }
  }

  /** One iteration leaves what remains unchanged: multiply on an odd exponent,
      then square, which the code skips when no exponent bit is left. */
  lemma SquareMultiplyStep(v: nat, b: nat, e: nat, v': nat, m: nat)
    requires m > 0 && e > 0
    requires v' == if e % 2 == 1 then (v * b) % m else v
    ensures Remaining(v', (b * b) % m, e / 2, m) == Remaining(v, b, e, m)
    ensures e / 2 == 0 ==> Remaining(v', b, 0, m) == Remaining(v, b, e, m)
  {
    var q := Pow(b * b, e / 2);
    PowSquare(b, e / 2);
    ModMulLeft(v * b, q, m);
    if e % 2 == 1 {
      assert Pow(b, e) == b * q by { assert e - 1 == 2 * (e / 2); }
      MulAssoc(v, b, q);
    } else {
      assert e == 2 * (e / 2);
    }
    assert (v' * q) % m == Remaining(v, b, e, m);
    SquareReduced(v', b, e / 2, m);
  }

  lemma SquareReduced(v: nat, b: nat, e: nat, m: nat)
    requires m > 0
    ensures Remaining(v, (b * b) % m, e, m) == (v * Pow(b * b, e)) % m
  {
    var s := b * b;
    ModUnique(s % m, 0, s % m, m);
    PowCongruent(s % m, s, e, m);
    ModMulCongruent(v, v, Pow(s % m, e), Pow(s, e), m);
  }
}
