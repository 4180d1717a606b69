/** Integer facts shared by the big-integer, RSA and hash models: machine word
    types, powers, and the few laws of `%` that the proofs call by name. */
module Arith {
  const BASE: nat := 0x1_0000_0000
  const BASE64: nat := 0x1_0000_0000_0000_0000

  newtype u8 = x: int | 0 <= x < 0x100
  newtype u32 = x: int | 0 <= x < 0x1_0000_0000
  newtype u64 = x: int | 0 <= x < 0x1_0000_0000_0000_0000
  type int32 = x: int | -0x8000_0000 <= x < 0x8000_0000

  function Pow(b: nat, e: nat): (r: nat)
    ensures b > 0 ==> r > 0
    decreases e
  {
    if e == 0 then 1 else b * Pow(b, e - 1)
  }

  lemma MulAssoc(x: int, y: int, z: int)
    ensures (x * y) * z == x * (y * z)
  {
  }

  lemma MulDistrib(x: int, y: int, z: int)
    ensures (x + y) * z == x * z + y * z
    ensures z * (x + y) == z * x + z * y
    ensures (x - y) * z == x * z - y * z
  {
  }

  lemma MulMono(x: int, y: int, z: int)
    requires x <= y && 0 <= z
    ensures x * z <= y * z
  {
  }

  lemma {:induction false} PowAdd(b: nat, d: nat, e: nat)
    ensures Pow(b, d + e) == Pow(b, d) * Pow(b, e)
  {
    if d > 0 {
      PowAdd(b, d - 1, e);
      var p, q, r := Pow(b, d - 1), Pow(b, e), Pow(b, d + e - 1);
      assert Pow(b, d + e) == b * r && Pow(b, d) == b * p && r == p * q;
      MulAssoc(b, p, q);
    }
  }

  /** Squaring the base halves the exponent. */
  lemma {:induction false} PowSquare(b: nat, e: nat)
    ensures Pow(b, 2 * e) == Pow(b * b, e)
  {
    if e > 0 {
      PowSquare(b, e - 1);
      assert 2 * e - 2 == 2 * (e - 1);
      assert Pow(b, 2 * e) == b * (b * Pow(b, 2 * (e - 1)));
      assert b * (b * Pow(b, 2 * (e - 1))) == (b * b) * Pow(b * b, e - 1);
    }
  }

  /** Division with remainder is unique. */
  lemma ModUnique(x: int, q: int, r: int, m: int)
    requires 0 <= r < m
    requires x == q * m + r
    ensures x % m == r && x / m == q
  {
    var q', r' := x / m, x % m;
    assert x == q' * m + r';
    if q' > q {
      MulMono(q + 1, q', m);
      MulDistrib(q, 1, m);
    } else if q' < q {
      MulMono(q' + 1, q, m);
      MulDistrib(q', 1, m);
    }
  }

  lemma ModShift(x: int, k: int, m: int)
    requires m > 0
    ensures (x + k * m) % m == x % m
  {
    assert x + k * m == (x / m + k) * m + x % m;
    ModUnique(x + k * m, x / m + k, x % m, m);
  }

  lemma ModMulLeft(x: int, y: int, m: int)
    requires m > 0
    ensures ((x % m) * y) % m == (x * y) % m
  {
    var q := x / m;
    assert x * y == (q * m + x % m) * y == (x % m) * y + (q * y) * m;
    ModShift((x % m) * y, q * y, m);
  }

  lemma ModMul(x: int, y: int, m: int)
    requires m > 0
    ensures ((x % m) * (y % m)) % m == (x * y) % m
  {
    ModMulLeft(x, y % m, m);
    assert x * (y % m) == (y % m) * x && x * y == y * x;
    ModMulLeft(y, x, m);
  }

  /** Congruent factors give congruent products. */
  lemma ModMulCongruent(x: int, x': int, y: int, y': int, m: int)
    requires m > 0 && x % m == x' % m && y % m == y' % m
    ensures (x * y) % m == (x' * y') % m
  {
    ModMul(x, y, m);
    ModMul(x', y', m);
  }

  lemma {:induction false} PowCongruent(b: nat, b': nat, e: nat, m: nat)
    requires m > 0 && b % m == b' % m
    ensures Pow(b, e) % m == Pow(b', e) % m
  {
    if e > 0 {
      PowCongruent(b, b', e - 1, m);
      ModMulCongruent(b, b', Pow(b, e - 1), Pow(b', e - 1), m);
    }
  }

  lemma DivDiv(x: nat, p: nat, q: nat)
    requires p > 0 && q > 0
    ensures p * q > 0
    ensures (x / p) / q == x / (p * q)
  {
    MulMono(1, p, q);
    var a, r := x / p, x % p;
    var c, s := a / q, a % q;
    MulMono(s, q - 1, p);
    MulDistrib(q, -1, p);
    calc {
      x;
      a * p + r;
      { assert a == c * q + s; }
      (c * q + s) * p + r;
      { MulDistrib(c * q, s, p); MulAssoc(c, q, p); }
      c * (q * p) + (s * p + r);
    }
    MulMono(0, s, p);
    ModUnique(x, c, s * p + r, q * p);
  }

  /** Bitwise or of two numbers, bit by bit. */
  function Or(x: nat, y: nat): nat
    decreases x + y
  {
    if x == 0 && y == 0 then 0
    else (if x % 2 == 1 || y % 2 == 1 then 1 else 0) + 2 * Or(x / 2, y / 2)
  }

  lemma MulDouble(x: int, p: int)
    ensures x * (2 * p) == 2 * (x * p)
  {
  }

  lemma {:induction false} OrZero(x: nat)
    ensures Or(x, 0) == x
    ensures Or(0, x) == x
    decreases x
  {
    if x > 0 {
      OrZero(x / 2);
    }
  }

  /** Or-ing a number below 2^k into one whose low k bits are clear is addition. */
  lemma {:induction false} OrLow(h: nat, y: nat, k: nat)
    requires y < Pow(2, k)
    ensures 0 <= h * Pow(2, k)
    ensures Or(h * Pow(2, k), y) == h * Pow(2, k) + y
  {
    if k == 0 {
      OrZero(h);
    } else {
      OrLow(h, y / 2, k - 1);
      var x' := h * Pow(2, k - 1);
      MulDouble(h, Pow(2, k - 1));
      assert h * Pow(2, k) == 2 * x';
    }
  }

  /** Or-ing a w-bit field `y` into the empty field above s low bits is addition. */
  lemma {:induction false} OrField(h: nat, l: nat, y: nat, w: nat, s: nat)
    requires l < Pow(2, s) && y < Pow(2, w)
    ensures 0 <= h * Pow(2, w + s) && 0 <= y * Pow(2, s)
    ensures Or(h * Pow(2, w + s) + l, y * Pow(2, s)) == h * Pow(2, w + s) + l + y * Pow(2, s)
    decreases s
  {
    if s == 0 {
      OrLow(h, y, w);
    } else {
      var hi, lo := h * Pow(2, w + s - 1), y * Pow(2, s - 1);
      OrField(h, l / 2, y, w, s - 1);
      MulDouble(h, Pow(2, w + s - 1));
      MulDouble(y, Pow(2, s - 1));
      OrEvenStep(h * Pow(2, w + s), l, y * Pow(2, s), hi, lo);
    }
  }

  lemma OrEvenStep(x: int, l: nat, z: int, hi: nat, lo: nat)
    requires x == 2 * hi && z == 2 * lo
    requires Or(hi + l / 2, lo) == hi + l / 2 + lo
    ensures Or(x + l, z) == x + l + z
  {
  }

  lemma {:induction false} OrBound(x: nat, y: nat, k: nat)
    requires x < Pow(2, k) && y < Pow(2, k)
    ensures Or(x, y) < Pow(2, k)
  {
    if k > 0 && (x != 0 || y != 0) {
      OrBound(x / 2, y / 2, k - 1);
    }
  }

  lemma Pow32()
    ensures Pow(2, 32) == BASE
  {
    assert Pow(2, 8) == 0x100;
    PowAdd(2, 8, 8);
    PowAdd(2, 16, 16);
  }

  // The 32-bit operations of C.

  function Or32(x: u32, y: u32): (r: u32)
    ensures r as int == Or(x as int, y as int)
  {
    Pow32();
    OrBound(x as int, y as int, 32);
    Or(x as int, y as int) as u32
  }

  function ShiftLeft32(x: u32, s: nat): u32 {
    (x as int * Pow(2, s) % BASE) as u32
  }

  function ByteAt(x: u32, s: nat): u8 {
    (x as int / Pow(2, s) % 256) as u8
  }
}
