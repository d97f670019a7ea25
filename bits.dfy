/** Go's unsigned-integer bit operators on natural numbers, with the facts about
    contiguous masks and disjoint fields that the colour packing relies on. */
module Bits {

  type u8 = x: int | 0 <= x < 0x100
  type u16 = x: int | 0 <= x < 0x1_0000
  type u32 = x: int | 0 <= x < 0x1_0000_0000

  function Pow2(k: nat): (p: nat)
    ensures p >= 1
  {
    if k == 0 then 1 else 2 * Pow2(k - 1)
  }

  /** Bitwise `&`, one bit at a time from the least significant. The result
      keeps only bits set in both operands, so it exceeds neither. */
  function And(x: nat, y: nat): (r: nat)
    ensures r <= x && r <= y
  {
    if x == 0 || y == 0 then 0
    else 2 * And(x / 2, y / 2) + (if x % 2 == 1 && y % 2 == 1 then 1 else 0)
  }

  /** Bitwise `|`, one bit at a time from the least significant. The result
      has every bit of either operand and no carries, so it lies between the
      larger operand and their sum. */
  function Or(x: nat, y: nat): (r: nat)
    ensures x <= r && y <= r && r <= x + y
  {
    if x == 0 then y
    else if y == 0 then x
    else 2 * Or(x / 2, y / 2) + (if x % 2 == 1 || y % 2 == 1 then 1 else 0)
  }

  /** `x << k`, where the caller's result type rules out overflow: the low k
      bits are zero and shifting back right recovers `x`. */
  function Shl(x: nat, k: nat): (r: nat)
    ensures r % Pow2(k) == 0 && r / Pow2(k) == x
  {
    ModUnique(x * Pow2(k), Pow2(k), x, 0);
    x * Pow2(k)
  }

  /** `x >> k`. */
  function Shr(x: nat, k: nat): nat
  {
    var p := Pow2(k);
    DivNonNegative(x, p);
    x / p
  }

  /** The mask of `w` one bits starting at bit `lo`. */
  function Mask(lo: nat, w: nat): nat
  {
    (Pow2(w) - 1) * Pow2(lo)
  }

  // ---------------------------------------------------------------------------

  /** `x & Mask(lo, w)` keeps exactly bits lo .. lo+w-1 of `x`. */
  lemma {:induction false} AndMask(x: nat, lo: nat, w: nat)
    ensures And(x, Mask(lo, w)) == x / Pow2(lo) % Pow2(w) * Pow2(lo)
  {
    if lo == 0 {
      AndLowMask(x, w);
    } else if x == 0 {
      DivUnique(x, Pow2(lo), 0, 0);
    } else {
      AndMask(x / 2, lo - 1, w);
      AndMaskStep(x, lo, w);
    }
  }

  /** The inductive step of AndMask: one bit lower in both `x` and the mask. */
  lemma AndMaskStep(x: nat, lo: nat, w: nat)
    requires lo > 0 && x != 0
    requires And(x / 2, Mask(lo - 1, w)) == x / 2 / Pow2(lo - 1) % Pow2(w) * Pow2(lo - 1)
    ensures And(x, Mask(lo, w)) == x / Pow2(lo) % Pow2(w) * Pow2(lo)
  {
    var p := Pow2(lo - 1);
    var m := Mask(lo - 1, w);
    assert Pow2(lo) == 2 * p;
    MaskDouble(lo, w);
    if m == 0 {
      ZeroMask(lo - 1, w);
    } else {
      AndEven(x, m);
      HalfStep(x, p, Pow2(w), And(x / 2, m));
    }
  }

  lemma MaskDouble(lo: nat, w: nat)
    requires lo > 0
    ensures Mask(lo, w) == 2 * Mask(lo - 1, w)
  {
    var q, p := Pow2(w) - 1, Pow2(lo - 1);
    assert Pow2(lo) == 2 * p;
    assert q * (2 * p) == 2 * (q * p);
  }

  /** The arithmetic of the step: doubling bits lo-1.. of x/2 gives bits lo.. of x. */
  lemma HalfStep(x: nat, p: nat, n: nat, a: nat)
    requires p > 0 && n > 0 && a == x / 2 / p % n * p
    ensures 2 * a == x / (2 * p) % n * (2 * p)
  {
    DivDiv(x, p);
    var f := x / (2 * p) % n;
    assert a == f * p;
    assert 2 * (f * p) == f * (2 * p);
  }

  /** Anding with an even mask shifts the question down one bit. */
  lemma AndEven(x: nat, m: nat)
    requires x != 0 && m != 0
    ensures And(x, 2 * m) == 2 * And(x / 2, m)
  {
    assert (2 * m) / 2 == m && (2 * m) % 2 == 0;
  }

  lemma ZeroMask(lo: nat, w: nat)
    requires Mask(lo, w) == 0
    ensures Pow2(w) == 1
  {
    if Pow2(w) != 1 {
      MulAtLeast(Pow2(lo), Pow2(w) - 1);
    }
  }

  lemma {:induction false} AndLowMask(x: nat, w: nat)
    ensures And(x, Mask(0, w)) == x % Pow2(w)
  {
    if w > 0 && x != 0 {
      var m := Mask(0, w - 1);
      assert Mask(0, w) == 2 * m + 1;
      assert (2 * m + 1) / 2 == m && (2 * m + 1) % 2 == 1;
      assert And(x, 2 * m + 1) == 2 * And(x / 2, m) + x % 2;
      AndLowMask(x / 2, w - 1);
      ModDouble(x, Pow2(w - 1));
    } else if w == 0 {
      assert Mask(0, 0) == 0;
      ModUnique(x, 1, x, 0);
    } else {
      ModUnique(0, Pow2(w), 0, 0);
    }
  }

  /** A value that is a multiple of 2^k or-ed with one below 2^k is their sum. */
  lemma {:induction false} OrDisjoint(x: nat, y: nat, k: nat)
    requires x % Pow2(k) == 0 && y < Pow2(k)
    ensures Or(x, y) == x + y
  {
    if k > 0 && x != 0 && y != 0 {
      var p := Pow2(k - 1);
      assert x % 2 == 0 && (x / 2) % p == 0 by { HalfMultiple(x, p); }
      assert y / 2 < p;
      OrDisjoint(x / 2, y / 2, k - 1);
    }
  }

  /** The same with the low operand first. */
  lemma OrDisjointLow(x: nat, y: nat, k: nat)
    requires x < Pow2(k) && y % Pow2(k) == 0
    ensures Or(x, y) == x + y
  {
    OrCommutes(x, y);
    OrDisjoint(y, x, k);
  }

  lemma {:induction false} OrCommutes(x: nat, y: nat)
    ensures Or(x, y) == Or(y, x)
  {
    if x != 0 && y != 0 {
      OrCommutes(x / 2, y / 2);
    }
  }

  // ---------------------------------------------------------------------------
  // Arithmetic over powers of two

  lemma DivDiv(x: nat, p: nat)
    requires p > 0
    ensures x / 2 / p == x / (2 * p)
  {
    var q, r := x / (2 * p), x % (2 * p);
    assert x == (2 * p) * q + r;
    assert x / 2 == p * q + r / 2;
    DivUnique(x / 2, p, q, r / 2);
  }

  lemma ModDouble(x: nat, p: nat)
    requires p > 0
    ensures x % (2 * p) == 2 * (x / 2 % p) + x % 2
  {
    var q, r := x / 2 / p, x / 2 % p;
    assert x / 2 == p * q + r;
    assert x == (2 * p) * q + (2 * r + x % 2);
    ModUnique(x, 2 * p, q, 2 * r + x % 2);
  }

  lemma HalfMultiple(x: nat, p: nat)
    requires p > 0 && x % (2 * p) == 0
    ensures x % 2 == 0 && x / 2 % p == 0
  {
    var q := x / (2 * p);
    assert x == 2 * (p * q);
    assert x / 2 == p * q;
    ModUnique(x / 2, p, q, 0);
  }

  /** Bits a.. of x, modulo b, are the bits below a*b shifted down by a. */
  lemma DivThenMod(x: nat, a: nat, b: nat)
    requires a > 0 && b > 0
    ensures x / a % b == x % (a * b) / a
  {
    var q, s := x / (a * b), x % (a * b);
    assert x == (a * b) * q + s;
    assert s == a * (s / a) + s % a;
    assert x == a * (b * q + s / a) + s % a;
    DivUnique(x, a, b * q + s / a, s % a);
    ModUnique(b * q + s / a, b, q, s / a);
  }

  lemma DivNonNegative(x: nat, d: nat)
    requires d > 0
    ensures x / d >= 0
  {}

  lemma MulMono(a: nat, b: nat, c: nat)
    requires b <= c
    ensures a * b <= a * c
  {}

  lemma DivUnique(x: int, d: int, q: int, r: int)
    requires d > 0 && 0 <= r < d && x == d * q + r
    ensures x / d == q
  {
    ModUnique(x, d, q, r);
  }

  lemma ModUnique(x: int, d: int, q: int, r: int)
    requires d > 0 && 0 <= r < d && x == d * q + r
    ensures x / d == q && x % d == r
  {
    var q', r' := x / d, x % d;
    assert d * (q' - q) == r - r';
    if q' > q {
      MulAtLeast(d, q' - q);
    } else if q' < q {
      MulAtLeast(d, q - q');
    }
  }

  lemma MulAtLeast(d: int, k: int)
    requires d > 0 && k >= 1
    ensures d * k >= d
  {
    assert d * k == d * (k - 1) + d;
  }
}
