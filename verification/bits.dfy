/** The powers of two and the bitwise `and` behind the masks of an address range. */
module Bits {
  import opened Js

  /** The bits set in both. */
  function BitAnd(a: nat, b: nat): nat {
    if a == 0 || b == 0 then 0
    else 2 * BitAnd(a / 2, b / 2) + (if a % 2 == 1 && b % 2 == 1 then 1 else 0)
  }

  lemma Doubled(p: nat, q: nat)
    ensures 2 * (p * q) == (2 * p) * q
  {
  }

  lemma {:induction false} PowSplit(a: nat, b: nat)
    ensures Pow2(a + b) == Pow2(a) * Pow2(b)
  {
    if a == 0 {
    } else {
      PowSplit(a - 1, b);
      Doubled(Pow2(a - 1), Pow2(b));
    }
  }

  lemma {:induction false} PowAtMost(k: nat, n: nat)
    requires k <= n
    ensures Pow2(k) <= Pow2(n)
    decreases n - k
  {
    if k < n { PowAtMost(k + 1, n); }
  }

  lemma PowersUsed()
    ensures Pow2(10) == 1024 && Pow2(22) == 0x40_0000 && Pow2(32) == TWO_32
  {
    assert Pow2(5) == 2 * Pow2(4) == 4 * Pow2(3) == 8 * Pow2(2) == 32;
    PowSplit(5, 5);
    PowSplit(10, 10);
    PowSplit(20, 2);
    PowSplit(22, 10);
  }

  /** A mask of ones keeps every bit below it. */
  lemma {:induction false} AndOnes(a: nat, m: nat)
    requires a < Pow2(m)
    ensures BitAnd(a, Pow2(m) - 1) == a
  {
    if m > 0 && a > 0 {
      var p := Pow2(m - 1);
      assert Pow2(m) == 2 * p && (2 * p - 1) / 2 == p - 1 && (2 * p - 1) % 2 == 1;
      AndOnes(a / 2, m - 1);
    }
  }

  lemma HalvesModulo(a: nat, p: nat)
    requires p >= 1
    ensures a % (2 * p) == 2 * (a / 2 % p) + a % 2
  {
    var h, q, r := a / 2, a / 2 / p, a / 2 % p;
    assert h == p * q + r;
    assert (2 * p) * q == 2 * (p * q);
    ModuloIs(a, 2 * p, q, 2 * r + a % 2);
  }

  lemma MulOrder(d: nat, x: int, y: int)
    requires x <= y
    ensures d * x <= d * y
  {
  }

  lemma ModuloIs(a: nat, d: nat, q: nat, r: nat)
    requires d >= 1 && r < d && a == d * q + r
    ensures a % d == r && a / d == q
  {
    var quotient, rest := a / d, a % d;
    assert a == d * quotient + rest;
    if quotient < q {
      MulOrder(d, quotient + 1, q);
    } else if quotient > q {
      MulOrder(d, q + 1, quotient);
    }
  }

  /** A mask of `m - k` ones above `k` zeros clears the low `k` bits. */
  lemma {:induction false} AndHigh(a: nat, mask: nat, m: nat, k: nat)
    requires k <= m && a < Pow2(m) && mask == Pow2(m) - Pow2(k)
    ensures BitAnd(a, mask) == a - a % Pow2(k)
    decreases m
  {
    if k == 0 {
      AndOnes(a, m);
    } else {
      var high, low, half := Pow2(m - 1), Pow2(k - 1), mask / 2;
      assert mask == 2 * (high - low) && half == high - low && mask % 2 == 0;
      HalvesModulo(a, low);
      AndHigh(a / 2, half, m - 1, k - 1);
      Halved(a, mask);
    }
  }

  lemma Halved(a: nat, mask: nat)
    requires mask % 2 == 0
    ensures BitAnd(a, mask) == 2 * BitAnd(a / 2, mask / 2)
  {
  }

  /** The block of `size` numbers that holds `base`, in a space of `size * count`. */
  lemma BlockInSpace(base: nat, size: nat, count: nat)
    requires size >= 1 && base < size * count
    ensures (base - base % size) % size == 0
    ensures base - base % size + size <= size * count
  {
    var q, r := base / size, base % size;
    assert base == size * q + r;
    if q >= count { MulOrder(size, count, q); }
    MulOrder(size, q + 1, count);
    ModuloIs(size * q, size, q, 0);
  }
}
