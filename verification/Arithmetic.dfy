/** Powers of two, quotients and 32-bit wrap-around. */
module Arithmetic {
  function Pow2(n: nat): (p: nat)
    ensures p >= 1
  {
    if n == 0 then 1 else 2 * Pow2(n - 1)
  }

  lemma {:induction false} PowAdd(m: nat, n: nat)
    ensures Pow2(m + n) == Pow2(m) * Pow2(n)
  {
    if m == 0 {
      assert Pow2(0) == 1;
    } else {
      PowAdd(m - 1, n);
      Regroup(Pow2(m - 1), Pow2(n));
    }
  }

  lemma Regroup(x: int, y: int)
    ensures 2 * (x * y) == (2 * x) * y
  {
  }

  lemma {:induction false} PowAtMost(m: nat, n: nat)
    requires m <= n
    ensures Pow2(m) <= Pow2(n)
  {
    if m < n { PowAtMost(m, n - 1); }
  }

  lemma PowValues()
    ensures Pow2(8) == 0x100 && Pow2(16) == 0x1_0000
    ensures Pow2(30) == 0x4000_0000 && Pow2(31) == 0x8000_0000 && Pow2(32) == 0x1_0000_0000
  {
    assert Pow2(2) == 4 && Pow2(4) == 16;
    PowAdd(4, 4);
    PowAdd(8, 8);
    PowAdd(16, 8);
    PowAdd(24, 4);
    PowAdd(28, 2);
  }

  /** The signed 32-bit number to which JavaScript's bitwise operators reduce x. */
  function ToInt32(x: int): int {
    var m := x % 0x1_0000_0000;
    if m < 0x8000_0000 then m else m - 0x1_0000_0000
  }

  /** Dividing by a and then by p is dividing by their product. */
  lemma DivDiv(v: nat, a: nat, p: nat)
    requires a > 0 && p > 0
    ensures a * p > 0 && (v / a) / p == v / (a * p)
  {
    var q, r, low := (v / a) / p, (v / a) % p, v % a;
    assert v == (v / a) * a + low && v / a == q * p + r;
    Expand(q, p, r, a);
    RestFits(r, p, low, a);
    DivUnique(v, a * p, q, r * a + low);
  }

  lemma Expand(q: nat, p: nat, r: nat, a: nat)
    ensures (q * p + r) * a == q * (a * p) + r * a
  {
    assert (q * p) * a == q * (a * p);
  }

  lemma RestFits(r: nat, p: nat, low: nat, a: nat)
    requires r < p && low < a
    ensures a * p > 0 && r * a + low < a * p
  {
    AtLeastOnce(p - r, a);
    assert (p - r) * a == a * p - r * a;
  }

  lemma ModTwice(b: nat, p: nat)
    requires p > 0
    ensures b % (2 * p) == 2 * ((b / 2) % p) + b % 2
  {
    var q, r := (b / 2) / p, (b / 2) % p;
    assert b / 2 == q * p + r;
    assert b == q * (2 * p) + (2 * r + b % 2);
    DivUnique(b, 2 * p, q, 2 * r + b % 2);
  }

  lemma DivUnique(b: int, d: int, q: int, r: int)
    requires d > 0 && 0 <= r < d && b == q * d + r
    ensures b / d == q && b % d == r
  {
    SameQuotient(d, q, r, b / d, b % d);
  }

  lemma SameQuotient(d: int, q: int, r: int, q': int, r': int)
    requires 0 <= r < d && 0 <= r' < d && q * d + r == q' * d + r'
    ensures q == q' && r == r'
  {
    assert (q - q') * d == q * d - q' * d && (q' - q) * d == q' * d - q * d;
    if q > q' {
      AtLeastOnce(q - q', d);
    } else if q < q' {
      AtLeastOnce(q' - q, d);
    }
  }

  lemma AtLeastOnce(k: int, d: int)
    requires k >= 1 && d >= 0
    ensures k * d >= d
  {
    assert k * d == (k - 1) * d + d;
  }
}
