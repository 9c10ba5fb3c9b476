/** Powers of two and C's bitwise "and" on non-negative numbers. */
module Bits {

  function Pow2(n: nat): (r: nat)
    ensures r >= 1
  {
    if n == 0 then 1 else 2 * Pow2(n - 1)
  }

  function BitAnd(a: nat, b: nat): nat {
    if a == 0 || b == 0 then 0
    else 2 * BitAnd(a / 2, b / 2) + (if a % 2 == 1 && b % 2 == 1 then 1 else 0)
  }

  lemma ProductAtLeast(d: int, p: int)
    requires d >= 1 && p >= 0
    ensures d * p >= p
  {
    assert d * p == (d - 1) * p + p;
    assert (d - 1) * p >= 0;
  }

  lemma ModUnique(x: int, p: nat, q: int, r: int)
    requires p > 0 && x == q * p + r && 0 <= r < p
    ensures x % p == r && x / p == q
  {
    var q', r' := x / p, x % p;
    assert q * p + r == q' * p + r';
    if q > q' {
      ProductAtLeast(q - q', p);
    } else if q < q' {
      ProductAtLeast(q' - q, p);
    }
  }

  lemma ModDouble(x: nat, p: nat)
    requires p > 0
    ensures x % (2 * p) == 2 * (x / 2 % p) + x % 2
  {
    var q, r := x / 2 / p, x / 2 % p;
    assert x / 2 == q * p + r;
    assert x == q * (2 * p) + (2 * r + x % 2) by {
      assert x == 2 * (x / 2) + x % 2;
      assert 2 * (q * p) == q * (2 * p);
    }
    ModUnique(x, 2 * p, q, 2 * r + x % 2);
  }

  /** The two lowest bits. */
  lemma LowBits(a: nat)
    ensures BitAnd(a, 1) == 1 <==> a % 2 == 1
    ensures BitAnd(a, 2) == 2 <==> a / 2 % 2 == 1
  {
    assert BitAnd(a / 2, 1) == a / 2 % 2 + 2 * BitAnd(a / 2 / 2, 0);
    assert BitAnd(a, 2) == 2 * BitAnd(a / 2, 1);
  }

  lemma AndOdd(x: nat, m: nat)
    ensures BitAnd(x, 2 * m + 1) == 2 * BitAnd(x / 2, m) + x % 2
  {
    assert (2 * m + 1) / 2 == m && (2 * m + 1) % 2 == 1;
  }

  /** Masking with 2^k - 1 is the remainder modulo 2^k. */
  lemma {:induction false} AndLowMask(x: nat, k: nat)
    ensures BitAnd(x, Pow2(k) - 1) == x % Pow2(k)
  {
    if k > 0 {
      var p := Pow2(k - 1);
      AndLowMask(x / 2, k - 1);
      AndOdd(x, p - 1);
      ModDouble(x, p);
    }
  }

  lemma {:induction false} Pow2Monotone(m: nat, n: nat)
    requires m <= n
    ensures Pow2(m) <= Pow2(n)
    decreases n
  {
    if m < n { Pow2Monotone(m, n - 1); }
  }

  lemma {:induction false} Pow2Adds(m: nat, n: nat)
    ensures Pow2(m + n) == Pow2(m) * Pow2(n)
    decreases m
  {
    if m > 0 {
      Pow2Adds(m - 1, n);
      assert 2 * (Pow2(m - 1) * Pow2(n)) == (2 * Pow2(m - 1)) * Pow2(n);
    }
  }

  lemma AndEven(x: nat, m: nat)
    ensures BitAnd(x, 2 * m) == 2 * BitAnd(x / 2, m)
  {
    assert (2 * m) / 2 == m && (2 * m) % 2 == 0;
  }

  /** Masking an n-bit number with the bits from s upwards clears the s lowest bits. */
  lemma {:induction false} AndHighMask(x: nat, n: nat, s: nat)
    requires x < Pow2(n) && s <= n
    ensures Pow2(n) >= Pow2(s)
    ensures BitAnd(x, Pow2(n) - Pow2(s)) == x - x % Pow2(s)
  {
    Pow2Monotone(s, n);
    if s == 0 {
      AndLowMask(x, n);
      ModUnique(x, Pow2(n), 0, x);
    } else {
      var p, q := Pow2(n - 1), Pow2(s - 1);
      AndHighMask(x / 2, n - 1, s - 1);
      ClearLow(x, p - q, x / 2 % q);
      ModDouble(x, q);
      assert Pow2(n) - Pow2(s) == 2 * (p - q);
    }
  }

  lemma ClearLow(x: nat, mask: nat, low: nat)
    requires BitAnd(x / 2, mask) == x / 2 - low
    ensures BitAnd(x, 2 * mask) == x - (2 * low + x % 2)
  {
    AndEven(x, mask);
  }

  lemma HighMaskEqual(x: nat, y: nat, n: nat, s: nat)
    requires x < Pow2(n) && y < Pow2(n) && s <= n
    ensures Pow2(n) >= Pow2(s)
    ensures BitAnd(x, Pow2(n) - Pow2(s)) == BitAnd(y, Pow2(n) - Pow2(s)) <==> x / Pow2(s) == y / Pow2(s)
  {
    AndHighMask(x, n, s);
    AndHighMask(y, n, s);
    SameQuotient(x, y, Pow2(s));
  }

  lemma Pow2Values()
    ensures Pow2(8) == 256 && Pow2(16) == 65536 && Pow2(32) == 0x1_0000_0000
  {
    assert Pow2(4) == 16;
    Pow2Adds(4, 4);
    Pow2Adds(8, 8);
    Pow2Adds(16, 16);
  }

  // ---------- division ----------

  lemma MulMonotone(a: nat, b: nat, p: nat)
    requires a <= b
    ensures a * p <= b * p
  {}

  lemma DivIdentity(x: nat, p: nat)
    requires p > 0
    ensures x == (x / p) * p + x % p && 0 <= x % p < p
  {}

  lemma DivSplit(a: nat, s: nat, p: nat, x: nat)
    requires p > 0
    ensures (a * (s * p) + x) / p == a * s + x / p
  {
    var q, r := x / p, x % p;
    DivIdentity(x, p);
    assert a * (s * p) == (a * s) * p;
    assert (a * s + q) * p == (a * s) * p + q * p;
    ModUnique(a * (s * p) + x, p, a * s + q, r);
  }

  lemma DivDiv(v: nat, p: nat, q: nat)
    requires p > 0 && q > 0
    ensures q * p > 0 && v / (q * p) == v / p / q
  {
    var u, r := v / p, v % p;
    var a, b := u / q, u % q;
    DivIdentity(v, p);
    DivIdentity(u, q);
    MulMonotone(b + 1, q, p);
    assert (b + 1) * p == b * p + p;
    assert (a * q + b) * p == a * (q * p) + b * p by {
      assert (a * q + b) * p == (a * q) * p + b * p;
      assert (a * q) * p == a * (q * p);
    }
    ModUnique(v, q * p, a, b * p + r);
  }

  lemma DivBound(x: nat, s: nat, p: nat)
    requires p > 0 && x < s * p
    ensures 0 <= x / p < s
  {
    DivIdentity(x, p);
    if x / p >= s {
      MulMonotone(s, x / p, p);
    }
  }

  /** A part below k does not matter to the bits above it. */
  lemma DivHigh(x: nat, p: nat, k: nat, rest: nat)
    requires p > 0 && rest < k
    ensures p * k > 0 && (x * k + rest) / (p * k) == x / p
  {
    DivDiv(x * k + rest, k, p);
    ModUnique(x * k + rest, k, x, rest);
  }

  lemma SameQuotient(x: nat, y: nat, p: nat)
    requires p > 0
    ensures x - x % p == y - y % p <==> x / p == y / p
  {
    DivIdentity(x, p);
    DivIdentity(y, p);
    if x - x % p == y - y % p {
      ModUnique(x - x % p, p, x / p, 0);
      ModUnique(y - y % p, p, y / p, 0);
    }
  }

  /** Numbers written with a low part below q are equal if both parts are. */
  lemma PairsEqual(v: int, a: int, x: int, w: int, b: int, y: int, q: nat)
    requires v == a * q + x && 0 <= x < q
    requires w == b * q + y && 0 <= y < q
    ensures v == w <==> a == b && x == y
  {
    ModUnique(v, q, a, x);
    ModUnique(w, q, b, y);
  }
}
