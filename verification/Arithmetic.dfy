/**
  Powers of two and the few facts about division that the linear solver does
  not see by itself.
  */
module Arithmetic {

  function Pow2(n: nat): (p: nat)
    ensures p >= 1
  {
    if n == 0 then 1 else 2 * Pow2(n - 1)
  }

  lemma {:induction false} Pow2Add(a: nat, b: nat)
    ensures Pow2(a + b) == Pow2(a) * Pow2(b)
    decreases a
  {
    if a > 0 {
      Pow2Add(a - 1, b);
      Regroup(2, Pow2(a - 1), Pow2(b));
    }
  }

  lemma Regroup(a: int, b: int, c: int)
    ensures a * b * c == a * (b * c) == b * (a * c)
  {
  }

  lemma {:induction false} Pow2Monotone(a: nat, b: nat)
    requires a <= b
    ensures Pow2(a) <= Pow2(b)
    decreases b
  {
    if a < b {
      Pow2Monotone(a, b - 1);
    }
  }

  lemma Pow2At8()
    ensures Pow2(7) == 128 && Pow2(8) == 256
  {
    assert Pow2(4) == 16;
  }

  lemma Pow2At64()
    ensures Pow2(32) == 0x1_0000_0000
    ensures Pow2(63) == 0x8000_0000_0000_0000 && Pow2(64) == 0x1_0000_0000_0000_0000
  {
    Pow2At8();
    Pow2Add(8, 8);
    assert Pow2(16) == 0x1_0000;
    Pow2Add(16, 16);
    assert Pow2(32) == 0x1_0000_0000;
    Pow2Add(32, 32);
  }

  lemma MultipleBound(t: int, d: int)
    requires t >= 0
    ensures d >= 1 ==> t * d >= t
    ensures d <= -1 ==> t * d <= -t
  {
  }

  /** Quotient and remainder are determined by what they add up to. */
  lemma DivModUnique(x: nat, m: nat, q: nat, r: nat)
    requires 0 <= r < m && x == m * q + r
    ensures x / m == q && x % m == r
  {
    var d := x / m - q;
    assert m * d == r - x % m;
    MultipleBound(m, d);
  }

  lemma ModPlus(k: nat, t: nat)
    requires t > 0
    ensures (k + t) % t == k % t
  {
    assert k == t * (k / t) + k % t;
    assert k + t == t * (k / t + 1) + k % t;
    DivModUnique(k + t, t, k / t + 1, k % t);
  }

  lemma Distribute(a: int, b: int, c: int)
    ensures a * (b + c) == a * b + a * c
  {
  }

  lemma ProductPositive(a: int, b: int)
    requires a > 0 && b > 0
    ensures a * b > 0
  {
  }

  /** A digit and a remainder below it stay below the next digit. */
  lemma DigitBound(a: int, b: int, digit: int, r: int)
    requires 0 <= r < a && 0 <= digit < b
    ensures 0 <= a * digit + r < a * b
  {
    Distribute(a, digit, 1);
    Distribute(a, digit + 1, b - digit - 1);
    NonNegativeProduct(a, digit);
    NonNegativeProduct(a, b - digit - 1);
  }

  lemma NonNegativeProduct(a: int, b: int)
    requires a >= 0 && b >= 0
    ensures a * b >= 0
  {
  }

  lemma DivDiv(x: nat, a: nat, b: nat)
    requires a > 0 && b > 0
    ensures a * b > 0 && x / a / b == x / (a * b)
  {
    ProductPositive(a, b);
    var q, r := x / a, x % a;
    var q2, r2 := q / b, q % b;
    Distribute(a, b * q2, r2);
    Regroup(a, b, q2);
    DigitBound(a, b, r2, r);
    assert x == (a * b) * q2 + (a * r2 + r);
    DivModUnique(x, a * b, q2, a * r2 + r);
  }
}
