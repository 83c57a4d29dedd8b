// Division facts the other modules share.

module Arith {
  lemma {:induction false} SmallMultiple(e: int, d: nat)
    requires 0 - d < e * d < d
    ensures e == 0
  {
    assert -e * d == 0 - e * d;
    if e >= 1 {
      MultipleGrows(e, d);
    } else if e <= -1 {
      MultipleGrows(-e, d);
    }
  }

  lemma {:induction false} MultipleGrows(e: int, d: nat)
    requires e >= 1
    ensures e * d >= d
  {
  }

  lemma {:induction false} Quotient(v: nat, d: nat, q: nat, r: nat)
    requires d > 0 && r < d && v == q * d + r
    ensures v / d == q && v % d == r
  {
    var e := q - v / d;
    assert e * d == q * d - v / d * d;
    SmallMultiple(e, d);
  }

  /** Whole multiples do not change the remainder. */
  lemma {:induction false} ModPlus(n: nat, k: nat, d: nat)
    requires d > 0
    ensures n + k * d >= 0 && (n + k * d) % d == n % d && (n + k * d) / d == n / d + k
  {
    var q, r := n / d, n % d;
    MultipleSum(q, k, d);
    assert n == q * d + r;
    NonNegative(k, d);
    Quotient(n + k * d, d, q + k, r);
  }

  lemma {:induction false} MultipleSum(q: int, k: int, d: int)
    ensures (q + k) * d == q * d + k * d
  {
  }

  lemma {:induction false} NonNegative(k: nat, d: nat)
    ensures k * d >= 0
  {
  }

  lemma {:induction false} NonNegativeQuotient(v: nat, d: nat)
    requires d > 0
    ensures v / d >= 0
  {
  }

  lemma {:induction false} MonotoneProduct(a: nat, b: nat, d: nat)
    requires a <= b
    ensures a * d <= b * d
  {
  }

  lemma {:induction false} Commute(x: int, y: int)
    ensures x * y == y * x
  {
  }

  /** How many pieces of size d it takes to hold n. */
  function Ceil(n: nat, d: nat): nat
    requires d > 0
  {
    n / d + if n % d != 0 then 1 else 0
  }

  lemma {:induction false} CeilBounds(n: nat, d: nat)
    requires d > 0
    ensures n <= Ceil(n, d) * d < n + d
    ensures Ceil(n, d) * d - n == if n % d == 0 then 0 else d - n % d
  {
    assert n == n / d * d + n % d;
    MultipleSum(n / d, 1, d);
  }

  lemma {:induction false} CeilStep(n: nat, d: nat)
    requires n >= d > 0
    ensures Ceil(n, d) == Ceil(n - d, d) + 1
  {
    ModPlus(n - d, 1, d);
  }

  lemma {:induction false} CeilSmall(n: nat, d: nat)
    requires 0 < n <= d
    ensures Ceil(n, d) == 1
  {
    if n == d {
      Quotient(n, d, 1, 0);
    } else {
      Quotient(n, d, 0, n);
    }
  }

  /** The other way the packet count is computed: (n + (d - 1)) / d. */
  lemma {:induction false} CeilByRounding(n: nat, d: nat)
    requires d > 0
    ensures (n + (d - 1)) / d == Ceil(n, d)
  {
    CeilBounds(n, d);
    Quotient(n + (d - 1), d, Ceil(n, d), n + (d - 1) - Ceil(n, d) * d);
  }

  lemma {:induction false} HalfTwice(v: nat, p: nat)
    requires p > 0
    ensures v / 2 / p == v / (2 * p)
  {
    var q, r := v / 2 / p, v / 2 % p;
    assert v / 2 == q * p + r;
    assert q * (2 * p) == 2 * (q * p);
    assert v == q * (2 * p) + (2 * r + v % 2);
    Quotient(v, 2 * p, q, 2 * r + v % 2);
  }

  lemma {:induction false} HalfMod(v: nat, p: nat)
    requires p > 0
    ensures v % (2 * p) / 2 == v / 2 % p && v % (2 * p) % 2 == v % 2
  {
    var q, r := v / 2 / p, v / 2 % p;
    assert v / 2 == q * p + r;
    assert q * (2 * p) == 2 * (q * p);
    assert v == q * (2 * p) + (2 * r + v % 2);
    Quotient(v, 2 * p, q, 2 * r + v % 2);
  }
}
