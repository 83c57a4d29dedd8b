// The fecInfo word of a video packet header: a shard's index, the number of data shards and
// the percentage, in one uint32_t.

module FecInfo {
  import opened Bits
  import opened Arith

  /** Bitwise or. */
  function Or(a: nat, b: nat): (r: nat)
    ensures r >= a && r >= b
  {
    if a == 0 then b
    else if b == 0 then a
    else 2 * Or(a / 2, b / 2) + if a % 2 == 1 || b % 2 == 1 then 1 else 0
  }

  lemma {:induction false} OrNone(v: nat)
    ensures Or(v, 0) == v && Or(0, v) == v
  {
  }

  /** An or, bit by bit. */
  lemma {:induction false} OrStep(a: nat, b: nat)
    ensures Or(a, b) / 2 == Or(a / 2, b / 2)
    ensures Or(a, b) % 2 == if a % 2 == 1 || b % 2 == 1 then 1 else 0
  {
    if a > 0 && b > 0 {
      HalveSum(Or(a / 2, b / 2), if a % 2 == 1 || b % 2 == 1 then 1 else 0);
    }
  }

  lemma {:induction false} SameHalves(a: nat, b: nat)
    requires a / 2 == b / 2 && a % 2 == b % 2
    ensures a == b
  {
  }

  lemma {:induction false} ShiftRightIs(v: nat, k: nat)
    ensures ShiftRight(v, k) == v / Pow2(k)
    decreases k
  {
    if k > 0 {
      ShiftRightIs(v / 2, k - 1);
      HalfTwice(v, Pow2(k - 1));
    } else {
      assert Pow2(0) == 1;
    }
  }

  /** The low bits of an or. */
  lemma {:induction false} OrMod(a: nat, b: nat, k: nat)
    ensures Or(a, b) % Pow2(k) == Or(a % Pow2(k), b % Pow2(k))
    decreases k
  {
    hide Pow2, Or;
    if k == 0 {
      PowersOfNone();
      OrNone(0);
    } else {
      PowStep(k - 1);
      var p := Pow2(k - 1);
      OrMod(a / 2, b / 2, k - 1);
      OrStep(a, b);
      OrStep(a % (2 * p), b % (2 * p));
      HalfMod(a, p);
      HalfMod(b, p);
      HalfMod(Or(a, b), p);
      SameHalves(Or(a, b) % (2 * p), Or(a % (2 * p), b % (2 * p)));
    }
  }

  /** The high bits of an or. */
  lemma {:induction false} OrShift(a: nat, b: nat, k: nat)
    ensures ShiftRight(Or(a, b), k) == Or(ShiftRight(a, k), ShiftRight(b, k))
    decreases k
  {
    hide Or;
    if k > 0 {
      OrStep(a, b);
      OrShift(a / 2, b / 2, k - 1);
    }
  }

  // ---- The word ----

  /** x << 12 | data_shards << 22 | percentage << 4, kept in 32 bits. */
  function PackFecInfo(x: nat, dataShards: nat, percentage: nat): nat {
    Or(Or(x * 0x1000, dataShards * 0x40_0000), percentage * 0x10) % 0x1_0000_0000
  }

  /** The fields a receiver takes out: 10 bits, 10 bits and 8 bits. */
  function IndexField(info: nat): nat {
    info / 0x1000 % 0x400
  }

  function CountField(info: nat): nat {
    info / 0x40_0000 % 0x400
  }

  function PercentageField(info: nat): nat {
    info / 0x10 % 0x100
  }

  /** Bits k to k + m of an or of three. */
  lemma {:induction false} OrField(a: nat, b: nat, c: nat, k: nat, m: nat)
    requires k + m <= 32
    ensures Or(Or(a, b), c) % Pow2(32) / Pow2(k) % Pow2(m) ==
      Or(Or(a / Pow2(k) % Pow2(m), b / Pow2(k) % Pow2(m)), c / Pow2(k) % Pow2(m))
  {
    hide Pow2, Or, ShiftRight;
    ModDiv(Or(Or(a, b), c), k, m);
    ShiftRightIs(Or(Or(a, b), c), k);
    ShiftRightIs(a, k);
    ShiftRightIs(b, k);
    ShiftRightIs(c, k);
    OrShift(Or(a, b), c, k);
    OrShift(a, b, k);
    OrMod(Or(ShiftRight(a, k), ShiftRight(b, k)), ShiftRight(c, k), m);
    OrMod(ShiftRight(a, k), ShiftRight(b, k), m);
  }

  /** Keeping 32 bits keeps the fields below them. */
  lemma {:induction false} ModDiv(v: nat, k: nat, m: nat)
    requires k + m <= 32
    ensures v % Pow2(32) / Pow2(k) % Pow2(m) == v / Pow2(k) % Pow2(m)
  {
    hide Pow2;
    var p, q, r := Pow2(k), Pow2(m), Pow2(32 - k - m);
    Pow2Add(k, m);
    Pow2Add(k + m, 32 - k - m);
    FieldBelow(v, p, q, r);
  }

  lemma {:induction false} FieldBelow(v: nat, p: nat, q: nat, r: nat)
    requires p > 0 && q > 0 && r > 0 && p * q * r > 0
    ensures v % (p * q * r) / p % q == v / p % q
  {
    var high, low := v / (p * q * r), v % (p * q * r);
    Divided(v, p * q * r);
    Nonzero(high, r, q);
    ThreeFactors(high, p, q, r);
    ShiftedField(low, high * r, p, q);
  }

  lemma {:induction false} Divided(v: nat, d: nat)
    requires d > 0
    ensures v == v / d * d + v % d && v / d >= 0
  {
  }

  lemma {:induction false} Nonzero(h: nat, r: nat, q: nat)
    ensures h * r >= 0 && h * r * q >= 0
  {
    NonNegative(h, r);
    NonNegative(h * r, q);
  }

  /** Multiples of p * q do not reach the field. */
  lemma {:induction false} ShiftedField(low: nat, h: nat, p: nat, q: nat)
    requires p > 0 && q > 0 && h * q >= 0 && h * q * p >= 0
    ensures (low + h * q * p) / p % q == low / p % q
  {
    ModPlus(low, h * q, p);
    Divided(low, p);
    ModPlus(low / p, h, q);
  }

  lemma {:induction false} ThreeFactors(h: nat, p: nat, q: nat, r: nat)
    ensures h * (p * q * r) == h * r * q * p
  {
  }

  /** What stands in the fields, whatever was packed: values too wide for their field run
      into the next one, and past it. */
  lemma {:induction false} FieldsHold(x: nat, d: nat, p: nat)
    ensures var info := PackFecInfo(x, d, p);
      && IndexField(info) == Or(x % 0x400, p / 0x100 % 0x400)
      && CountField(info) == Or(Or(x / 0x400 % 0x400, d % 0x400), p / 0x4_0000 % 0x400)
      && PercentageField(info) == p % 0x100
  {
    hide Or, Pow2;
    var a, b, c := x * 0x1000, d * 0x40_0000, p * 0x10;
    FieldPowers();
    Pow2Bytes();
    OrField(a, b, c, 12, 10);
    OrField(a, b, c, 22, 10);
    OrField(a, b, c, 4, 8);
    FieldWidths(x, d, p);
    OrNone(x % 0x400);
    OrNone(p % 0x100);
    OrNone(0);
  }

  lemma {:induction false} FieldPowers()
    ensures Pow2(4) == 0x10 && Pow2(8) == 0x100 && Pow2(10) == 0x400 && Pow2(12) == 0x1000 && Pow2(22) == 0x40_0000
  {
    assert Pow2(4) == 0x10;
    Pow2Add(4, 4);
    Pow2Add(8, 4);
    assert Pow2(10) == 4 * Pow2(8);
    Pow2Add(12, 10);
  }

  lemma {:induction false} FieldWidths(x: nat, d: nat, p: nat)
    ensures x * 0x1000 / 0x1000 == x && d * 0x40_0000 / 0x1000 % 0x400 == 0 && p * 0x10 / 0x1000 == p / 0x100
    ensures x * 0x1000 / 0x40_0000 == x / 0x400 && d * 0x40_0000 / 0x40_0000 == d
    ensures p * 0x10 / 0x40_0000 == p / 0x4_0000
    ensures x * 0x1000 / 0x10 % 0x100 == 0 && d * 0x40_0000 / 0x10 % 0x100 == 0 && p * 0x10 / 0x10 == p
  {
    CountWidths(d);
    assert x * 0x1000 / 0x10 == x * 0x100;
  }

  lemma {:induction false} CountWidths(d: nat)
    ensures d * 0x40_0000 / 0x1000 % 0x400 == 0 && d * 0x40_0000 / 0x10 % 0x100 == 0
  {
    assert d * 0x40_0000 / 0x1000 == d * 0x400;
    assert d * 0x40_0000 / 0x10 == d * 0x4_0000;
  }

  /** The three fields come out of fecInfo as they went in exactly when each fits its
      width: 10 bits, 10 bits and 8 bits. */
  lemma {:induction false} FecInfoUnpacks(x: nat, d: nat, p: nat)
    ensures var info := PackFecInfo(x, d, p);
      IndexField(info) == x && CountField(info) == d && PercentageField(info) == p
      <==> x < 0x400 && d < 0x400 && p < 0x100
  {
    hide PackFecInfo, Or;
    FieldsHold(x, d, p);
    if x < 0x400 && d < 0x400 && p < 0x100 {
      OrNone(x);
      OrNone(d);
    }
  }
}
