// Bits, most significant first, and the bit writer and reader contexts of cbs.

module Wrappers {
  datatype Option<+T> = None | Some(value: T) {
    predicate IsFailure() {
      None?
    }

    function PropagateFailure<U>(): Option<U>
      requires None?
    {
      None
    }

    function Extract(): T
      requires Some?
    {
      value
    }
  }
}

module Bits {
  type byte = b: int | 0 <= b < 256

  function Pow2(n: nat): (p: nat)
    ensures p > 0
  {
    if n == 0 then 1 else 2 * Pow2(n - 1)
  }

  lemma {:induction false} PowStep(n: nat)
    ensures Pow2(n + 1) == 2 * Pow2(n)
  {
  }

  lemma {:induction false} Pow2Monotone(m: nat, n: nat)
    requires m <= n
    ensures Pow2(m) <= Pow2(n)
    decreases n
  {
    if m < n {
      Pow2Monotone(m, n - 1);
    }
  }

  lemma {:induction false} DoubleFactor(x: int, y: int)
    ensures x * (2 * y) == 2 * (x * y)
  {
  }

  lemma {:induction false} Pow2Add(m: nat, n: nat)
    ensures Pow2(m + n) == Pow2(m) * Pow2(n)
    decreases n
  {
    if n > 0 {
      Pow2Add(m, n - 1);
      assert Pow2(m + n) == 2 * Pow2(m + (n - 1));
      DoubleFactor(Pow2(m), Pow2(n - 1));
    }
  }

  /** v >> n */
  function ShiftRight(v: nat, n: nat): nat {
    if n == 0 then v else ShiftRight(v / 2, n - 1)
  }

  /** The index of the highest one bit, and 0 for 0, as av_log2 computes it. */
  function Log2(v: nat): nat {
    if v < 2 then 0 else 1 + Log2(v / 2)
  }

  lemma {:induction false} PowersOfNone()
    ensures Pow2(0) == 1 && Log2(0) == 0
  {
  }

  lemma {:induction false} Log2Bounds(v: nat)
    requires v > 0
    ensures Pow2(Log2(v)) <= v < Pow2(Log2(v) + 1)
  {
    if v >= 2 {
      Log2Bounds(v / 2);
    }
  }

  lemma {:induction false} Log2Unique(v: nat, k: nat)
    requires Pow2(k) <= v < Pow2(k + 1)
    ensures Log2(v) == k
  {
    Log2Bounds(v);
    if Log2(v) < k {
      Pow2Monotone(Log2(v) + 1, k);
    } else if Log2(v) > k {
      Pow2Monotone(k + 1, Log2(v));
    }
  }

  /** ff_ctz */
  function TrailingZeros(v: nat): (n: nat)
    requires v != 0
    ensures Pow2(n) <= v
  {
    if v % 2 == 1 then 0 else 1 + TrailingZeros(v / 2)
  }

  lemma {:induction false} TrailingZerosBound(v: nat, n: nat)
    requires 0 < v < Pow2(n)
    ensures TrailingZeros(v) < n
  {
    if TrailingZeros(v) >= n {
      Pow2Monotone(n, TrailingZeros(v));
      assert false;
    }
  }

  lemma {:induction false} Regroup<T>(a: seq<T>, b: seq<T>, c: seq<T>, d: seq<T>)
    ensures a + (b + (c + d)) == a + (b + c + d) == a + b + c + d
    ensures d == [] ==> a + (b + c) == a + b + c
  {
    assert a + (b + c) == a + b + c;
  }

  /** The low `width` bits of `v`, most significant first. */
  function ToBits(width: nat, v: nat): (b: seq<bool>)
    ensures |b| == width
  {
    if width == 0 then [] else ToBits(width - 1, v / 2) + [v % 2 == 1]
  }

  /** The number a bit string denotes, most significant bit first. */
  function FromBits(b: seq<bool>): (v: nat)
    ensures v < Pow2(|b|)
  {
    if |b| == 0 then 0
    else
      var last := |b| - 1;
      2 * FromBits(b[..last]) + (if b[last] then 1 else 0)
  }

  lemma {:induction false} FromTo(width: nat, v: nat)
    requires v < Pow2(width)
    ensures FromBits(ToBits(width, v)) == v
  {
    if width > 0 {
      FromTo(width - 1, v / 2);
      assert ToBits(width, v)[..width - 1] == ToBits(width - 1, v / 2);
    }
  }

  lemma {:induction false} ToFrom(b: seq<bool>)
    ensures ToBits(|b|, FromBits(b)) == b
  {
    if |b| > 0 {
      ToFrom(b[..|b| - 1]);
      assert FromBits(b) / 2 == FromBits(b[..|b| - 1]);
    }
  }

  lemma {:induction false} FromNothing(b: seq<bool>)
    requires |b| == 0
    ensures FromBits(b) == 0
  {
  }

  /** Reading one more bit doubles the number and adds the bit. */
  lemma {:induction false} FromBitsSnoc(b: seq<bool>, last: bool)
    ensures FromBits(b + [last]) == 2 * FromBits(b) + (if last then 1 else 0)
  {
    assert (b + [last])[..|b|] == b;
  }

  lemma {:induction false} FromBitsConcat(a: seq<bool>, b: seq<bool>)
    ensures FromBits(a + b) == FromBits(a) * Pow2(|b|) + FromBits(b)
    decreases |b|
  {
    if |b| == 0 {
      assert a + b == a;
    } else {
      var front, last := b[..|b| - 1], b[|b| - 1];
      FromBitsConcat(a, front);
      assert FromBits(a + b) == 2 * FromBits(a + front) + (if last then 1 else 0) by {
        assert a + b == (a + front) + [last];
        FromBitsSnoc(a + front, last);
      }
      DoubleFactor(FromBits(a), Pow2(|front|));
    }
  }

  /** Splitting a number into a high and a low part splits its bits. */
  lemma {:induction false} ToBitsSplit(m: nat, n: nat, hi: nat, lo: nat)
    requires lo < Pow2(n)
    ensures ToBits(m + n, hi * Pow2(n) + lo) == ToBits(m, hi) + ToBits(n, lo)
    decreases n
  {
    if n == 0 {
      assert ToBits(m, hi) + ToBits(0, lo) == ToBits(m, hi);
    } else {
      ToBitsSplit(m, n - 1, hi, lo / 2);
      DoubleFactor(hi, Pow2(n - 1));
      HalveSum(hi * Pow2(n - 1), lo);
      Regroup([], ToBits(m, hi), ToBits(n - 1, lo / 2), [lo % 2 == 1]);
    }
  }

  lemma {:induction false} HalveSum(x: nat, lo: nat)
    ensures (2 * x + lo) / 2 == x + lo / 2 && (2 * x + lo) % 2 == lo % 2
  {
  }

  function Zeros(n: nat): (b: seq<bool>)
    ensures |b| == n && forall i :: 0 <= i < n ==> !b[i]
  {
    seq(n, _ => false)
  }

  lemma {:induction false} ToBitsZero(n: nat)
    ensures ToBits(n, 0) == Zeros(n)
  {
    if n > 0 {
      ToBitsZero(n - 1);
    }
  }

  /** The bits of a byte string. */
  function BytesBits(data: seq<byte>): (b: seq<bool>)
    ensures |b| == 8 * |data|
  {
    if |data| == 0 then [] else ToBits(8, data[0]) + BytesBits(data[1..])
  }

  lemma {:induction false} BytesBitsConcat(a: seq<byte>, b: seq<byte>)
    ensures BytesBits(a + b) == BytesBits(a) + BytesBits(b)
  {
    hide ToBits;
    if |a| == 0 {
      assert a + b == b && BytesBits(a) + BytesBits(b) == BytesBits(b);
    } else {
      BytesBitsConcat(a[1..], b);
      assert (a + b)[1..] == a[1..] + b;
      Regroup([], ToBits(8, a[0]), BytesBits(a[1..]), BytesBits(b));
    }
  }

  /** Zeros up to the next byte boundary. */
  function PaddedToByte(b: seq<bool>): (r: seq<bool>)
    ensures |r| % 8 == 0 && |r| - |b| < 8 && |b| <= |r| && r[..|b|] == b
    ensures forall i :: |b| <= i < |r| ==> !r[i]
  {
    b + Zeros((8 - |b| % 8) % 8)
  }

  lemma {:induction false} PaddedForm(b: seq<bool>)
    ensures PaddedToByte(b) == if |b| % 8 == 0 then b else b + Zeros(8 - |b| % 8)
  {
    assert b + Zeros(0) == b;
  }

  lemma {:induction false} Pow2Bytes()
    ensures Pow2(8) == 0x100 && Pow2(16) == 0x1_0000 && Pow2(32) == 0x1_0000_0000
  {
    assert Pow2(8) == 256;
    Pow2Add(8, 8);
    Pow2Add(16, 16);
  }

  /** The code word stands in the bit string at the position. */
  ghost predicate At(data: seq<bool>, pos: nat, code: seq<bool>) {
    pos + |code| <= |data| && data[pos..pos + |code|] == code
  }

  lemma {:induction false} AtConcat(data: seq<bool>, pos: nat, a: seq<bool>, b: seq<bool>)
    ensures At(data, pos, a + b) <==> At(data, pos, a) && At(data, pos + |a|, b)
  {
    if pos + |a| + |b| <= |data| {
      var whole := data[pos..pos + |a| + |b|];
      assert whole[..|a|] == data[pos..pos + |a|];
      assert whole[|a|..] == data[pos + |a|..pos + |a| + |b|];
      assert (a + b)[..|a|] == a && (a + b)[|a|..] == b;
      assert whole == whole[..|a|] + whole[|a|..];
    }
  }

  /** The outcome of a spec-side decoder: the value and how many bits it took. */
  datatype Parse<+T> = Parsed(value: T, used: nat) | Bad

  /** PutBitContext: the bits written so far, and room for `capacity` of them. */
  class BitWriter {
    const capacity: nat
    var bits: seq<bool>

    ghost predicate Valid()
      reads this
    {
      |bits| <= capacity
    }

    constructor (capacity: nat)
      ensures Valid() && bits == [] && this.capacity == capacity
    {
      this.capacity := capacity;
      bits := [];
    }

    /** put_bits_left */
    function Left(): nat
      requires Valid()
      reads this
    {
      capacity - |bits|
    }

    /** put_bits, whose assertion is that the value fits in the width. */
    method Put(width: nat, value: nat)
      requires Valid() && width <= Left() && value < Pow2(width)
      modifies this
      ensures Valid() && bits == old(bits) + ToBits(width, value)
    {
      bits := bits + ToBits(width, value);
    }

    /** memcpy of whole bytes to put_bits_ptr, and skip_put_bytes. */
    method PutBytes(content: seq<bool>)
      requires Valid() && |bits| % 8 == 0 && |content| % 8 == 0 && |content| <= Left()
      modifies this
      ensures Valid() && bits == old(bits) + content
    {
      bits := bits + content;
    }
  }

  /** GetBitContext: a bit string and a cursor into it. */
  class BitReader {
    const data: seq<bool>
    var pos: nat

    ghost predicate Valid()
      reads this
    {
      pos <= |data|
    }

    constructor (data: seq<bool>)
      ensures Valid() && this.data == data && pos == 0
    {
      this.data := data;
      pos := 0;
    }

    /** get_bits_left */
    function Left(): nat
      requires Valid()
      reads this
    {
      |data| - pos
    }

    /** get_bits1 */
    method Get1() returns (bit: bool)
      requires Valid() && Left() >= 1
      modifies this
      ensures Valid() && pos == old(pos) + 1 && bit == data[old(pos)]
    {
      bit := data[pos];
      pos := pos + 1;
    }

    /** get_bits and get_bits_long */
    method Get(n: nat) returns (value: nat)
      requires Valid() && n <= Left()
      modifies this
      ensures Valid() && pos == old(pos) + n && value == FromBits(data[old(pos)..old(pos) + n])
    {
      value := FromBits(data[pos..pos + n]);
      pos := pos + n;
    }
  }
}
