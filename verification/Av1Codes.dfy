// The variable-length codes of AV1 (section 4.10 of the AV1 Bitstream & Decoding Process
// Specification) as cbs_av1.c writes and reads them: code words and what they decode to.

module Av1Codes {
  import opened Bits
  import opened Golomb

  /** A run of one bits. */
  function Ones(n: nat): (b: seq<bool>)
    ensures |b| == n && forall i :: 0 <= i < n ==> b[i]
  {
    seq(n, _ => true)
  }

  // ---- uvlc ----

  /** uvlc: as ue(v), except that 32 or more zeros stand for the largest value. */
  function DecodeUvlc(data: seq<bool>, pos: nat): (p: Parse<nat>)
    requires pos <= |data|
  {
    var z := LeadingZeros(data, pos);
    if pos + z == |data| then Bad
    else if z >= 32 then Parsed(UINT32_MAX, z + 1)
    else DecodeUe(data, pos)
  }

  /** Every value below 2^32 - 1 comes back from its ue(v) code word. */
  lemma {:induction false} UvlcRoundTrip(data: seq<bool>, pos: nat, value: nat)
    requires value < UINT32_MAX && At(data, pos, EncodeUe(value))
    ensures DecodeUvlc(data, pos) == Parsed(value, |EncodeUe(value)|)
  {
    UeRoundTrip(data, pos, value);
  }

  /** 32 or more zeros and a one are read as 2^32 - 1, and zeros without a one are not read. */
  lemma {:induction false} UvlcZeros(data: seq<bool>, pos: nat, z: nat)
    requires pos + z <= |data| && forall i :: pos <= i < pos + z ==> !data[i]
    requires pos + z < |data| ==> data[pos + z]
    ensures pos + z == |data| ==> DecodeUvlc(data, pos) == Bad
    ensures pos + z < |data| && z >= 32 ==> DecodeUvlc(data, pos) == Parsed(0xFFFF_FFFF, z + 1)
  {
    hide DecodeUe;
    CountZeros(data, pos, z);
  }

  lemma {:induction false} CountZeros(data: seq<bool>, pos: nat, z: nat)
    requires pos + z <= |data| && forall i :: pos <= i < pos + z ==> !data[i]
    requires pos + z < |data| ==> data[pos + z]
    ensures LeadingZeros(data, pos) == z
    decreases z
  {
    if z > 0 {
      CountZeros(data, pos + 1, z - 1);
    }
  }

  // ---- ns(n) ----

  /** The number of bits of the longer ns(n) codes. */
  function NsWidth(n: nat): (w: nat)
    ensures w > 0
  {
    Log2(n) + 1
  }

  /** How many values have the shorter code. */
  function NsShort(n: nat): int {
    Pow2(NsWidth(n)) - n
  }

  lemma {:induction false} NsBounds(n: nat)
    requires n > 0
    ensures 0 < NsShort(n) <= Pow2(NsWidth(n) - 1) <= n < Pow2(NsWidth(n)) == 2 * Pow2(NsWidth(n) - 1)
  {
    Log2Bounds(n);
  }

  /** The value the writer puts into w - 1 bits. */
  function NsHead(n: nat, value: nat): int {
    if value < NsShort(n) then value else NsShort(n) + (value - NsShort(n)) / 2
  }

  /** The code cbs_av1_write_ns writes for a value below n. */
  function EncodeNs(n: nat, value: nat): seq<bool>
    requires 0 < n && value < n
  {
    NsBounds(n);
    ToBits(NsWidth(n) - 1, NsHead(n, value))
      + if value < NsShort(n) then [] else [(value - NsShort(n)) % 2 == 1]
  }

  /** The head fits its w - 1 bits exactly for the values below n; the writer lets n pass. */
  lemma {:induction false} NsHeadFits(n: nat, value: nat)
    requires 0 < n && value <= n
    ensures 0 <= NsHead(n, value)
    ensures NsHead(n, value) < Pow2(NsWidth(n) - 1) <==> value < n
  {
    NsBounds(n);
  }

  /** The value 5 in ns(5): its head is 4, in two bits. */
  lemma {:induction false} NsTopMisfits()
    ensures NsWidth(5) == 3 && NsHead(5, 5) == 4 == Pow2(NsWidth(5) - 1)
  {
    assert Pow2(2) == 4 && Pow2(3) == 8;
    Log2Unique(5, 2);
  }

  /** The reader asks for w bits even when the code takes w - 1. */
  function DecodeNs(data: seq<bool>, pos: nat, n: nat): (p: Parse<nat>)
    requires n > 0
    ensures p.Parsed? ==> p.used <= |data| - pos && p.value < n
  {
    var w, m := NsWidth(n), NsShort(n);
    if pos + w > |data| then Bad
    else
      var v := FromBits(data[pos..pos + w - 1]);
      NsBounds(n);
      if v < m then Parsed(v, w - 1)
      else Parsed(2 * v - m + if data[pos + w - 1] then 1 else 0, w)
  }

  /** Every value below n comes back, when the w bits the reader insists on are there. */
  lemma {:induction false} NsRoundTrip(data: seq<bool>, pos: nat, n: nat, value: nat)
    requires 0 < n && value < n && At(data, pos, EncodeNs(n, value)) && pos + NsWidth(n) <= |data|
    ensures DecodeNs(data, pos, n) == Parsed(value, |EncodeNs(n, value)|)
  {
    hide ToBits, FromBits;
    var w, m := NsWidth(n), NsShort(n);
    NsBounds(n);
    NsHeadFits(n, value);
    var head := ToBits(w - 1, NsHead(n, value));
    FromTo(w - 1, NsHead(n, value));
    if value < m {
      assert EncodeNs(n, value) == head;
    } else {
      AtConcat(data, pos, head, [(value - m) % 2 == 1]);
      assert data[pos + w - 1..pos + w][0] == data[pos + w - 1];
    }
  }

  /** What the reader makes of a head and the bit after it. */
  lemma {:induction false} NsHeadDecodes(data: seq<bool>, pos: nat, n: nat, head: nat)
    requires 0 < n && head < Pow2(NsWidth(n) - 1) && pos + NsWidth(n) <= |data|
    requires At(data, pos, ToBits(NsWidth(n) - 1, head))
    ensures DecodeNs(data, pos, n) ==
      if head < NsShort(n) then Parsed(head, NsWidth(n) - 1)
      else Parsed(2 * head - NsShort(n) + if data[pos + NsWidth(n) - 1] then 1 else 0, NsWidth(n))
  {
    FromTo(NsWidth(n) - 1, head);
  }

  /** The reader yields values below n only, from the code word of the value. */
  lemma {:induction false} NsCanonical(data: seq<bool>, pos: nat, n: nat)
    requires n > 0 && DecodeNs(data, pos, n).Parsed?
    ensures DecodeNs(data, pos, n).value < n
    ensures At(data, pos, EncodeNs(n, DecodeNs(data, pos, n).value))
    ensures |EncodeNs(n, DecodeNs(data, pos, n).value)| == DecodeNs(data, pos, n).used
  {
    hide ToBits, FromBits, Log2;
    NsBounds(n);
    var w, m := NsWidth(n), NsShort(n);
    var bits := data[pos..pos + w - 1];
    ToFrom(bits);
    var v := FromBits(bits);
    if v >= m {
      AtConcat(data, pos, bits, [data[pos + w - 1]]);
      assert data[pos + w - 1..pos + w] == [data[pos + w - 1]];
    } else {
      assert ToBits(w - 1, v) + [] == ToBits(w - 1, v);
    }
  }

  // ---- increment ----

  /** value - min ones, and a zero unless the value is the largest. */
  function EncodeIncrement(min: nat, max: nat, value: nat): (b: seq<bool>)
    requires min <= value <= max
    ensures |b| == value - min + if value < max then 1 else 0
  {
    Ones(value - min) + if value < max then [false] else []
  }

  /** The loop that counts one bits up to the largest value. */
  function DecodeIncrement(data: seq<bool>, pos: nat, value: nat, max: nat): (p: Parse<nat>)
    requires value <= max && pos <= |data|
    ensures p.Parsed? ==> value <= p.value <= max && pos + p.used <= |data|
    decreases max - value
  {
    if value == max then Parsed(value, 0)
    else if pos == |data| then Bad
    else if !data[pos] then Parsed(value, 1)
    else
      match DecodeIncrement(data, pos + 1, value + 1, max)
      case Parsed(v, used) => Parsed(v, used + 1)
      case Bad => Bad
  }

  lemma {:induction false} FirstBit(data: seq<bool>, pos: nat, bit: bool)
    requires At(data, pos, [bit])
    ensures data[pos] == bit
  {
    assert data[pos..pos + 1][0] == data[pos];
  }

  /** Every value of the range comes back, whatever follows its code. */
  lemma {:induction false} IncrementRoundTrip(data: seq<bool>, pos: nat, min: nat, max: nat, value: nat)
    requires min <= value <= max && At(data, pos, EncodeIncrement(min, max, value))
    ensures DecodeIncrement(data, pos, min, max) == Parsed(value, |EncodeIncrement(min, max, value)|)
    decreases value - min
  {
    var code := EncodeIncrement(min, max, value);
    if min < value {
      assert code == [true] + EncodeIncrement(min + 1, max, value);
      hide EncodeIncrement;
      AtConcat(data, pos, [true], EncodeIncrement(min + 1, max, value));
      FirstBit(data, pos, true);
      IncrementRoundTrip(data, pos + 1, min + 1, max, value);
    } else if value < max {
      FirstBit(data, pos, false);
    }
  }

  /** What is read stands there as the writer writes it. */
  lemma {:induction false} IncrementCanonical(data: seq<bool>, pos: nat, min: nat, max: nat)
    requires min <= max && pos <= |data| && DecodeIncrement(data, pos, min, max).Parsed?
    ensures At(data, pos, EncodeIncrement(min, max, DecodeIncrement(data, pos, min, max).value))
    ensures |EncodeIncrement(min, max, DecodeIncrement(data, pos, min, max).value)|
      == DecodeIncrement(data, pos, min, max).used
    decreases max - min
  {
    if min < max && data[pos] {
      IncrementCanonical(data, pos + 1, min + 1, max);
      var value := DecodeIncrement(data, pos + 1, min + 1, max).value;
      assert data[pos..pos + 1] == [true];
      AtConcat(data, pos, [true], EncodeIncrement(min + 1, max, value));
      assert EncodeIncrement(min, max, value) == [true] + EncodeIncrement(min + 1, max, value);
    }
  }

  lemma {:induction false} OnesBits(n: nat)
    ensures ToBits(n, Pow2(n) - 1) == Ones(n)
  {
    hide Pow2;
    if n > 0 {
      var p := Pow2(n - 1);
      assert Pow2(n) - 1 == 2 * (p - 1) + 1 by { PowStep(n - 1); }
      OnesBits(n - 1);
      HalveSum(p - 1, 1);
      assert Ones(n) == Ones(n - 1) + [true];
    }
  }

  /** (1 << len) - 1 - (value != range_max), in len bits. */
  lemma {:induction false} IncrementBits(min: nat, max: nat, value: nat)
    requires min <= value <= max
    ensures var len := |EncodeIncrement(min, max, value)|;
      var v := Pow2(len) - 1 - if value != max then 1 else 0;
      0 <= v < Pow2(len) && ToBits(len, v) == EncodeIncrement(min, max, value)
  {
    var n := value - min;
    OnesBits(n);
    if value < max {
      assert ToBits(n + 1, Pow2(n + 1) - 2) == ToBits(n, Pow2(n) - 1) + [false];
    }
  }

  // ---- subexp ----

  /** max_len; below 9 the C subtraction wraps and an assertion fails. */
  function MaxLen(rangeMax: nat): nat
    requires rangeMax >= 9
  {
    EightOrMore(rangeMax - 1);
    Log2(rangeMax - 1) - 3
  }

  lemma {:induction false} EightOrMore(v: nat)
    requires v >= 8
    ensures Log2(v) >= 3
  {
    Log2Monotone(8, v);
    assert Log2(8) == 3;
  }

  /** How the writer codes a value: the bin, and the bits that select within it. */
  datatype Bin = Bin(len: nat, bits: nat, offset: nat)

  function BinOf(rangeMax: nat, value: nat): Bin
    requires rangeMax >= 9
  {
    if value < 8 then Bin(0, 3, 0)
    else
      EightOrMore(value);
      var bits := Log2(value);
      if bits - 2 > MaxLen(rangeMax) then Bin(MaxLen(rangeMax), bits - 1, Pow2(bits - 1))
      else Bin(bits - 2, bits, Pow2(bits))
  }

  /** The reader's view of a bin. */
  function BinAt(len: nat): Bin {
    if len > 0 then Bin(len, 2 + len, Pow2(2 + len)) else Bin(0, 3, 0)
  }

  /** For a value in range the assertion len == max_len + 1 holds whenever it is reached. */
  lemma {:induction false} TopBinIsNext(rangeMax: nat, value: nat)
    requires 9 <= rangeMax && 8 <= value < rangeMax
    ensures Log2(value) - 2 <= MaxLen(rangeMax) + 1
  {
    Log2Monotone(value, rangeMax - 1);
  }

  lemma {:induction false} Log2Monotone(v: nat, u: nat)
    requires v <= u
    ensures Log2(v) <= Log2(u)
  {
    if v >= 2 {
      Log2Monotone(v / 2, u / 2);
    }
  }

  /** It fails exactly for the one value the range check should have refused, when that is
      a power of two. */
  lemma {:induction false} TopBinFails(rangeMax: nat)
    requires 9 <= rangeMax
    ensures Log2(rangeMax) - 2 > MaxLen(rangeMax) + 1 <==> rangeMax == Pow2(Log2(rangeMax))
  {
    var k := Log2(rangeMax);
    Log2Bounds(rangeMax);
    Log2Monotone(rangeMax - 1, rangeMax);
    Log2Bounds(rangeMax - 1);
    if rangeMax != Pow2(k) {
      Log2Unique(rangeMax - 1, k);
    } else {
      if Log2(rangeMax - 1) == k {
        assert false;
      }
    }
  }

  /** The value 16 in the range 16 fails it: len is 2 and max_len 0. */
  lemma {:induction false} TopBinOfSixteen()
    ensures MaxLen(16) == 0 && Log2(16) - 2 == 2
  {
    assert Pow2(3) == 8 && Pow2(4) == 16 && Pow2(5) == 32;
    Log2Unique(15, 3);
    Log2Unique(16, 4);
  }

  /** The bin's bounds, for values in range. */
  lemma {:induction false} BinBounds(rangeMax: nat, value: nat)
    requires 9 <= rangeMax && value < rangeMax
    ensures var b := BinOf(rangeMax, value);
      && b.len <= MaxLen(rangeMax) && b.offset <= value && b.offset < rangeMax
      && (b.len < MaxLen(rangeMax) ==> value - b.offset < Pow2(b.bits))
  {
    if value >= 8 {
      TopBinIsNext(rangeMax, value);
      Log2Bounds(value);
    } else {
      assert Pow2(3) == 8;
    }
  }

  /** The code cbs_av1_write_subexp writes for a value in range. */
  function EncodeSubexp(rangeMax: nat, value: nat): seq<bool>
    requires 9 <= rangeMax && value < rangeMax
  {
    BinBounds(rangeMax, value);
    var b := BinOf(rangeMax, value);
    EncodeIncrement(0, MaxLen(rangeMax), b.len)
      + if b.len < MaxLen(rangeMax) then ToBits(b.bits, value - b.offset)
        else EncodeNs(rangeMax - b.offset, value - b.offset)
  }

  lemma {:induction false} BinAtBounds(rangeMax: nat, len: nat)
    requires 9 <= rangeMax && len <= MaxLen(rangeMax)
    ensures BinAt(len).offset < rangeMax
  {
    Log2Bounds(rangeMax - 1);
    if len > 0 {
      Pow2Monotone(2 + len, Log2(rangeMax - 1));
    }
  }

  /** cbs_av1_read_subexp */
  function DecodeSubexp(data: seq<bool>, pos: nat, rangeMax: nat): Parse<nat>
    requires 9 <= rangeMax && pos <= |data|
  {
    match DecodeIncrement(data, pos, 0, MaxLen(rangeMax))
    case Bad => Bad
    case Parsed(len, used) =>
      BinAtBounds(rangeMax, len);
      DecodeBin(data, pos + used, rangeMax, len, used)
  }

  function DecodeBin(data: seq<bool>, pos: nat, rangeMax: nat, len: nat, used: nat): Parse<nat>
    requires 9 <= rangeMax && len <= MaxLen(rangeMax) && BinAt(len).offset < rangeMax
  {
    var b := BinAt(len);
    if len < MaxLen(rangeMax) then
      if pos + b.bits > |data| then Bad
      else Parsed(b.offset + FromBits(data[pos..pos + b.bits]), used + b.bits)
    else
      match DecodeNs(data, pos, rangeMax - b.offset)
      case Bad => Bad
      case Parsed(v, more) => Parsed(b.offset + v, used + more)
  }

  /** How far behind the position the reader of a subexp code may look. */
  function SubexpReach(rangeMax: nat, value: nat): nat
    requires 9 <= rangeMax && value < rangeMax
  {
    BinBounds(rangeMax, value);
    var b := BinOf(rangeMax, value);
    |EncodeIncrement(0, MaxLen(rangeMax), b.len)|
      + if b.len < MaxLen(rangeMax) then b.bits else NsWidth(rangeMax - b.offset)
  }

  /** Reader and writer agree on the bin of a value, for 17 and above or values below 8. */
  lemma {:induction false} BinsAgree(rangeMax: nat, value: nat)
    requires 9 <= rangeMax && value < rangeMax && (rangeMax >= 17 || value < 8)
    ensures BinAt(BinOf(rangeMax, value).len) == BinOf(rangeMax, value)
  {
    if value >= 8 {
      TopBinIsNext(rangeMax, value);
      EightOrMore(value);
      Log2Monotone(16, rangeMax - 1);
      assert Log2(16) == 4;
    }
  }

  /** Values whose bins the two sides agree on come back, taking exactly the bits written. */
  lemma {:induction false} SubexpRoundTrip(data: seq<bool>, pos: nat, rangeMax: nat, value: nat)
    requires 9 <= rangeMax && value < rangeMax && (rangeMax >= 17 || value < 8)
    requires At(data, pos, EncodeSubexp(rangeMax, value)) && pos + SubexpReach(rangeMax, value) <= |data|
    ensures DecodeSubexp(data, pos, rangeMax) == Parsed(value, |EncodeSubexp(rangeMax, value)|)
  {
    hide Pow2, ToBits, FromBits, BinOf, EncodeNs, DecodeNs, EncodeIncrement, DecodeIncrement, NsWidth;
    BinsAgree(rangeMax, value);
    BinBounds(rangeMax, value);
    var b, max := BinOf(rangeMax, value), MaxLen(rangeMax);
    var prefix := EncodeIncrement(0, max, b.len);
    if b.len < max {
      AtConcat(data, pos, prefix, ToBits(b.bits, value - b.offset));
      FromTo(b.bits, value - b.offset);
    } else {
      AtConcat(data, pos, prefix, EncodeNs(rangeMax - b.offset, value - b.offset));
      NsRoundTrip(data, pos + |prefix|, rangeMax - b.offset, value - b.offset);
    }
    IncrementRoundTrip(data, pos, 0, max, b.len);
  }

  /** From 9 to 16 there is one bin, and the two sides disagree on where it starts for
      values from 8 on: the writer codes ns(rangeMax - 4), the reader expects ns(rangeMax). */
  lemma {:induction false} SmallBin(rangeMax: nat, value: nat)
    requires 9 <= rangeMax <= 16 && 8 <= value < rangeMax
    ensures MaxLen(rangeMax) == 0 && BinOf(rangeMax, value) == Bin(0, 2, 4)
    ensures EncodeSubexp(rangeMax, value) == EncodeNs(rangeMax - 4, value - 4)
    ensures SubexpReach(rangeMax, value) == NsWidth(rangeMax - 4)
  {
    assert Pow2(2) == 4 && Pow2(3) == 8 && Pow2(4) == 16;
    Log2Unique(value, 3);
    Log2Unique(rangeMax - 1, 3);
    assert EncodeIncrement(0, 0, 0) == [];
    assert [] + EncodeNs(rangeMax - 4, value - 4) == EncodeNs(rangeMax - 4, value - 4);
  }

  lemma {:induction false} SmallDecode(data: seq<bool>, pos: nat, rangeMax: nat)
    requires 9 <= rangeMax <= 16 && MaxLen(rangeMax) == 0 && pos <= |data|
    ensures DecodeSubexp(data, pos, rangeMax) == DecodeNs(data, pos, rangeMax)
  {
    assert DecodeIncrement(data, pos, 0, 0) == Parsed(0, 0);
  }

  /** The widths and the numbers of short codes from 5 to 16. */
  lemma {:induction false} SmallWidths(n: nat)
    requires 5 <= n <= 16
    ensures NsWidth(n) == (if n < 8 then 3 else if n < 16 then 4 else 5)
    ensures NsShort(n) == (if n < 8 then 8 else if n < 16 then 16 else 32) - n
  {
    assert Pow2(2) == 4 && Pow2(3) == 8 && Pow2(4) == 16 && Pow2(5) == 32;
    Log2Unique(n, if n < 8 then 2 else if n < 16 then 3 else 4);
  }

  /** When the two code words of a small range coincide: exactly from 24 - rangeMax on. */
  lemma {:induction false} SmallRange(data: seq<bool>, pos: nat, rangeMax: nat, value: nat)
    requires 9 <= rangeMax <= 16 && 8 <= value < rangeMax
    requires At(data, pos, EncodeNs(rangeMax - 4, value - 4)) && pos + NsWidth(rangeMax - 4) + 1 <= |data|
    ensures DecodeNs(data, pos, rangeMax) == Parsed(value, |EncodeNs(rangeMax - 4, value - 4)|)
      <==> value + rangeMax >= 24
  {
    hide FromBits, ToBits, NsWidth, NsShort, DecodeNs, EncodeNs, Pow2, NsHead;
    SmallWidths(rangeMax);
    SmallWidths(rangeMax - 4);
    Powers();
    var n, x := rangeMax - 4, value - 4;
    if x < NsShort(n) {
      ShortForm(n, x);
      NsHeadDecodes(data, pos, rangeMax, x);
    } else {
      var head, last := NsHead(n, x), (x - NsShort(n)) % 2;
      LongForm(n, x);
      if 12 <= rangeMax < 16 {
        AtConcat(data, pos, ToBits(3, head), [last == 1]);
        assert data[pos + 3..pos + 4][0] == data[pos + 3];
        NsHeadDecodes(data, pos, rangeMax, head);
      } else {
        NsHeadDecodes(data, pos, rangeMax, 2 * head + last);
      }
    }
  }

  lemma {:induction false} Powers()
    ensures Pow2(3) == 8 && Pow2(4) == 16
  {
  }

  lemma {:induction false} ShortForm(n: nat, x: nat)
    requires 0 < n && x < n && x < NsShort(n)
    ensures EncodeNs(n, x) == ToBits(NsWidth(n) - 1, x)
  {
  }

  /** A longer code is the head and one more bit, or one number in w bits. */
  lemma {:induction false} LongForm(n: nat, x: nat)
    requires 0 < n && NsShort(n) <= x < n
    ensures 0 <= NsHead(n, x) == NsShort(n) + (x - NsShort(n)) / 2
    ensures EncodeNs(n, x) == ToBits(NsWidth(n) - 1, NsHead(n, x)) + [(x - NsShort(n)) % 2 == 1]
    ensures EncodeNs(n, x) == ToBits(NsWidth(n), 2 * NsHead(n, x) + (x - NsShort(n)) % 2)
  {
    hide Pow2, Log2;
    NsBounds(n);
    var w, head, last := NsWidth(n), NsHead(n, x), (x - NsShort(n)) % 2;
    assert (2 * head + last) / 2 == head && (2 * head + last) % 2 == last;
  }

  /** Which values of which ranges come back, given a bit more to read behind the code:
      all of them from 17 on, and below that those under 8 and a few whose two code words
      happen to coincide. */
  lemma {:induction false} SubexpExact(data: seq<bool>, pos: nat, rangeMax: nat, value: nat)
    requires 9 <= rangeMax && value < rangeMax
    requires At(data, pos, EncodeSubexp(rangeMax, value)) && pos + SubexpReach(rangeMax, value) + 1 <= |data|
    ensures DecodeSubexp(data, pos, rangeMax) == Parsed(value, |EncodeSubexp(rangeMax, value)|)
      <==> rangeMax >= 17 || value < 8 || value + rangeMax >= 24
  {
    hide EncodeNs, DecodeNs, DecodeSubexp, EncodeSubexp, SubexpReach, MaxLen, BinOf, NsWidth;
    if rangeMax >= 17 || value < 8 {
      SubexpRoundTrip(data, pos, rangeMax, value);
    } else {
      SmallBin(rangeMax, value);
      SmallDecode(data, pos, rangeMax);
      SmallRange(data, pos, rangeMax, value);
    }
  }

  // ---- leb128 ----

  /** The code of `len` bytes: seven bits each, the lowest first. */
  function EncodeLeb(value: nat, len: nat): (b: seq<bool>)
    ensures |b| == 8 * len
  {
    if len == 0 then []
    else ToBits(8, value % 128 + if len > 1 then 128 else 0) + EncodeLeb(value / 128, len - 1)
  }

  /** The length the writer chooses; av_log2 takes 32 bits. */
  function LebLength(value: nat): nat {
    (Log2(value % 0x1_0000_0000) + 7) / 7
  }

  /** The reader's loop from byte i on: at most eight bytes. */
  function DecodeLebFrom(data: seq<bool>, pos: nat, i: nat): (p: Parse<nat>)
    requires i < 8
    ensures p.Parsed? ==> p.used <= 8 * (8 - i) && pos + p.used <= |data|
    decreases 8 - i
  {
    if pos + 8 > |data| then Bad
    else
      var b := FromBits(data[pos..pos + 8]);
      if b < 128 then Parsed(b, 8)
      else if i == 7 then Parsed(b % 128, 8)
      else
        match DecodeLebFrom(data, pos + 8, i + 1)
        case Bad => Bad
        case Parsed(rest, used) => Parsed(b % 128 + 128 * rest, used + 8)
  }

  /** cbs_av1_read_leb128 */
  function DecodeLeb(data: seq<bool>, pos: nat): (p: Parse<nat>)
    ensures p.Parsed? ==> p.value <= UINT32_MAX
  {
    var p := DecodeLebFrom(data, pos, 0);
    if p.Parsed? && p.value > UINT32_MAX then Bad else p
  }

  /** The loop reads back the groups of seven bits. */
  lemma {:induction false} LebBytes(data: seq<bool>, pos: nat, i: nat, value: nat, len: nat)
    requires 1 <= len <= 8 - i && value < Pow2(7 * len) && At(data, pos, EncodeLeb(value, len))
    ensures DecodeLebFrom(data, pos, i) == Parsed(value, 8 * len)
    decreases len
  {
    hide ToBits, FromBits, Pow2;
    var byte := value % 128 + if len > 1 then 128 else 0;
    Pow2Of7();
    FromTo(8, byte);
    AtConcat(data, pos, ToBits(8, byte), EncodeLeb(value / 128, len - 1));
    if len == 1 {
      assert byte == value;
    } else {
      assert 7 * len == 7 * (len - 1) + 7;
      Pow2Add(7 * (len - 1), 7);
      LebBytes(data, pos + 8, i + 1, value / 128, len - 1);
    }
  }

  lemma {:induction false} Pow2Of7()
    ensures Pow2(7) == 128 && Pow2(8) == 256
  {
  }

  /** The chosen length holds every value of 32 bits, in at most five bytes. */
  lemma {:induction false} LebLengthFits(value: nat)
    requires value <= UINT32_MAX
    ensures 1 <= LebLength(value) <= 5 && value < Pow2(7 * LebLength(value))
  {
    hide Pow2, Log2;
    var len := LebLength(value);
    PowersOfNone();
    if value > 0 {
      Log2Bounds(value);
      CodeLength(value);
      Pow2Monotone(Log2(value) + 1, 7 * len);
    } else {
      Pow2Of7();
    }
  }

  /** The length is the least for what 32 bits keep of the value. */
  lemma {:induction false} LebLengthLeast(value: nat)
    ensures var v, len := value % 0x1_0000_0000, LebLength(value);
      1 <= len <= 5 && v < Pow2(7 * len) && (len > 1 ==> v >= Pow2(7 * (len - 1)))
  {
    hide Pow2, Log2;
    var v, len := value % 0x1_0000_0000, LebLength(value);
    LebLengthFits(v);
    if len > 1 {
      PowersOfNone();
      Log2Bounds(v);
      Pow2Monotone(7 * (len - 1), Log2(v));
    }
  }

  /** The top bit of the j-th byte. */
  predicate GoesOn(data: seq<bool>, pos: nat, j: nat)
    requires pos + 8 * j < |data|
  {
    data[pos + 8 * j]
  }

  /** k bytes up to the first one without its top bit, but no more than `most`. */
  predicate Bytes(data: seq<bool>, pos: nat, k: nat, most: nat) {
    && 1 <= k <= most && pos + 8 * k <= |data|
    && (forall j :: 0 <= j < k - 1 ==> GoesOn(data, pos, j)) && (k < most ==> !GoesOn(data, pos, k - 1))
  }

  lemma {:induction false} OneMoreByte(data: seq<bool>, pos: nat, k: nat, most: nat)
    requires Bytes(data, pos + 8, k, most) && data[pos]
    ensures Bytes(data, pos, k + 1, most + 1)
  {
    assert k < most ==> !GoesOn(data, pos + 8, k - 1);
    forall j: nat | 0 <= j < k ensures GoesOn(data, pos, j) {
      assert j > 0 ==> GoesOn(data, pos + 8, j - 1);
    }
  }

  lemma {:induction false} OneByte(data: seq<bool>, pos: nat, most: nat)
    requires pos + 8 <= |data| && most >= 1 && (most > 1 ==> !data[pos])
    ensures Bytes(data, pos, 1, most)
  {
  }

  /** The reader takes bytes up to the first one without its top bit, but no more than eight. */
  lemma {:induction false} LebUsed(data: seq<bool>, pos: nat)
    requires DecodeLeb(data, pos).Parsed?
    ensures var used := DecodeLeb(data, pos).used;
      used % 8 == 0 && Bytes(data, pos, used / 8, 8)
  {
    LebUsedFrom(data, pos, 0);
  }

  lemma {:induction false} LebUsedFrom(data: seq<bool>, pos: nat, i: nat)
    requires i < 8 && DecodeLebFrom(data, pos, i).Parsed?
    ensures var used := DecodeLebFrom(data, pos, i).used;
      used % 8 == 0 && Bytes(data, pos, used / 8, 8 - i)
    decreases 8 - i
  {
    hide FromBits, Pow2, Bytes;
    HighBit(data[pos..pos + 8]);
    if data[pos] && i < 7 {
      LebUsedFrom(data, pos + 8, i + 1);
      OneMoreByte(data, pos, DecodeLebFrom(data, pos + 8, i + 1).used / 8, 7 - i);
    } else {
      OneByte(data, pos, 8 - i);
    }
  }

  lemma {:induction false} HighBit(b: seq<bool>)
    requires |b| == 8
    ensures FromBits(b) >= 128 <==> b[0]
  {
    hide FromBits, Pow2;
    Pow2Of7();
    assert b == [b[0]] + b[1..];
    FromBitsConcat([b[0]], b[1..]);
    assert [b[0]] == [] + [b[0]];
    FromNothing([]);
    FromBitsSnoc([], b[0]);
  }

  /** Exactly the values of 32 bits survive writing and reading. */
  lemma {:induction false} LebRoundTripIff(data: seq<bool>, pos: nat, value: nat)
    requires At(data, pos, EncodeLeb(value, LebLength(value)))
    ensures DecodeLeb(data, pos) == Parsed(value, 8 * LebLength(value)) <==> value <= UINT32_MAX
  {
    if value <= UINT32_MAX {
      LebLengthFits(value);
      LebBytes(data, pos, 0, value, LebLength(value));
    }
  }
}
