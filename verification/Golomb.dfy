// Exp-Golomb codes (section 9.1 of ITU-T H.264): the four functions of cbs_h2645.c.

module Golomb {
  import opened Wrappers
  import opened Bits

  const UINT32_MAX: nat := 0xFFFF_FFFF
  const INT32_MAX: int := 0x7FFF_FFFF

  /** The number of zero bits from the position to the first one bit. */
  function LeadingZeros(data: seq<bool>, pos: nat): (z: nat)
    requires pos <= |data|
    ensures pos + z <= |data|
    ensures forall i :: pos <= i < pos + z ==> !data[i]
    ensures pos + z < |data| ==> data[pos + z]
    decreases |data| - pos
  {
    if pos == |data| || data[pos] then 0 else 1 + LeadingZeros(data, pos + 1)
  }

  lemma {:induction false} LeadingZerosIs(data: seq<bool>, pos: nat, z: nat)
    requires pos + z < |data| && data[pos + z] && forall i :: pos <= i < pos + z ==> !data[i]
    ensures LeadingZeros(data, pos) == z
  {
  }

  /** The ue(v) code word of section 9.1: a prefix of zeros, then codeNum + 1. */
  function EncodeUe(codeNum: nat): (b: seq<bool>)
    ensures |b| == 2 * Log2(codeNum + 1) + 1
  {
    var len := Log2(codeNum + 1);
    Zeros(len) + ToBits(len + 1, codeNum + 1)
  }

  /** Section 9.1: codeNum = 2^leadingZeroBits - 1 + read_bits(leadingZeroBits), for
      at most 31 leading zeros. */
  function DecodeUe(data: seq<bool>, pos: nat): (p: Parse<nat>)
    requires pos <= |data|
    ensures p.Parsed? ==> 1 <= p.used <= |data| - pos && p.value < UINT32_MAX
  {
    var z := LeadingZeros(data, pos);
    if z >= 32 || pos + 2 * z + 1 > |data| then Bad
    else
      assert Pow2(z) <= 0x8000_0000 by { Pow2Monotone(z, 31); Pow2Of31(); }
      Parsed(Pow2(z) - 1 + FromBits(data[pos + z + 1..pos + 2 * z + 1]), 2 * z + 1)
  }

  lemma {:induction false} Pow2Of31()
    ensures Pow2(31) == 0x8000_0000
  {
    assert Pow2(8) == 256;
    Pow2Add(8, 8);
    Pow2Add(16, 8);
    assert Pow2(7) == 128;
    Pow2Add(24, 7);
  }

  /** Table 9-3: the signed value of a code number. */
  function SignedOf(codeNum: nat): int {
    if codeNum % 2 == 1 then (codeNum + 1) / 2 else -(codeNum / 2)
  }

  function CodeNumOf(value: int): nat {
    if value > 0 then 2 * value - 1 else -2 * value
  }

  lemma {:induction false} SignedOfCodeNum(value: int)
    ensures SignedOf(CodeNumOf(value)) == value
    ensures -INT32_MAX <= value <= INT32_MAX ==> CodeNumOf(value) < UINT32_MAX
  {
  }

  /** The signed value of the code word's number, which is one more than the code number. */
  lemma {:induction false} SignedOfCode(v: nat)
    requires v > 0
    ensures SignedOf(v - 1) == if v % 2 == 1 then -((v / 2) as int) else v / 2
  {
  }

  /** A one bit after a prefix doubles as the top bit of the suffix. */
  lemma {:induction false} TopBit(z: nat, v: nat)
    requires Pow2(z) <= v < Pow2(z + 1)
    ensures ToBits(z + 1, v) == [true] + ToBits(z, v - Pow2(z))
  {
    ToBitsSplit(1, z, 1, v - Pow2(z));
    assert ToBits(1, 1) == [true] by { assert ToBits(0, 0) == []; }
  }

  lemma {:induction false} CodeLength(v: nat)
    requires 0 < v <= UINT32_MAX
    ensures Log2(v) < 32
  {
    Log2Bounds(v);
    Pow2Of31();
    assert Pow2(32) == 2 * Pow2(31);
    if Log2(v) >= 32 {
      Pow2Monotone(32, Log2(v));
      assert false;
    }
  }

  /** A code word is its zeros, a one bit and the bits of codeNum + 1 below the top. */
  lemma {:induction false} UeForm(codeNum: nat)
    ensures var z := Log2(codeNum + 1);
      && Pow2(z) <= codeNum + 1 < Pow2(z + 1)
      && EncodeUe(codeNum) == Zeros(z) + ([true] + ToBits(z, codeNum + 1 - Pow2(z)))
  {
    Log2Bounds(codeNum + 1);
    TopBit(Log2(codeNum + 1), codeNum + 1);
  }

  /** Every code number below 2^32 - 1 survives writing and reading, wherever its code
      word stands and whatever follows it. */
  lemma {:induction false} UeRoundTrip(data: seq<bool>, pos: nat, codeNum: nat)
    requires codeNum < UINT32_MAX && At(data, pos, EncodeUe(codeNum))
    ensures DecodeUe(data, pos) == Parsed(codeNum, 2 * Log2(codeNum + 1) + 1)
  {
    hide Log2, Pow2, ToBits, FromBits, EncodeUe, DecodeUe;
    var z := Log2(codeNum + 1);
    CodeLength(codeNum + 1);
    UeForm(codeNum);
    PowStep(z);
    var suffix := ToBits(z, codeNum + 1 - Pow2(z));
    UeShape(data, pos, z, suffix);
    FromTo(z, codeNum + 1 - Pow2(z));
  }

  /** What the decoder makes of a prefix of zeros, a one bit and a suffix. */
  lemma {:induction false} UeShape(data: seq<bool>, pos: nat, z: nat, suffix: seq<bool>)
    requires z < 32 && |suffix| == z && At(data, pos, Zeros(z) + ([true] + suffix))
    ensures DecodeUe(data, pos) == Parsed(Pow2(z) - 1 + FromBits(suffix), 2 * z + 1)
  {
    hide Pow2, FromBits, LeadingZeros;
    AtConcat(data, pos, Zeros(z), [true] + suffix);
    AtConcat(data, pos + z, [true], suffix);
    assert data[pos + z] by { assert data[pos + z..pos + z + 1][0]; }
    assert data[pos + z + 1..pos + 2 * z + 1] == suffix;
    forall i | pos <= i < pos + z ensures !data[i] {
      assert data[pos..pos + z][i - pos] == Zeros(z)[i - pos];
    }
    LeadingZerosIs(data, pos, z);
  }

  /** The reader accepts nothing but what the writer produces. */
  lemma {:induction false} UeCanonical(data: seq<bool>, pos: nat)
    requires pos <= |data| && DecodeUe(data, pos).Parsed?
    ensures At(data, pos, EncodeUe(DecodeUe(data, pos).value))
    ensures |EncodeUe(DecodeUe(data, pos).value)| == DecodeUe(data, pos).used
  {
    var z := LeadingZeros(data, pos);
    var suffix := data[pos + z + 1..pos + 2 * z + 1];
    var codeNum := DecodeUe(data, pos).value;
    Log2Unique(codeNum + 1, z);
    UeForm(codeNum);
    ToFrom(suffix);
    UeBits(data, pos, z, suffix);
  }

  lemma {:induction false} UeBits(data: seq<bool>, pos: nat, z: nat, suffix: seq<bool>)
    requires pos + z < |data| && data[pos + z] && forall i :: pos <= i < pos + z ==> !data[i]
    requires |suffix| == z && pos + 2 * z + 1 <= |data| && suffix == data[pos + z + 1..pos + 2 * z + 1]
    ensures At(data, pos, Zeros(z) + ([true] + suffix))
  {
    AtConcat(data, pos + z, [true], suffix);
    AtConcat(data, pos, Zeros(z), [true] + suffix);
  }

  /** Every signed value from -(2^31 - 1) to 2^31 - 1 survives writing and reading. */
  lemma {:induction false} SeRoundTrip(data: seq<bool>, pos: nat, value: int)
    requires -0x7FFF_FFFF <= value <= 0x7FFF_FFFF && At(data, pos, EncodeUe(CodeNumOf(value)))
    ensures var p := DecodeUe(data, pos);
      p.Parsed? && SignedOf(p.value) == value && p.used == |EncodeUe(CodeNumOf(value))|
  {
    SignedOfCodeNum(value);
    UeRoundTrip(data, pos, CodeNumOf(value));
  }

  /** The prefix loop shared by the two readers: `value` is codeNum + 1.
      The length check before each prefix bit also covers the suffix bits. */
  method ReadCode(r: BitReader) returns (code: Option<nat>)
    requires r.Valid()
    modifies r
    ensures r.Valid()
    ensures var p := DecodeUe(r.data, old(r.pos));
      if p.Bad? then code == None
      else code == Some(p.value + 1) && r.pos == old(r.pos) + p.used
  {
    var start := r.pos;
    var i := 0;
    while i < 32
      invariant 0 <= i <= 32 && r.Valid() && r.pos == start + i
      invariant 2 * i <= |r.data| - start + 1 && forall k :: start <= k < start + i ==> !r.data[k]
    {
      if r.Left() < i + 1 {
        return None;
      }
      var k := r.Get1();
      if k {
        break;
      }
      i := i + 1;
    }
    if i >= 32 {
      return None;
    }
    LeadingZerosIs(r.data, start, i);
    var value := ReadSuffix(r, i);
    return Some(value);
  }

  /** The suffix loop of ReadCode, entered with the leading one bit already taken. */
  method ReadSuffix(r: BitReader, i: nat) returns (value: nat)
    requires r.Valid() && i <= r.Left()
    modifies r
    ensures r.Valid() && r.pos == old(r.pos) + i
    ensures value == Pow2(i) + FromBits(r.data[old(r.pos)..r.pos])
  {
    hide Pow2, FromBits;
    PowersOfNone();
    FromNothing(r.data[r.pos..r.pos]);
    var start := r.pos;
    value := 1;
    var j := 0;
    while j < i
      invariant 0 <= j <= i && r.Valid() && r.pos == start + j
      invariant value == Pow2(j) + FromBits(r.data[start..start + j])
    {
      var k := r.Get1();
      assert r.data[start..start + j + 1] == r.data[start..start + j] + [k];
      FromBitsSnoc(r.data[start..start + j], k);
      PowStep(j);
      value := 2 * value + if k then 1 else 0;
      j := j + 1;
    }
  }

  /** cbs_read_ue_golomb */
  method ReadUe(r: BitReader, rangeMin: nat, rangeMax: nat) returns (value: Option<nat>)
    requires r.Valid()
    modifies r
    ensures r.Valid()
    ensures value == UeResult(DecodeUe(r.data, old(r.pos)), rangeMin, rangeMax)
    ensures value.Some? ==> r.pos == old(r.pos) + DecodeUe(r.data, old(r.pos)).used
  {
    var code := ReadCode(r);
    if code.None? {
      return None;
    }
    var v := code.value - 1;
    if v < rangeMin || v > rangeMax {
      return None;
    }
    return Some(v);
  }

  function UeResult(p: Parse<nat>, rangeMin: nat, rangeMax: nat): Option<nat> {
    if p.Parsed? && rangeMin <= p.value <= rangeMax then Some(p.value) else None
  }

  /** cbs_read_se_golomb */
  method ReadSe(r: BitReader, rangeMin: int, rangeMax: int) returns (value: Option<int>)
    requires r.Valid()
    modifies r
    ensures r.Valid()
    ensures var p := DecodeUe(r.data, old(r.pos));
      if p.Parsed? && rangeMin <= SignedOf(p.value) <= rangeMax
      then value == Some(SignedOf(p.value)) && r.pos == old(r.pos) + p.used
      else value == None
  {
    hide DecodeUe, SignedOf;
    var code := ReadCode(r);
    if code.None? {
      return None;
    }
    var v := code.value;
    SignedOfCode(v);
    var signed := if v % 2 == 1 then -((v / 2) as int) else v / 2;
    if signed < rangeMin || signed > rangeMax {
      return None;
    }
    return Some(signed);
  }

  datatype WriteStatus = Written | OutOfRange | NoSpace

  /** The writers' common tail: the length check and the two put_bits calls. */
  method WriteCode(w: BitWriter, code: nat) returns (status: WriteStatus)
    requires w.Valid() && code < UINT32_MAX
    modifies w
    ensures w.Valid()
    ensures status == if |EncodeUe(code)| <= old(w.Left()) then Written else NoSpace
    ensures w.bits == old(w.bits) + if status.Written? then EncodeUe(code) else []
  {
    var len := Log2(code + 1);
    if w.Left() < 2 * len + 1 {
      return NoSpace;
    }
    Log2Bounds(code + 1);
    ToBitsZero(len);
    w.Put(len, 0);
    w.Put(len + 1, code + 1);
    return Written;
  }

  /** cbs_write_ue_golomb, which asserts that the value is not UINT32_MAX. */
  method WriteUe(w: BitWriter, value: nat, rangeMin: nat, rangeMax: nat) returns (status: WriteStatus)
    requires w.Valid() && (rangeMin <= value <= rangeMax ==> value < UINT32_MAX)
    modifies w
    ensures w.Valid()
    ensures status ==
      if !(rangeMin <= value <= rangeMax) then OutOfRange
      else if |EncodeUe(value)| <= old(w.Left()) then Written else NoSpace
    ensures w.bits == old(w.bits) + if status.Written? then EncodeUe(value) else []
  {
    if value < rangeMin || value > rangeMax {
      return OutOfRange;
    }
    status := WriteCode(w, value);
  }

  /** cbs_write_se_golomb, which asserts that the value is not INT32_MIN. */
  method WriteSe(w: BitWriter, value: int, rangeMin: int, rangeMax: int) returns (status: WriteStatus)
    requires w.Valid() && (rangeMin <= value <= rangeMax ==> -INT32_MAX <= value <= INT32_MAX)
    modifies w
    ensures w.Valid()
    ensures status ==
      if !(rangeMin <= value <= rangeMax) then OutOfRange
      else if |EncodeUe(CodeNumOf(value))| <= old(w.Left()) then Written else NoSpace
    ensures w.bits == old(w.bits) + if status.Written? then EncodeUe(CodeNumOf(value)) else []
  {
    if value < rangeMin || value > rangeMax {
      return OutOfRange;
    }
    var uvalue := if value == 0 then 0 else if value > 0 then 2 * value - 1 else 2 * -value;
    status := WriteCode(w, uvalue);
  }
}
