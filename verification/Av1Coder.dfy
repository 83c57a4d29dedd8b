// The readers and writers of the AV1 codes: the functions of cbs_av1.c against Av1Codes.

module Av1Coder {
  import opened Wrappers
  import opened Bits
  import opened Arith
  import opened Golomb
  import opened Av1Codes

  /** How a writer ends. A Misfit is a value that does not fit the width it is put in,
      which put_bits forbids; Aborted is a failed assertion. */
  datatype Status = Done | BadValue | Full | Misfit | Aborted

  // ---- Fixed width ----

  /** ff_cbs_read_unsigned with the full range of the width. */
  method ReadUnsigned(r: BitReader, width: nat) returns (value: Option<nat>)
    requires r.Valid()
    modifies r
    ensures r.Valid()
    ensures old(r.Left()) < width ==> value == None && r.pos == old(r.pos)
    ensures old(r.Left()) >= width
      ==> value == Some(FromBits(r.data[old(r.pos)..old(r.pos) + width])) && r.pos == old(r.pos) + width
  {
    if r.Left() < width {
      return None;
    }
    var v := r.Get(width);
    return Some(v);
  }

  /** ff_cbs_write_unsigned with the full range of the width. */
  method WriteUnsigned(w: BitWriter, width: nat, value: nat) returns (status: Status)
    requires w.Valid()
    modifies w
    ensures w.Valid()
    ensures status == if value >= Pow2(width) then BadValue else if old(w.Left()) < width then Full else Done
    ensures w.bits == old(w.bits) + if status.Done? then ToBits(width, value) else []
  {
    if value >= Pow2(width) {
      return BadValue;
    }
    if w.Left() < width {
      return Full;
    }
    w.Put(width, value);
    return Done;
  }

  // ---- uvlc ----

  /** cbs_av1_read_uvlc */
  method ReadUvlc(r: BitReader, rangeMin: nat, rangeMax: nat) returns (value: Option<nat>)
    requires r.Valid()
    modifies r
    ensures r.Valid()
    ensures var p := DecodeUvlc(r.data, old(r.pos));
      if p.Parsed? && rangeMin <= p.value <= rangeMax then value == Some(p.value) && r.pos == old(r.pos) + p.used
      else value == None
  {
    hide FromBits;
    ghost var start := r.pos;
    var zeroes: nat := 0;
    while true
      invariant r.Valid() && r.pos == start + zeroes
      invariant forall k :: start <= k < start + zeroes ==> !r.data[k]
      decreases r.Left()
    {
      if r.Left() < 1 {
        assert LeadingZeros(r.data, start) == zeroes;
        return None;
      }
      var bit := r.Get1();
      if bit {
        break;
      }
      zeroes := zeroes + 1;
    }
    LeadingZerosIs(r.data, start, zeroes);
    var v: nat;
    if zeroes >= 32 {
      v := UINT32_MAX;
    } else {
      if r.Left() < zeroes {
        return None;
      }
      var bits := r.Get(zeroes);
      v := bits + Pow2(zeroes) - 1;
    }
    if v < rangeMin || v > rangeMax {
      return None;
    }
    return Some(v);
  }

  /** cbs_av1_write_uvlc, which leaves the check for room to its callers. */
  method WriteUvlc(w: BitWriter, value: nat, rangeMin: nat, rangeMax: nat) returns (status: Status)
    requires w.Valid() && value <= UINT32_MAX && |EncodeUe(value)| <= w.Left()
    modifies w
    ensures w.Valid()
    ensures status ==
      if !(rangeMin <= value <= rangeMax) then BadValue else if value == UINT32_MAX then Misfit else Done
    ensures status.BadValue? ==> w.bits == old(w.bits)
    ensures status.Done? ==> w.bits == old(w.bits) + EncodeUe(value)
  {
    hide ToBits, Pow2, Log2, EncodeUe;
    if value < rangeMin || value > rangeMax {
      return BadValue;
    }
    var next := (value + 1) % 0x1_0000_0000;
    var zeroes := Log2(next);
    if value == UINT32_MAX {
      // next is 0, zeroes is 0, and value - 1 + 1 does not fit 0 bits.
      return Misfit;
    }
    UeForm(value);
    PowStep(zeroes);
    ToBitsZero(zeroes);
    OneBit();
    Regroup(w.bits, Zeros(zeroes), [true], ToBits(zeroes, value + 1 - Pow2(zeroes)));
    assert |EncodeUe(value)| == 2 * zeroes + 1;
    w.Put(zeroes, 0);
    w.Put(1, 1);
    w.Put(zeroes, value + 1 - Pow2(zeroes));
    return Done;
  }

  lemma {:induction false} OneBit()
    ensures ToBits(1, 1) == [true] && 1 < Pow2(1)
  {
    assert ToBits(0, 0) == [];
  }

  // ---- leb128 ----

  /** cbs_av1_read_leb128 */
  method ReadLeb(r: BitReader) returns (value: Option<nat>)
    requires r.Valid()
    modifies r
    ensures r.Valid()
    ensures match DecodeLeb(r.data, old(r.pos))
      case Bad => value == None
      case Parsed(v, used) => value == Some(v) && r.pos == old(r.pos) + used
  {
    hide FromBits, Pow2, DecodeLebFrom, Shifted;
    ghost var start := r.pos;
    var v: nat := 0;
    var i := 0;
    ShiftedByNothing(DecodeLebFrom(r.data, start, 0));
    while i < 8
      invariant 0 <= i <= 8 && r.Valid() && r.pos == start + 8 * i
      invariant i == 8 ==> DecodeLebFrom(r.data, start, 0) == Parsed(v, 64)
      invariant i < 8 ==> DecodeLebFrom(r.data, start, 0) == Shifted(v, i, DecodeLebFrom(r.data, r.pos, i))
    {
      LebMore(r.data, start, v, i);
      var byte := ReadUnsigned(r, 8);
      if byte.None? {
        return None;
      }
      v := AddGroup(v, byte.value, i);
      if byte.value < 128 {
        break;
      }
      i := i + 1;
    }
    if v > UINT32_MAX {
      return None;
    }
    return Some(v);
  }

  /** value |= (byte & 0x7f) << (7 * i), where the value has no bits from 7 * i on. */
  function AddGroup(value: nat, byte: nat, i: nat): nat {
    NonNegative(byte % 128, Pow2(7 * i));
    value + byte % 128 * Pow2(7 * i)
  }

  /** What is read behind i bytes that made up `low`. */
  function Shifted(low: nat, i: nat, rest: Parse<nat>): Parse<nat> {
    match rest
    case Bad => Bad
    case Parsed(v, used) =>
      NonNegative(v, Pow2(7 * i));
      Parsed(low + v * Pow2(7 * i), 8 * i + used)
  }

  lemma {:induction false} ShiftedByNothing(p: Parse<nat>)
    ensures Shifted(0, 0, p) == p
  {
    assert Pow2(0) == 1;
  }

  /** A round of the loop. */
  lemma {:induction false} LebMore(data: seq<bool>, start: nat, low: nat, i: nat)
    requires i < 8
    ensures var pos := start + 8 * i;
      Shifted(low, i, DecodeLebFrom(data, pos, i)) ==
      if pos + 8 > |data| then Bad
      else
        var byte := FromBits(data[pos..pos + 8]);
        var next := AddGroup(low, byte, i);
        if byte < 128 || i == 7 then Parsed(next, 8 * (i + 1))
        else Shifted(next, i + 1, DecodeLebFrom(data, pos + 8, i + 1))
  {
    hide FromBits, Pow2, DecodeLebFrom;
    var p, pos := Pow2(7 * i), start + 8 * i;
    LebStep(data, pos, i);
    if pos + 8 <= |data| && i < 7 {
      Pow2Of7();
      assert 7 * (i + 1) == 7 * i + 7;
      Pow2Add(7 * i, 7);
      var rest := DecodeLebFrom(data, pos + 8, i + 1);
      if rest.Parsed? {
        Distribute(FromBits(data[pos..pos + 8]) % 128, rest.value, p);
      }
    }
  }

  lemma {:induction false} LebStep(data: seq<bool>, pos: nat, i: nat)
    requires i < 8
    ensures DecodeLebFrom(data, pos, i) ==
      if pos + 8 > |data| then Bad
      else
        var b := FromBits(data[pos..pos + 8]);
        if b < 128 || i == 7 then Parsed(b % 128, 8)
        else
          match DecodeLebFrom(data, pos + 8, i + 1)
          case Bad => Bad
          case Parsed(rest, used) => Parsed(b % 128 + 128 * rest, used + 8)
  {
    hide FromBits;
  }

  lemma {:induction false} Distribute(b: nat, v: nat, p: nat)
    ensures (b + 128 * v) * p == b * p + v * (p * 128)
  {
  }

  /** cbs_av1_write_leb128 */
  method WriteLeb(w: BitWriter, value: nat) returns (status: Status)
    requires w.Valid()
    modifies w
    ensures w.Valid()
    ensures status == if |EncodeLeb(value, LebLength(value))| <= old(w.Left()) then Done else Full
    ensures status.Done? ==> w.bits == old(w.bits) + EncodeLeb(value, LebLength(value))
  {
    hide ToBits, Pow2;
    var len := (Log2(value % 0x1_0000_0000) + 7) / 7;
    var rest := value;
    for i := 0 to len
      invariant w.Valid() && |w.bits| == old(|w.bits|) + 8 * i
      invariant w.bits + EncodeLeb(rest, len - i) == old(w.bits) + EncodeLeb(value, len)
    {
      var byte := rest % 128 + if i < len - 1 then 128 else 0;
      Pow2Of7();
      assert EncodeLeb(rest, len - i) == ToBits(8, byte) + EncodeLeb(rest / 128, len - i - 1);
      assert w.bits + (ToBits(8, byte) + EncodeLeb(rest / 128, len - i - 1))
        == w.bits + ToBits(8, byte) + EncodeLeb(rest / 128, len - i - 1);
      status := WriteUnsigned(w, 8, byte);
      if status != Done {
        return;
      }
      rest := rest / 128;
    }
    return Done;
  }

  // ---- ns(n) ----

  /** cbs_av1_read_ns, for the n whose shift 1 << w is defined. */
  method ReadNs(r: BitReader, n: nat) returns (value: Option<nat>)
    requires r.Valid() && 0 < n < 0x8000_0000
    modifies r
    ensures r.Valid()
    ensures match DecodeNs(r.data, old(r.pos), n)
      case Bad => value == None
      case Parsed(v, used) => value == Some(v) && r.pos == old(r.pos) + used
  {
    hide Pow2, Log2, FromBits;
    NsBounds(n);
    var w := Log2(n) + 1;
    var m := Pow2(w) - n;
    if r.Left() < w {
      return None;
    }
    var v: nat := 0;
    if w - 1 > 0 {
      v := r.Get(w - 1);
    } else {
      assert FromBits(r.data[r.pos..r.pos]) == 0 by { FromNothing(r.data[r.pos..r.pos]); }
    }
    if v < m {
      return Some(v);
    }
    var extra := r.Get1();
    return Some(2 * v - m + if extra then 1 else 0);
  }

  /** cbs_av1_write_ns. The value n passes the check and does not fit. */
  method WriteNs(w: BitWriter, n: nat, value: nat) returns (status: Status)
    requires w.Valid() && 0 < n < 0x8000_0000
    modifies w
    ensures w.Valid()
    ensures status ==
      if value > n then BadValue
      else if old(w.Left()) < NsWidth(n) then Full
      else if value == n then Misfit else Done
    ensures w.bits == old(w.bits) + if status.Done? then EncodeNs(n, value) else []
  {
    hide Pow2, Log2, ToBits;
    if value > n {
      return BadValue;
    }
    NsBounds(n);
    NsHeadFits(n, value);
    var width := Log2(n) + 1;
    var m := Pow2(width) - n;
    if w.Left() < width {
      return Full;
    }
    if value < m {
      if value >= Pow2(width - 1) {
        return Misfit;
      }
      w.Put(width - 1, value);
      assert ToBits(width - 1, value) + [] == ToBits(width - 1, value);
    } else {
      var v, extra := m + (value - m) / 2, (value - m) % 2;
      if v >= Pow2(width - 1) {
        return Misfit;
      }
      w.Put(width - 1, v);
      BitOf(extra);
      w.Put(1, extra);
    }
    return Done;
  }

  lemma {:induction false} BitOf(x: nat)
    requires x < 2
    ensures x < Pow2(1) && ToBits(1, x) == [x == 1]
  {
    assert ToBits(0, 0) == [];
  }

  // ---- increment ----

  /** cbs_av1_read_increment, whose assertion bounds the range. */
  method ReadIncrement(r: BitReader, min: nat, max: nat) returns (value: Option<nat>)
    requires r.Valid() && min <= max && max - min < 32
    modifies r
    ensures r.Valid()
    ensures match DecodeIncrement(r.data, old(r.pos), min, max)
      case Bad => value == None
      case Parsed(v, used) => value == Some(v) && r.pos == old(r.pos) + used
  {
    ghost var start := r.pos;
    var v := min;
    while v < max
      invariant min <= v <= max && r.Valid() && r.pos == start + (v - min)
      invariant DecodeIncrement(r.data, start, min, max) == BehindOnes(v - min, DecodeIncrement(r.data, r.pos, v, max))
    {
      if r.Left() < 1 {
        return None;
      }
      var bit := r.Get1();
      if !bit {
        break;
      }
      v := v + 1;
    }
    return Some(v);
  }

  function BehindOnes(taken: nat, rest: Parse<nat>): Parse<nat> {
    match rest
    case Bad => Bad
    case Parsed(v, used) => Parsed(v, taken + used)
  }

  /** cbs_av1_write_increment */
  method WriteIncrement(w: BitWriter, min: nat, max: nat, value: nat) returns (status: Status)
    requires w.Valid() && min <= max && max - min < 32
    modifies w
    ensures w.Valid()
    ensures status ==
      if !(min <= value <= max) then BadValue
      else if old(w.Left()) < |EncodeIncrement(min, max, value)| then Full else Done
    ensures w.bits == old(w.bits) + if status.Done? then EncodeIncrement(min, max, value) else []
  {
    hide Pow2, ToBits;
    if value < min || value > max {
      return BadValue;
    }
    var len := if value == max then max - min else value - min + 1;
    if w.Left() < len {
      return Full;
    }
    IncrementBits(min, max, value);
    if len > 0 {
      w.Put(len, Pow2(len) - 1 - if value != max then 1 else 0);
    }
    return Done;
  }

  // ---- subexp ----

  /** cbs_av1_read_subexp. Below 9 an assertion fails before anything is read. */
  method ReadSubexp(r: BitReader, rangeMax: nat) returns (value: Option<nat>)
    requires r.Valid() && 9 <= rangeMax <= 0x8000_0000
    modifies r
    ensures r.Valid()
    ensures match DecodeSubexp(r.data, old(r.pos), rangeMax)
      case Bad => value == None
      case Parsed(v, used) => value == Some(v) && r.pos == old(r.pos) + used
  {
    hide Pow2, Log2, FromBits, DecodeIncrement, DecodeNs, EncodeIncrement;
    var maxLen := MaxLen(rangeMax);
    MaxLenSmall(rangeMax);
    MaxLenNone(rangeMax);
    var len := ReadIncrement(r, 0, maxLen);
    if len.None? {
      return None;
    }
    var bits, offset := 3, 0;
    if len.value != 0 {
      bits := 2 + len.value;
      offset := Pow2(bits);
    }
    BinAtBounds(rangeMax, len.value);
    var v: Option<nat>;
    if len.value < maxLen {
      v := ReadUnsigned(r, bits);
    } else {
      v := ReadNs(r, rangeMax - offset);
    }
    if v.None? {
      return None;
    }
    return Some(v.value + offset);
  }

  /** Without a longer bin the range is small. */
  lemma {:induction false} MaxLenNone(rangeMax: nat)
    requires 9 <= rangeMax
    ensures MaxLen(rangeMax) == 0 ==> rangeMax <= 16
  {
    Log2Bounds(rangeMax - 1);
    assert Pow2(4) == 16;
  }

  lemma {:induction false} MaxLenSmall(rangeMax: nat)
    requires 9 <= rangeMax <= 0x8000_0000
    ensures MaxLen(rangeMax) <= 27
  {
    Pow2Of31();
    Log2Bounds(rangeMax - 1);
    if Log2(rangeMax - 1) >= 31 {
      Pow2Monotone(31, Log2(rangeMax - 1));
    }
  }

  /** cbs_av1_write_subexp, on every range of up to 32 bits that keeps the shifts defined.
      Written values are coded as EncodeSubexp says; the value rangeMax passes the check
      and then either fails the assertion or does not fit. */
  method WriteSubexp(w: BitWriter, rangeMax: nat, value: nat) returns (status: Status)
    requires w.Valid() && rangeMax <= 0x8000_0000
    modifies w
    ensures w.Valid()
    ensures value > rangeMax ==> status == BadValue && w.bits == old(w.bits)
    ensures value <= rangeMax < 9 ==> status == Aborted
    ensures value == rangeMax >= 9 ==> status in {Aborted, Misfit, Full}
    ensures value == rangeMax >= 9 ==> (status == Aborted <==> rangeMax == Pow2(Log2(rangeMax)))
    ensures value < rangeMax && rangeMax >= 9
      ==> status == if SubexpReach(rangeMax, value) <= old(w.Left()) then Done else Full
    ensures value < rangeMax && rangeMax >= 9 && status.Done? ==> w.bits == old(w.bits) + EncodeSubexp(rangeMax, value)
  {
    hide Pow2, Log2, ToBits, EncodeIncrement, EncodeNs, BinOf, MaxLen, NsWidth;
    if value > rangeMax {
      return BadValue;
    }
    if rangeMax < 9 {
      // max_len wraps, or rangeMax is 0: an assertion fails.
      return Aborted;
    }
    MaxLenSmall(rangeMax);
    MaxLenNone(rangeMax);
    var bin := ChooseBin(rangeMax, value);
    if bin.None? {
      return Aborted;
    }
    var maxLen, b := MaxLen(rangeMax), bin.value;
    status := WriteIncrement(w, 0, maxLen, b.len);
    if status != Done {
      return;
    }
    if b.len < maxLen {
      status := WriteUnsigned(w, b.bits, value - b.offset);
    } else {
      status := WriteNs(w, rangeMax - b.offset, value - b.offset);
    }
  }

  /** The choice of the bin, whose assertion fails only for the value rangeMax. */
  method ChooseBin(rangeMax: nat, value: nat) returns (bin: Option<Bin>)
    requires 9 <= rangeMax && value <= rangeMax
    ensures bin.None? <==> value == rangeMax == Pow2(Log2(rangeMax))
    ensures bin.Some? ==> bin.value == BinOf(rangeMax, value)
    ensures bin.Some? ==> bin.value.len <= MaxLen(rangeMax) && bin.value.offset < rangeMax && bin.value.offset <= value
    ensures bin.Some? && value == rangeMax ==> bin.value.len == MaxLen(rangeMax)
    ensures bin.Some? && bin.value.offset == 0 ==> bin.value.len == 0
    ensures value < rangeMax && bin.value.len < MaxLen(rangeMax) ==> value - bin.value.offset < Pow2(bin.value.bits)
  {
    hide Pow2, Log2;
    var maxLen := MaxLen(rangeMax);
    if value < 8 {
      BinBounds(rangeMax, value);
      return Some(Bin(0, 3, 0));
    }
    EightOrMore(value);
    var bits := Log2(value);
    var len := bits - 2;
    if value < rangeMax {
      TopBinIsNext(rangeMax, value);
      BinBounds(rangeMax, value);
    } else {
      TopBinFails(rangeMax);
      TopValue(rangeMax);
    }
    if len > maxLen {
      if len != maxLen + 1 {
        return None;
      }
      bits := bits - 1;
      len := maxLen;
    }
    return Some(Bin(len, bits, Pow2(bits)));
  }

  /** The bin the value rangeMax would get. */
  lemma {:induction false} TopValue(rangeMax: nat)
    requires 9 <= rangeMax
    ensures Log2(rangeMax) - 2 > MaxLen(rangeMax)
    ensures Pow2(Log2(rangeMax) - 1) < rangeMax
  {
    Log2Monotone(rangeMax - 1, rangeMax);
    EightOrMore(rangeMax);
    Log2Bounds(rangeMax);
  }
}
