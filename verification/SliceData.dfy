// Slice data behind a rewritten slice header: cbs_h2645_write_slice_data, which moves the
// payload bits to the writer's alignment.

module SliceData {
  import opened Bits
  import opened Arith

  /** The bits up to and including the last 1 bit. */
  function Trimmed(b: seq<bool>): (r: seq<bool>)
    ensures |r| <= |b| && r == b[..|r|]
    ensures |r| > 0 ==> r[|r| - 1]
    ensures forall i :: |r| <= i < |b| ==> !b[i]
  {
    if |b| > 0 && !b[|b| - 1] then Trimmed(b[..|b| - 1]) else b
  }

  /** The bits of the slice data from `start` on. */
  function Rest(data: seq<byte>, start: nat): (b: seq<bool>)
    requires start <= 8 * |data|
    ensures |b| == 8 * |data| - start
  {
    BytesBits(data)[start..]
  }

  /** The final byte, less the bits before `start`. */
  function FinalByte(data: seq<byte>, start: nat): nat
    requires start / 8 < |data|
  {
    var last := |data| - 1;
    if start / 8 == last then data[last] % Pow2(8 - start % 8) else data[last]
  }

  lemma {:induction false} LowPart(v: byte, r: nat)
    requires r <= 8
    ensures ToBits(8, v)[r..] == ToBits(8 - r, v % Pow2(8 - r)) && v % Pow2(8 - r) < Pow2(8 - r)
  {
    hide Pow2, ToBits;
    var p := Pow2(8 - r);
    NonNegativeQuotient(v, p);
    assert v == v / p * p + v % p;
    ToBitsSplit(r, 8 - r, v / p, v % p);
  }

  lemma {:induction false} FirstByte(b: byte, rest: seq<byte>)
    ensures BytesBits([b] + rest) == ToBits(8, b) + BytesBits(rest)
  {
    assert ([b] + rest)[1..] == rest;
  }

  /** The source bits are the low bits of the first byte, then the later bytes. */
  lemma {:induction false} RestForm(data: seq<byte>, start: nat)
    requires start / 8 < |data|
    ensures Rest(data, start)
      == ToBits(8 - start % 8, data[start / 8] % Pow2(8 - start % 8)) + BytesBits(data[start / 8 + 1..])
  {
    hide ToBits, BytesBits, Pow2;
    var k, r := start / 8, start % 8;
    assert data == data[..k] + ([data[k]] + data[k + 1..]);
    BytesBitsConcat(data[..k], [data[k]] + data[k + 1..]);
    FirstByte(data[k], data[k + 1..]);
    LowPart(data[k], r);
    var whole := BytesBits(data[..k]) + (ToBits(8, data[k]) + BytesBits(data[k + 1..]));
    assert BytesBits(data) == whole;
    assert whole[start..] == ToBits(8, data[k])[r..] + BytesBits(data[k + 1..]);
  }

  lemma {:induction false} TrimmedIs(b: seq<bool>, z: nat)
    requires |b| > 0 && b[|b| - 1]
    ensures Trimmed(b + Zeros(z)) == b
  {
    var whole := b + Zeros(z);
    var r := Trimmed(whole);
    assert whole[|b| - 1] && whole[..|b|] == b;
    if |r| > |b| {
      assert false;
    }
  }

  /** A nonzero number is its bits down to the last 1 bit, then as many zeros as ff_ctz
      counts. */
  lemma {:induction false} TrailingZerosForm(width: nat, v: nat)
    requires 0 < v < Pow2(width)
    ensures var i := TrailingZeros(v);
      && i < width && 0 < v / Pow2(i) < Pow2(width - i)
      && ToBits(width, v) == ToBits(width - i, v / Pow2(i)) + Zeros(i)
      && ToBits(width - i, v / Pow2(i))[width - i - 1]
  {
    if v % 2 == 1 {
      assert v / Pow2(0) == v;
    } else {
      TrailingZerosForm(width - 1, v / 2);
      var i := TrailingZeros(v / 2);
      HalfTwice(v, Pow2(i));
      assert Zeros(i + 1) == Zeros(i) + [false];
      var head := ToBits(width - 1 - i, v / 2 / Pow2(i));
      assert head + Zeros(i) + [false] == head + (Zeros(i) + [false]);
    }
  }

  /** Masking off high bits does not change the count of trailing zeros. */
  lemma {:induction false} TrailingZerosMasked(v: nat, m: nat)
    requires v % Pow2(m) != 0
    ensures v != 0 && TrailingZeros(v) == TrailingZeros(v % Pow2(m))
    decreases m
  {
    hide TrailingZeros, Pow2;
    if m == 0 {
      PowersOfNone();
    } else {
      var masked := v % Pow2(m);
      PowStep(m - 1);
      HalfMod(v, Pow2(m - 1));
      TrailingZerosStep(v);
      TrailingZerosStep(masked);
      if v % 2 == 0 {
        TrailingZerosMasked(v / 2, m - 1);
      }
    }
  }

  lemma {:induction false} TrailingZerosStep(v: nat)
    requires v != 0
    ensures TrailingZeros(v) == if v % 2 == 1 then 0 else 1 + TrailingZeros(v / 2)
  {
  }

  /** The final byte put without its trailing zeros ends in the last 1 bit of the data. */
  lemma {:induction false} TrimmedEnd(front: seq<bool>, width: nat, v: nat)
    requires 0 < v < Pow2(width)
    ensures var i := TrailingZeros(v);
      && i < width && v / Pow2(i) < Pow2(width - i)
      && Trimmed(front + ToBits(width, v)) == front + ToBits(width - i, v / Pow2(i))
  {
    TrailingZerosForm(width, v);
    var i := TrailingZeros(v);
    var head := front + ToBits(width - i, v / Pow2(i));
    assert front + ToBits(width, v) == head + Zeros(i);
    TrimmedIs(head, i);
  }

  lemma {:induction false} TrimmedOf(width: nat, v: nat, i: nat)
    requires 0 < v < Pow2(width) && i == TrailingZeros(v)
    ensures i < width && v / Pow2(i) < Pow2(width - i)
    ensures Trimmed(ToBits(width, v)) == ToBits(width - i, v / Pow2(i))
  {
    hide ToBits, Pow2, Trimmed, TrailingZeros;
    TrimmedEnd([], width, v);
    NonNegativeQuotient(v, Pow2(i));
    var head := ToBits(width - i, v / Pow2(i));
    assert [] + ToBits(width, v) == ToBits(width, v) && [] + head == head;
  }

  /** When the writer is aligned, plain copying meets the promise exactly when the final
      byte is nonzero. */
  lemma {:induction false} CopyMeets(before: seq<bool>, data: seq<byte>, start: nat)
    requires start / 8 < |data| && (|before| + |Rest(data, start)|) % 8 == 0
    requires start % 8 != 0 ==> start / 8 + 1 < |data|
    ensures before + Rest(data, start) == PaddedToByte(before + Trimmed(Rest(data, start)))
      <==> FinalByte(data, start) != 0
  {
    hide ToBits, Trimmed, PaddedToByte, Rest;
    var rest := Rest(data, start);
    LastByteOf(data, start);
    if FinalByte(data, start) != 0 {
      CopyEnd(rest[..|rest| - 8], data[|data| - 1]);
      SamePadding(before, rest);
    } else {
      CopyZeroByte(before, rest);
    }
  }

  /** The bytes 80 00, copied by an aligned writer, keep a byte of zeros that the promise
      does not have. */
  lemma {:induction false} ZeroByteCopied()
    ensures FinalByte([0x80, 0], 0) == 0
    ensures Rest([0x80, 0], 0) != PaddedToByte(Trimmed(Rest([0x80, 0], 0)))
  {
    hide Trimmed, PaddedToByte, Rest;
    LastByteOf([0x80, 0], 0);
    assert |Rest([0x80, 0], 0)| == 16;
    CopyMeets([], [0x80, 0], 0);
    assert [] + Rest([0x80, 0], 0) == Rest([0x80, 0], 0);
    assert [] + Trimmed(Rest([0x80, 0], 0)) == Trimmed(Rest([0x80, 0], 0));
  }

  lemma {:induction false} CopyEnd(front: seq<bool>, v: byte)
    requires v != 0
    ensures |Trimmed(front + ToBits(8, v))| > |front|
  {
    assert Pow2(8) == 256;
    TrimmedEnd(front, 8, v);
  }

  /** A zero byte at the end is more than padding. */
  lemma {:induction false} CopyZeroByte(before: seq<bool>, rest: seq<bool>)
    requires (|before| + |rest|) % 8 == 0 && |rest| >= 8
    requires rest == rest[..|rest| - 8] + ToBits(8, 0)
    ensures before + rest != PaddedToByte(before + Trimmed(rest))
  {
    ToBitsZero(8);
    var t := Trimmed(rest);
    if |t| > |rest| - 8 {
      assert false;
    }
    assert |PaddedToByte(before + t)| < |before + rest|;
  }

  lemma {:induction false} LastByteOf(data: seq<byte>, start: nat)
    requires |data| > 0 && start <= 8 * (|data| - 1)
    ensures FinalByte(data, start) == data[|data| - 1]
    ensures |Rest(data, start)| >= 8
    ensures Rest(data, start) == Rest(data, start)[..|Rest(data, start)| - 8] + ToBits(8, data[|data| - 1])
  {
    hide ToBits, Pow2, BytesBits;
    var n := |data| - 1;
    Pow2Bytes();
    assert data == data[..n] + [data[n]];
    BytesBitsConcat(data[..n], [data[n]]);
    OneByte(data[n]);
  }

  lemma {:induction false} OneByte(b: byte)
    ensures BytesBits([b]) == ToBits(8, b)
  {
    assert [b][1..] == [];
  }

  lemma {:induction false} PadLength(n: nat, pad: nat)
    requires (n + pad) % 8 == 0 && pad < 8
    ensures pad == if n % 8 == 0 then 0 else 8 - n % 8
  {
  }

  /** Fewer than eight zeros after the last 1 bit, up to a byte boundary, are the padding. */
  lemma {:induction false} SamePadding(before: seq<bool>, rest: seq<bool>)
    requires (|before| + |rest|) % 8 == 0 && |rest| - |Trimmed(rest)| < 8
    ensures before + rest == PaddedToByte(before + Trimmed(rest))
  {
    hide Trimmed, PaddedToByte;
    var t, pad := Trimmed(rest), |rest| - |Trimmed(rest)|;
    assert rest == t + Zeros(pad);
    Regroup([], before, t, Zeros(pad));
    PaddedForm(before + t);
    PadLength(|before + t|, pad);
    assert (before + t) + Zeros(0) == before + t;
  }

  // ---- The writer ----

  datatype Status = Written | NoSpace | Aborted

  /** AV_RB32 */
  function Rb32(a: byte, b: byte, c: byte, d: byte): nat {
    ((a * 256 + b) * 256 + c) * 256 + d
  }

  /** The 32 bits of a big-endian word are those of its bytes. */
  lemma {:induction false} Rb32Bits(a: byte, b: byte, c: byte, d: byte)
    ensures Rb32(a, b, c, d) < Pow2(32)
    ensures ToBits(32, Rb32(a, b, c, d)) == ToBits(8, a) + ToBits(8, b) + ToBits(8, c) + ToBits(8, d)
  {
    hide ToBits, Pow2;
    Pow2Bytes();
    ToBitsSplit(8, 8, a, b);
    ToBitsSplit(16, 8, a * 256 + b, c);
    ToBitsSplit(24, 8, (a * 256 + b) * 256 + c, d);
  }

  lemma {:induction false} NextByte(data: seq<byte>, p: nat)
    requires p < |data|
    ensures BytesBits(data[p..]) == ToBits(8, data[p]) + BytesBits(data[p + 1..])
    ensures data[p] < Pow2(8)
  {
    assert data[p..][1..] == data[p + 1..];
    assert Pow2(8) == 256;
  }

  lemma {:induction false} NextWord(data: seq<byte>, p: nat)
    requires p + 4 <= |data|
    ensures Rb32(data[p], data[p + 1], data[p + 2], data[p + 3]) < Pow2(32)
    ensures BytesBits(data[p..])
      == ToBits(32, Rb32(data[p], data[p + 1], data[p + 2], data[p + 3])) + BytesBits(data[p + 4..])
  {
    hide ToBits, BytesBits, Pow2, Rb32;
    Rb32Bits(data[p], data[p + 1], data[p + 2], data[p + 3]);
    NextByte(data, p);
    NextByte(data, p + 1);
    NextByte(data, p + 2);
    NextByte(data, p + 3);
    var a, b, c, d := ToBits(8, data[p]), ToBits(8, data[p + 1]), ToBits(8, data[p + 2]), ToBits(8, data[p + 3]);
    Regroup(a, b, c, d + BytesBits(data[p + 4..]));
    Regroup([], a + b + c, d, BytesBits(data[p + 4..]));
  }

  /** The 32-bit and the 8-bit loop, which stop before the last byte. */
  method PutAllButLast(w: BitWriter, data: seq<byte>, pos: nat, ghost goal: seq<bool>)
    requires pos < |data| && w.Valid() && 8 * (|data| - pos) <= w.Left()
    requires w.bits + BytesBits(data[pos..]) == goal
    modifies w
    ensures w.Valid() && w.bits + BytesBits(data[|data| - 1..]) == goal
    ensures |w.bits| == old(|w.bits|) + 8 * (|data| - 1 - pos)
  {
    hide ToBits, BytesBits, Pow2, Rb32;
    var p, rest := pos, |data| - pos;
    while rest > 4
      invariant 0 < rest == |data| - p && w.Valid() && 8 * rest <= w.Left()
      invariant w.bits + BytesBits(data[p..]) == goal
      invariant |w.bits| == old(|w.bits|) + 8 * (p - pos)
    {
      NextWord(data, p);
      var word := Rb32(data[p], data[p + 1], data[p + 2], data[p + 3]);
      assert w.bits + (ToBits(32, word) + BytesBits(data[p + 4..]))
        == w.bits + ToBits(32, word) + BytesBits(data[p + 4..]);
      w.Put(32, word);
      rest, p := rest - 4, p + 4;
    }
    while rest > 1
      invariant 0 < rest == |data| - p && w.Valid() && 8 * rest <= w.Left()
      invariant w.bits + BytesBits(data[p..]) == goal
      invariant |w.bits| == old(|w.bits|) + 8 * (p - pos)
    {
      NextByte(data, p);
      assert w.bits + (ToBits(8, data[p]) + BytesBits(data[p + 1..]))
        == w.bits + ToBits(8, data[p]) + BytesBits(data[p + 1..]);
      w.Put(8, data[p]);
      rest, p := rest - 1, p + 1;
    }
  }

  /** rbsp_stop_one_bit: the last byte without its trailing zeros, then the padding. The
      count of zeros is that of the whole byte, the bits put are those of the masked one. */
  method PutLast(w: BitWriter, last: byte, skip: nat) returns (ok: bool)
    requires w.Valid() && skip < 8 && w.Left() >= 16 && w.capacity % 8 == 0
    modifies w
    ensures w.Valid() && ok == (last % Pow2(8 - skip) != 0)
    ensures ok ==> |Trimmed(ToBits(8 - skip, last % Pow2(8 - skip)))| > 0
    ensures ok ==> w.bits == PaddedToByte(old(w.bits) + Trimmed(ToBits(8 - skip, last % Pow2(8 - skip))))
  {
    hide ToBits, Pow2, Trimmed, PaddedToByte;
    if last % Pow2(8 - skip) == 0 {
      return false;
    }
    var n, temp := StopBits(last, skip);
    w.Put(n, temp);
    Pad(w);
    return true;
  }

  /** The width and the value of the last bits: the byte masked, and shifted right by the
      zeros counted in the whole byte. */
  method StopBits(last: byte, skip: nat) returns (n: nat, temp: nat)
    requires skip < 8 && last % Pow2(8 - skip) != 0
    ensures 0 < n <= 8 && temp < Pow2(n)
    ensures ToBits(n, temp) == Trimmed(ToBits(8 - skip, last % Pow2(8 - skip)))
  {
    hide ToBits, Pow2, Trimmed, TrailingZeros;
    var width := 8 - skip;
    temp := last % Pow2(width);
    TrailingZerosMasked(last, width);
    var i := TrailingZeros(last);
    TrimmedOf(width, temp, i);
    NonNegativeQuotient(temp, Pow2(i));
    n, temp := width - i, temp / Pow2(i);
  }

  /** The zeros up to the next byte boundary. */
  method Pad(w: BitWriter)
    requires w.Valid() && w.Left() >= 8
    modifies w
    ensures w.Valid() && w.bits == PaddedToByte(old(w.bits))
  {
    hide PaddedToByte;
    PaddedForm(w.bits);
    if |w.bits| % 8 != 0 {
      var n := 8 - |w.bits| % 8;
      ToBitsZero(n);
      w.Put(n, 0);
    }
  }

  lemma {:induction false} TrimmedConcat(front: seq<bool>, b: seq<bool>)
    requires |Trimmed(b)| > 0
    ensures Trimmed(front + b) == front + Trimmed(b)
  {
    var t := Trimmed(b);
    assert b == t + Zeros(|b| - |t|);
    assert front + b == (front + t) + Zeros(|b| - |t|);
    TrimmedIs(front + t, |b| - |t|);
  }

  /** Trimming what is still to be put trims the whole. */
  lemma {:induction false} TrimmedLast(before: seq<bool>, source: seq<bool>, put: seq<bool>, last: seq<bool>)
    requires put + last == before + source && |last| <= |source| && |Trimmed(last)| > 0
    ensures put + Trimmed(last) == before + Trimmed(source)
  {
    hide Trimmed;
    TrimmedConcat(put, last);
    var e := put + Trimmed(last);
    assert (put + last)[|e| - 1] by { assert e == (put + last)[..|e|]; }
    assert source[|e| - 1 - |before|];
    TrimmedConcat(before, source);
  }

  /** Whether the bits go by memcpy: something follows the first byte's remaining bits, and
      they bring the writer to a byte boundary. */
  predicate ByCopy(written: nat, data: seq<byte>, start: nat) {
    |data| > (start + 7) / 8 && (written + if start % 8 == 0 then 0 else 8 - start % 8) % 8 == 0
  }

  /** cbs_h2645_write_slice_data: for every alignment of the writer and of the data it
      appends the bits from `start` through the last 1 bit and zeros up to a byte boundary,
      when the final byte is nonzero. When it is zero, the code's assertion fails, or the
      copy takes the zero bytes along. */
  method WriteSliceData(w: BitWriter, data: seq<byte>, start: nat) returns (status: Status)
    requires w.Valid() && w.capacity % 8 == 0 && start / 8 < |data|
    modifies w
    ensures w.Valid()
    ensures status ==
      if |data| * 8 + 8 > old(w.Left()) then NoSpace
      else if FinalByte(data, start) != 0 || ByCopy(old(|w.bits|), data, start) then Written
      else Aborted
    ensures status.NoSpace? ==> w.bits == old(w.bits)
    ensures status.Written? && FinalByte(data, start) != 0
      ==> w.bits == PaddedToByte(old(w.bits) + Trimmed(Rest(data, start)))
    ensures status.Written? && FinalByte(data, start) == 0 ==> w.bits == old(w.bits) + Rest(data, start)
  {
    hide ToBits, BytesBits, Pow2, Trimmed, PaddedToByte, Rest, FinalByte;
    var rest := |data| - (start + 7) / 8;
    if |data| * 8 + 8 > w.Left() {
      return NoSpace;
    }
    if rest == 0 {
      FinalByteOnly(data, start);
      var ok := PutLast(w, data[start / 8], start % 8);
      return if ok then Written else Aborted;
    }
    status := PutRest(w, data, start);
  }

  lemma {:induction false} FinalByteOnly(data: seq<byte>, start: nat)
    requires start / 8 < |data| == (start + 7) / 8
    ensures FinalByte(data, start) == data[start / 8] % Pow2(8 - start % 8)
    ensures Rest(data, start) == ToBits(8 - start % 8, FinalByte(data, start))
  {
    RestForm(data, start);
  }

  /** The first byte's remaining bits, then one of the two paths for the whole bytes. */
  method PutRest(w: BitWriter, data: seq<byte>, start: nat) returns (status: Status)
    requires w.Valid() && w.capacity % 8 == 0 && (start + 7) / 8 < |data|
    requires |data| * 8 + 8 <= w.Left()
    modifies w
    ensures w.Valid()
    ensures status == if FinalByte(data, start) != 0 || ByCopy(old(|w.bits|), data, start) then Written else Aborted
    ensures status.Written? && FinalByte(data, start) != 0
      ==> w.bits == PaddedToByte(old(w.bits) + Trimmed(Rest(data, start)))
    ensures status.Written? && FinalByte(data, start) == 0 ==> w.bits == old(w.bits) + Rest(data, start)
  {
    hide ToBits, BytesBits, Pow2, Trimmed, PaddedToByte, Rest, FinalByte;
    ghost var before := w.bits;
    var pos := PutFirst(w, data, start);
    if |w.bits| % 8 == 0 {
      w.PutBytes(BytesBits(data[pos..]));
      CopyMeets(before, data, start);
      return Written;
    }
    status := PutUnaligned(w, data, pos, start, before);
  }

  /** The remaining bits of the first byte, if `start` is inside it. */
  method PutFirst(w: BitWriter, data: seq<byte>, start: nat) returns (pos: nat)
    requires w.Valid() && (start + 7) / 8 < |data| && 8 <= w.Left()
    modifies w
    ensures w.Valid() && pos == (start + 7) / 8
    ensures |w.bits| == |old(w.bits)| + if start % 8 == 0 then 0 else 8 - start % 8
    ensures w.bits + BytesBits(data[pos..]) == old(w.bits) + Rest(data, start)
  {
    hide ToBits, BytesBits, Pow2, Rest;
    pos := start / 8;
    RestForm(data, start);
    if start % 8 != 0 {
      LowPart(data[pos], start % 8);
      w.Put(8 - start % 8, data[pos] % Pow2(8 - start % 8));
      pos := pos + 1;
    } else {
      WholeByte(data, pos);
    }
  }

  /** The path for a writer that is not at a byte boundary. */
  method PutUnaligned(w: BitWriter, data: seq<byte>, pos: nat, ghost start: nat, ghost before: seq<bool>)
    returns (status: Status)
    requires pos == (start + 7) / 8 < |data|
    requires w.Valid() && w.capacity % 8 == 0 && 8 * (|data| - pos) + 8 <= w.Left()
    requires w.bits + BytesBits(data[pos..]) == before + Rest(data, start)
    modifies w
    ensures w.Valid() && status == if FinalByte(data, start) != 0 then Written else Aborted
    ensures status.Written? ==> w.bits == PaddedToByte(before + Trimmed(Rest(data, start)))
  {
    hide ToBits, BytesBits, Pow2, Trimmed, PaddedToByte, Rest, FinalByte;
    PutAllButLast(w, data, pos, before + Rest(data, start));
    ghost var put := w.bits;
    LastByteOf(data, start);
    WholeByte(data, |data| - 1);
    var ok := PutLast(w, data[|data| - 1], 0);
    if ok {
      TrimmedLast(before, Rest(data, start), put, ToBits(8, data[|data| - 1]));
    }
    return if ok then Written else Aborted;
  }

  lemma {:induction false} WholeByte(data: seq<byte>, p: nat)
    requires p < |data|
    ensures ToBits(8, data[p] % Pow2(8)) + BytesBits(data[p + 1..]) == BytesBits(data[p..])
    ensures data[p] % Pow2(8) == data[p]
    ensures BytesBits(data[p + 1..]) == [] ==> BytesBits(data[p..]) == ToBits(8, data[p])
  {
    hide ToBits, BytesBits;
    NextByte(data, p);
    assert Pow2(8) == 256;
  }
}
