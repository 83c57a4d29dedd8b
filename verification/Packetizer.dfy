// Video packets: header insertion and the split into FEC blocks (stream.cpp).

module Packetizer {
  import opened Bits
  import opened Buffers
  import opened Arith
  import opened Fec

  /** The bytes insert puts before each slice, and the slice size. */
  datatype Layout = Layout(header: seq<byte>, slice: nat) {
    /** blocksize */
    function Size(): nat {
      |header| + slice
    }
  }

  /** The payload with a header before each slice. */
  function Inserted(l: Layout, data: seq<byte>): seq<byte>
    requires l.slice > 0
  {
    if |data| <= l.slice then l.header + data
    else l.header + data[..l.slice] + Inserted(l, data[l.slice..])
  }

  /** The receiver's view of a flat run of packets: each one without its header. */
  function Bodies(l: Layout, flat: seq<byte>): seq<byte>
    requires l.slice > 0
    decreases |flat|
  {
    if |flat| <= |l.header| then []
    else if |flat| <= l.Size() then flat[|l.header|..]
    else flat[|l.header|..l.Size()] + Bodies(l, flat[l.Size()..])
  }

  /** The size the result of insert is given. */
  lemma {:induction false} InsertedLength(l: Layout, data: seq<byte>)
    requires l.slice > 0 && |data| > 0
    ensures |Inserted(l, data)| == Ceil(|data|, l.slice) * |l.header| + |data|
  {
    if |data| <= l.slice {
      CeilSmall(|data|, l.slice);
    } else {
      InsertedLength(l, data[l.slice..]);
      CeilStep(|data|, l.slice);
      MultipleSum(Ceil(|data| - l.slice, l.slice), 1, |l.header|);
    }
  }

  /** The bytes up to the next multiple of d. */
  function PadTo(n: nat, d: nat): (z: nat)
    requires d > 0
    ensures z < d
  {
    if n % d == 0 then 0 else d - n % d
  }

  lemma {:induction false} PadToSmall(n: nat, d: nat)
    requires 0 < n <= d
    ensures PadTo(n, d) == d - n
  {
  }

  /** Taking the headers out of the padded packets gives the payload and fewer than one
      slice of zeros. */
  lemma {:induction false} BodiesOfInserted(l: Layout, data: seq<byte>, z: nat)
    requires l.slice > 0 && |data| > 0 && z == PadTo(|Inserted(l, data)|, l.Size())
    ensures z < l.slice && Bodies(l, Inserted(l, data) + ZeroBytes(z)) == data + ZeroBytes(z)
  {
    hide Bodies;
    if |data| <= l.slice {
      PadToSmall(|l.header| + |data|, l.Size());
      BodiesStep(l, data + ZeroBytes(z), []);
      NoBodies(l);
      assert Inserted(l, data) + ZeroBytes(z) == l.header + (data + ZeroBytes(z)) + [];
    } else {
      var rest := Inserted(l, data[l.slice..]);
      ModPlus(|rest|, 1, l.Size());
      BodiesOfInserted(l, data[l.slice..], z);
      BodiesStep(l, data[..l.slice], rest + ZeroBytes(z));
      assert Inserted(l, data) + ZeroBytes(z) == l.header + data[..l.slice] + (rest + ZeroBytes(z));
      assert data[..l.slice] + (data[l.slice..] + ZeroBytes(z)) == data + ZeroBytes(z);
    }
  }

  lemma {:induction false} NoBodies(l: Layout)
    requires l.slice > 0
    ensures Bodies(l, []) == []
  {
  }

  lemma {:induction false} BodiesStep(l: Layout, body: seq<byte>, rest: seq<byte>)
    requires l.slice == |body| > 0
    ensures Bodies(l, l.header + body + rest) == body + Bodies(l, rest)
  {
  }

  /** Whole packets come apart from what follows them. */
  lemma {:induction false} BodiesConcat(l: Layout, k: nat, a: seq<byte>, b: seq<byte>)
    requires l.slice > 0 && |a| == k * l.Size()
    ensures Bodies(l, a + b) == Bodies(l, a) + Bodies(l, b)
    decreases k
  {
    hide Bodies;
    if k == 0 {
      assert a == [] && a + b == b;
      NoBodies(l);
      assert [] + Bodies(l, b) == Bodies(l, b);
    } else {
      MultipleSum(k - 1, 1, l.Size());
      NonNegative(k - 1, l.Size());
      var body, rest := a[|l.header|..l.Size()], a[l.Size()..];
      FirstPacket(l, a[..l.Size()], rest);
      FirstPacket(l, a[..l.Size()], rest + b);
      assert a == a[..l.Size()] + rest && a + b == a[..l.Size()] + (rest + b);
      BodiesConcat(l, k - 1, rest, b);
      assert body + (Bodies(l, rest) + Bodies(l, b)) == (body + Bodies(l, rest)) + Bodies(l, b);
    }
  }

  lemma {:induction false} FirstPacket(l: Layout, p: seq<byte>, rest: seq<byte>)
    requires l.slice > 0 && |p| == l.Size()
    ensures Bodies(l, p + rest) == p[|l.header|..] + Bodies(l, rest)
  {
  }

  /** insert, for a nonempty payload. */
  method Insert(l: Layout, data: seq<byte>) returns (result: array<byte>)
    requires l.slice > 0 && |data| > 0
    ensures result[..] == Inserted(l, data)
  {
    hide Inserted;
    var elements := |data| / l.slice + if |data| % l.slice != 0 then 1 else 0;
    InsertedLength(l, data);
    CeilPositive(|data|, l.slice);
    result := new byte[elements * |l.header| + |data|];
    var next, dp: nat := 0, 0;
    assert data[0..] == data;
    for x := 0 to elements - 1
      invariant next <= |data| && elements - x == Ceil(|data| - next, l.slice) && next < |data|
      invariant dp <= result.Length && result[..dp] + Inserted(l, data[next..]) == Inserted(l, data)
    {
      InsertedMore(l, data, next);
      ghost var before := result[..dp];
      dp := CopyTo(result, dp, l.header);
      dp := CopyTo(result, dp, data[next..next + l.slice]);
      next := next + l.slice;
      Regroup(before, l.header, data[next - l.slice..next], Inserted(l, data[next..]));
    }
    InsertedLast(l, data, next);
    ghost var before := result[..dp];
    dp := CopyTo(result, dp, l.header);
    dp := CopyTo(result, dp, data[next..]);
    Regroup(before, l.header, data[next..], []);
    assert result[..] == result[..dp];
  }

  lemma {:induction false} CeilPositive(n: nat, d: nat)
    requires 0 < n && 0 < d
    ensures Ceil(n, d) > 0
  {
    CeilBounds(n, d);
  }

  lemma {:induction false} InsertedMore(l: Layout, data: seq<byte>, next: nat)
    requires l.slice > 0 && next <= |data| && Ceil(|data| - next, l.slice) > 1
    ensures next + l.slice < |data|
    ensures Inserted(l, data[next..]) == l.header + data[next..next + l.slice] + Inserted(l, data[next + l.slice..])
    ensures Ceil(|data| - next, l.slice) == 1 + Ceil(|data| - next - l.slice, l.slice)
  {
    if |data| - next <= l.slice {
      if |data| > next {
        CeilSmall(|data| - next, l.slice);
      }
      assert false;
    }
    CeilStep(|data| - next, l.slice);
    assert data[next..][..l.slice] == data[next..next + l.slice];
    assert data[next..][l.slice..] == data[next + l.slice..];
  }

  lemma {:induction false} InsertedLast(l: Layout, data: seq<byte>, next: nat)
    requires l.slice > 0 && next < |data| && Ceil(|data| - next, l.slice) == 1
    ensures Inserted(l, data[next..]) == l.header + data[next..]
  {
    CeilBounds(|data| - next, l.slice);
  }

  // ---- FEC blocks ----

  const MAX_FEC_BLOCKS := 3

  /** multi_fec_threshold */
  function Threshold(size: nat): nat {
    90 * size
  }

  /** The size of the first two of three blocks. */
  function AlignedSize(n: nat, size: nat): nat
    requires size > 0
  {
    (n / MAX_FEC_BLOCKS + (size - 1)) / size * size
  }

  /** Above the threshold the three blocks are nonempty, and the substr calls in range. */
  lemma {:induction false} ThreeBlocks(n: nat, size: nat)
    requires size > 0
    ensures n > Threshold(size) ==> 0 < AlignedSize(n, size) && 2 * AlignedSize(n, size) < n
  {
    CeilByRounding(n / 3, size);
    CeilBounds(n / 3, size);
  }

  /** It is the least multiple of the packet size that is no less than a third of the bytes. */
  lemma {:induction false} AlignedLeast(n: nat, size: nat)
    requires size > 0
    ensures AlignedSize(n, size) % size == 0 && AlignedSize(n, size) - size < n / 3 <= AlignedSize(n, size)
  {
    CeilByRounding(n / 3, size);
    CeilBounds(n / 3, size);
    Quotient(AlignedSize(n, size), size, Ceil(n / 3, size), 0);
  }

  function BlockCount(n: nat, size: nat): nat {
    if n > Threshold(size) then MAX_FEC_BLOCKS else 1
  }

  /** The size of block k of n bytes of packets. */
  function BlockSize(n: nat, size: nat, k: nat): nat
    requires size > 0
  {
    ThreeBlocks(n, size);
    if n <= Threshold(size) then n
    else if k < 2 then AlignedSize(n, size)
    else n - 2 * AlignedSize(n, size)
  }

  /** The FEC blocks of a run of packets. */
  method SplitBlocks(payload: seq<byte>, size: nat) returns (blocks: seq<seq<byte>>)
    requires size > 0 && |payload| > 0
    ensures |blocks| == BlockCount(|payload|, size)
    ensures forall k :: 0 <= k < |blocks| ==> 0 < |blocks[k]| == BlockSize(|payload|, size, k)
    ensures Joined(blocks) == payload
    ensures |blocks| == if |payload| > 90 * size then 3 else 1
    ensures |payload| > 90 * size ==>
      && |blocks[0]| == |blocks[1]| && |blocks[0]| % size == 0 && |blocks[0]| - size < |payload| / 3 <= |blocks[0]|
  {
    if |payload| > Threshold(size) {
      ThreeBlocks(|payload|, size);
      AlignedLeast(|payload|, size);
      var unaligned := |payload| / MAX_FEC_BLOCKS;
      var aligned := (unaligned + (size - 1)) / size * size;
      blocks := [payload[..aligned], payload[aligned..2 * aligned], payload[2 * aligned..]];
      assert payload == payload[..aligned] + payload[aligned..2 * aligned] + payload[2 * aligned..];
    } else {
      blocks := [payload];
      assert [] + payload == payload;
    }
    JoinedUpTo3(blocks);
  }

  function Joined<T>(blocks: seq<seq<T>>): seq<T> {
    if |blocks| == 0 then [] else Joined(blocks[..|blocks| - 1]) + blocks[|blocks| - 1]
  }

  lemma {:induction false} JoinedSnoc<T>(blocks: seq<seq<T>>, last: seq<T>)
    ensures Joined(blocks + [last]) == Joined(blocks) + last
  {
    assert (blocks + [last])[..|blocks|] == blocks;
  }

  lemma {:induction false} JoinedUpTo3(b: seq<seq<byte>>)
    ensures |b| == 1 ==> Joined(b) == [] + b[0]
    ensures |b| == 3 ==> Joined(b) == [] + b[0] + b[1] + b[2]
  {
    if |b| == 3 {
      JoinedSnoc([], b[0]);
      JoinedSnoc([] + [b[0]], b[1]);
      JoinedSnoc([] + [b[0]] + [b[1]], b[2]);
      assert b == [] + [b[0]] + [b[1]] + [b[2]];
    }
  }

  // ---- Padding blocks ----

  lemma {:induction false} PaddedIs(f: seq<byte>, size: nat)
    requires size > 0
    ensures Padded(f, size) == f + ZeroBytes(PadTo(|f|, size))
    ensures |f| % size == 0 ==> Padded(f, size) == f
  {
    CeilBounds(|f|, size);
  }

  /** A block after whole packets. */
  lemma {:induction false} PaddedConcat(l: Layout, k: nat, a: seq<byte>, b: seq<byte>)
    requires l.slice > 0 && |a| == k * l.Size()
    ensures Bodies(l, Padded(a, l.Size())) + Bodies(l, Padded(b, l.Size())) == Bodies(l, Padded(a + b, l.Size()))
  {
    hide Bodies, Padded;
    var size := l.Size();
    Quotient(|a|, size, k, 0);
    PaddedIs(a, size);
    PaddedIs(b, size);
    PaddedIs(a + b, size);
    ModPlus(|b|, k, size);
    BodiesConcat(l, k, a, Padded(b, size));
    assert a + (b + ZeroBytes(PadTo(|b|, size))) == a + b + ZeroBytes(PadTo(|b|, size));
  }

  /** The packets of one frame, and the bytes of them. */
  function Packets(l: Layout, dataSize: nat): nat
    requires l.slice > 0
  {
    Ceil(dataSize, l.slice)
  }

  function PacketBytes(l: Layout, dataSize: nat): nat
    requires l.slice > 0
  {
    NonNegative(Packets(l, dataSize), |l.header|);
    Packets(l, dataSize) * |l.header| + dataSize
  }

  /** The data shards of block k. */
  function BlockShards(l: Layout, dataSize: nat, k: nat): nat
    requires l.slice > 0
  {
    Ceil(BlockSize(PacketBytes(l, dataSize), l.Size(), k), l.Size())
  }

  lemma {:induction false} CeilMonotone(m: nat, n: nat, k: nat, size: nat)
    requires size > 0 && m <= n <= k * size
    ensures Ceil(m, size) <= k
  {
    CeilBounds(m, size);
    if Ceil(m, size) > k {
      MonotoneProduct(k, Ceil(m, size) - 1, size);
      MultipleSum(Ceil(m, size) - 1, 1, size);
      assert false;
    }
  }

  /** No block has more shards than the frame has bytes. */
  lemma {:induction false} FewShards(l: Layout, dataSize: nat, k: nat)
    requires l.slice > 0 && dataSize > 0
    ensures BlockShards(l, dataSize, k) <= dataSize
  {
    hide BlockSize;
    var e, n := Packets(l, dataSize), PacketBytes(l, dataSize);
    CeilBounds(dataSize, l.slice);
    MonotoneProduct(1, l.slice, dataSize);
    Commute(l.slice, dataSize);
    CeilMonotone(dataSize, dataSize, dataSize, l.slice);
    WholePackets(e, |l.header|, l.slice);
    BlockWithin(n, l.Size(), k);
    CeilMonotone(BlockSize(n, l.Size(), k), n, e, l.Size());
  }

  lemma {:induction false} WholePackets(e: nat, header: nat, slice: nat)
    ensures e * (header + slice) == e * header + e * slice
  {
  }

  lemma {:induction false} BlockWithin(n: nat, size: nat, k: nat)
    requires size > 0
    ensures BlockSize(n, size, k) <= n
  {
    ThreeBlocks(n, size);
  }

  /** A frame of 3 * m full slices, above the threshold, makes three blocks of m packets. */
  lemma {:induction false} EvenFrame(l: Layout, m: nat, k: nat)
    requires l.slice > 0 && m > 30 && k < 3
    ensures 0 <= 3 * m * l.slice
    ensures BlockCount(PacketBytes(l, 3 * m * l.slice), l.Size()) == 3
    ensures BlockShards(l, 3 * m * l.slice, k) == m
  {
    var size, n := l.Size(), 3 * m * l.slice;
    NonNegative(3 * m, l.slice);
    Quotient(n, l.slice, 3 * m, 0);
    WholePackets(3 * m, |l.header|, l.slice);
    assert PacketBytes(l, n) == 3 * m * size;
    Associated(m, size);
    MonotoneProduct(31, m, size);
    EvenBlocks(m, size);
    Quotient(m * size, size, m, 0);
  }

  lemma {:induction false} Associated(m: nat, size: nat)
    ensures 3 * m * size == 3 * (m * size)
  {
  }

  lemma {:induction false} EvenBlocks(m: nat, size: nat)
    requires size > 0
    ensures AlignedSize(3 * (m * size), size) == m * size
  {
    NonNegative(m, size);
    CeilByRounding(m * size, size);
    Quotient(m * size, size, m, 0);
  }
}
