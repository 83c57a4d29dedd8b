// VP9 superframes (Annex B of the VP9 Bitstream & Decoding Process Specification):
// cbs_vp9_split_fragment, cbs_vp9_assemble_fragment and the superframe index.

module Superframe {
  import opened Wrappers
  import opened Bits
  import opened Golomb

  const VP9_SUPERFRAME_MARKER := 6
  const VP9_MAX_FRAMES_IN_SUPERFRAME := 8

  // ---- Little-endian values ----

  function LeBytes(v: nat, n: nat): (b: seq<byte>)
    ensures |b| == n
  {
    if n == 0 then [] else [v % 256] + LeBytes(v / 256, n - 1)
  }

  function FromLe(b: seq<byte>): (v: nat)
    ensures v < Pow2(8 * |b|)
  {
    if |b| == 0 then 0
    else
      Times256(|b| - 1);
      b[0] + 256 * FromLe(b[1..])
  }

  lemma {:induction false} Times256(n: nat)
    ensures Pow2(8 * (n + 1)) == 256 * Pow2(8 * n)
  {
    hide Pow2;
    assert 8 * (n + 1) == 8 * n + 8;
    Pow2Add(8 * n, 8);
    Pow2Bytes();
  }

  /** A value that fits comes back from its little-endian bytes. */
  lemma {:induction false} LeRoundTrip(v: nat, n: nat)
    requires v < Pow2(8 * n)
    ensures FromLe(LeBytes(v, n)) == v
  {
    hide Pow2;
    if n > 0 {
      Times256(n - 1);
      LeRoundTrip(v / 256, n - 1);
      assert LeBytes(v, n)[1..] == LeBytes(v / 256, n - 1);
    } else {
      PowersOfNone();
    }
  }

  // ---- The index ----

  /** The three fields of 3, 2 and 3 bits that stand at both ends of the index. */
  function HeaderByte(len: nat, n: nat): byte
    requires 1 <= len <= 4 && 1 <= n <= 8
  {
    32 * VP9_SUPERFRAME_MARKER + 8 * (len - 1) + (n - 1)
  }

  function Sizes(sizes: seq<nat>, len: nat): (b: seq<byte>)
    ensures |b| == |sizes| * len
  {
    if |sizes| == 0 then [] else
      SizesLength(|sizes| - 1, len);
      LeBytes(sizes[0], len) + Sizes(sizes[1..], len)
  }

  lemma {:induction false} SizesLength(n: nat, len: nat)
    ensures (n + 1) * len == len + n * len && n * len >= 0
  {
  }

  function IndexBytes(sizes: seq<nat>, len: nat): (b: seq<byte>)
    requires 1 <= len <= 4 && 1 <= |sizes| <= 8
    ensures |b| == 2 + |sizes| * len
  {
    [HeaderByte(len, |sizes|)] + Sizes(sizes, len) + [HeaderByte(len, |sizes|)]
  }

  /** The frame sizes as read, and the position behind them. */
  function ReadSizes(b: seq<byte>, pos: nat, n: nat, len: nat): (r: Option<(seq<nat>, nat)>)
    ensures r.Some? ==> |r.value.0| == n && pos <= r.value.1
    ensures r.Some? ==> forall i :: 0 <= i < n ==> r.value.0[i] < Pow2(8 * len)
    decreases n
  {
    if n == 0 then Some(([], pos))
    else if pos + len > |b| then None
    else
      match ReadSizes(b, pos + len, n - 1, len)
      case None => None
      case Some((rest, end)) => Some(([FromLe(b[pos..pos + len])] + rest, end))
  }

  /** What superframe_index reads: the frame count of its second header, and the sizes of
      its first; entries beyond those keep what the structure held before. */
  datatype Index = Index(frames: nat, sizes: seq<nat>)

  function ReadIndex(b: seq<byte>, stale: seq<nat>): (r: Option<Index>)
    requires |stale| == VP9_MAX_FRAMES_IN_SUPERFRAME
    ensures r.Some? ==> 1 <= r.value.frames <= |r.value.sizes| == VP9_MAX_FRAMES_IN_SUPERFRAME
  {
    if |b| == 0 then None
    else
      var n := b[0] % 8 + 1;
      match ReadSizes(b, 1, n, b[0] / 8 % 4 + 1)
      case None => None
      case Some((sizes, end)) =>
        if end >= |b| then None else Some(Index(b[end] % 8 + 1, sizes + stale[n..]))
  }

  // ---- Splitting ----

  /** The frames of the given sizes from `pos` on, which must end before the index. */
  function Frames(data: seq<byte>, sizes: seq<nat>, pos: nat, indexSize: nat): (r: Option<seq<seq<byte>>>)
    ensures r.Some? ==> |r.value| == |sizes| && forall i :: 0 <= i < |sizes| ==> |r.value[i]| == sizes[i]
    decreases |sizes|
  {
    if |sizes| == 0 then Some([])
    else if pos + sizes[0] + indexSize > |data| then None
    else
      match Frames(data, sizes[1..], pos + sizes[0], indexSize)
      case None => None
      case Some(rest) => Some([data[pos..pos + sizes[0]]] + rest)
  }

  predicate HasIndex(data: seq<byte>) {
    |data| > 0 && data[|data| - 1] / 32 == VP9_SUPERFRAME_MARKER
  }

  function IndexSize(last: byte): nat {
    2 + (last / 8 % 4 + 1) * (last % 8 + 1)
  }

  /** cbs_vp9_split_fragment */
  function Split(data: seq<byte>, stale: seq<nat>): Option<seq<seq<byte>>>
    requires |stale| == VP9_MAX_FRAMES_IN_SUPERFRAME
  {
    if |data| == 0 then None
    else if !HasIndex(data) then Some([data])
    else
      var size := IndexSize(data[|data| - 1]);
      if size > |data| then None
      else
        match ReadIndex(data[|data| - size..], stale)
        case None => None
        case Some(index) => Frames(data, index.sizes[..index.frames], 0, size)
  }

  // ---- Assembling ----

  function Largest(frames: seq<seq<byte>>): (m: nat)
    ensures forall i :: 0 <= i < |frames| ==> |frames[i]| <= m
    ensures m == 0 || exists i :: 0 <= i < |frames| && |frames[i]| == m
  {
    if |frames| == 0 then 0
    else
      var m := Largest(frames[..|frames| - 1]);
      if m < |frames[|frames| - 1]| then |frames[|frames| - 1]| else m
  }

  /** size_len; av_log2 takes 32 bits. */
  function SizeLength(largest: nat): nat {
    if largest < 2 then 1 else Log2(largest % 0x1_0000_0000) / 8 + 1
  }

  /** The frame_sizes, which are 32 bits wide. */
  function FrameSizes(frames: seq<seq<byte>>): (s: seq<nat>)
    ensures |s| == |frames| && forall i :: 0 <= i < |s| ==> s[i] == |frames[i]| % 0x1_0000_0000
  {
    seq(|frames|, i requires 0 <= i < |frames| => |frames[i]| % 0x1_0000_0000)
  }

  function Joined(frames: seq<seq<byte>>): seq<byte> {
    if |frames| == 0 then [] else frames[0] + Joined(frames[1..])
  }

  /** size_len is one to four bytes, and wide enough for a largest frame of 32 bits. */
  lemma {:induction false} SizeLengthBounds(largest: nat)
    ensures 1 <= SizeLength(largest) <= 4
    ensures largest <= UINT32_MAX ==> largest < Pow2(8 * SizeLength(largest))
  {
    hide Log2, Pow2;
    var v, len := largest % 0x1_0000_0000, SizeLength(largest);
    if largest < 2 {
      Pow2Bytes();
    } else if v > 0 {
      CodeLength(v);
      Log2Bounds(v);
      Pow2Monotone(Log2(v) + 1, 8 * len);
    } else {
      PowersOfNone();
    }
  }

  /** No smaller width holds a largest frame of 32 bits. */
  lemma {:induction false} SizeLengthLeast(largest: nat)
    requires largest <= UINT32_MAX && SizeLength(largest) > 1
    ensures largest >= Pow2(8 * (SizeLength(largest) - 1))
  {
    hide Log2, Pow2;
    Log2Bounds(largest);
    Pow2Monotone(8 * (SizeLength(largest) - 1), Log2(largest));
  }

  /** cbs_vp9_assemble_fragment. Without frames the count wraps and does not fit its field. */
  function Assemble(frames: seq<seq<byte>>): Option<seq<byte>> {
    if |frames| == 1 then Some(frames[0])
    else if |frames| > 8 || |frames| == 0 then None
    else
      SizeLengthBounds(Largest(frames));
      Some(Joined(frames) + IndexBytes(FrameSizes(frames), SizeLength(Largest(frames))))
  }

  // ---- Round trip ----

  /** Sizes that fit the width come back. */
  lemma {:induction false} SizesRoundTrip(b: seq<byte>, pos: nat, sizes: seq<nat>, len: nat)
    requires forall i :: 0 <= i < |sizes| ==> sizes[i] < Pow2(8 * len)
    requires pos + |sizes| * len <= |b| && b[pos..pos + |sizes| * len] == Sizes(sizes, len)
    ensures ReadSizes(b, pos, |sizes|, len) == Some((sizes, pos + |sizes| * len))
    decreases |sizes|
  {
    hide Pow2, LeBytes, FromLe;
    if |sizes| > 0 {
      SizesLength(|sizes| - 1, len);
      var whole, first, rest := b[pos..pos + |sizes| * len], LeBytes(sizes[0], len), Sizes(sizes[1..], len);
      assert whole[..len] == b[pos..pos + len] && whole[..len] == first;
      assert whole[len..] == b[pos + len..pos + len + (|sizes| - 1) * len] && whole[len..] == rest;
      LeRoundTrip(sizes[0], len);
      SizesRoundTrip(b, pos + len, sizes[1..], len);
      assert [sizes[0]] + sizes[1..] == sizes;
    }
  }

  /** An index comes back from its bytes, and its header announces its size. */
  lemma {:induction false} IndexRoundTrip(sizes: seq<nat>, len: nat, stale: seq<nat>)
    requires 1 <= len <= 4 && 1 <= |sizes| <= 8 && |stale| == 8
    requires forall i :: 0 <= i < |sizes| ==> sizes[i] < Pow2(8 * len)
    ensures ReadIndex(IndexBytes(sizes, len), stale) == Some(Index(|sizes|, sizes + stale[|sizes|..]))
    ensures var b, h := IndexBytes(sizes, len), 0xC0 + 8 * (len - 1) + (|sizes| - 1);
      |b| == 2 + |sizes| * len == IndexSize(h) && b[0] == h == b[|b| - 1]
  {
    hide Pow2, Sizes, ReadSizes;
    var b, h := IndexBytes(sizes, len), HeaderByte(len, |sizes|);
    HeaderFields(len, |sizes|);
    assert b[1..1 + |sizes| * len] == Sizes(sizes, len);
    SizesRoundTrip(b, 1, sizes, len);
    assert b[1 + |sizes| * len] == h;
  }

  lemma {:induction false} HeaderFields(len: nat, n: nat)
    requires 1 <= len <= 4 && 1 <= n <= 8
    ensures var h := HeaderByte(len, n);
      h / 32 == VP9_SUPERFRAME_MARKER && h / 8 % 4 + 1 == len && h % 8 + 1 == n && IndexSize(h) == 2 + n * len
  {
    assert len * n == n * len;
  }

  /** Frames cut out of their concatenation are the frames. */
  lemma {:induction false} FramesOfJoined(before: seq<byte>, frames: seq<seq<byte>>, index: seq<byte>, sizes: seq<nat>)
    requires |sizes| == |frames| && forall i :: 0 <= i < |frames| ==> sizes[i] == |frames[i]|
    ensures Frames(before + Joined(frames) + index, sizes, |before|, |index|) == Some(frames)
    decreases |frames|
  {
    if |frames| > 0 {
      var data := before + Joined(frames) + index;
      var rest := Joined(frames[1..]);
      assert data == (before + frames[0]) + rest + index;
      assert data[|before|..|before| + |frames[0]|] == frames[0];
      FramesOfJoined(before + frames[0], frames[1..], index, sizes[1..]);
      assert [frames[0]] + frames[1..] == frames;
    }
  }

  /** Two to eight frames come back from their superframe exactly when every size is one of
      32 bits. */
  lemma {:induction false} SuperframeIff(frames: seq<seq<byte>>, stale: seq<nat>)
    requires 2 <= |frames| <= 8 && |stale| == 8
    ensures Assemble(frames).Some?
    ensures Split(Assemble(frames).value, stale) == Some(frames)
      <==> forall i :: 0 <= i < |frames| ==> |frames[i]| <= UINT32_MAX
  {
    hide Pow2, Log2, ReadIndex, IndexBytes, Frames, Joined, SizeLength, IndexSize, Largest;
    var len, sizes := SizeLength(Largest(frames)), FrameSizes(frames);
    SizeLengthBounds(Largest(frames));
    var data, index := Assemble(frames).value, IndexBytes(sizes, len);
    assert data == [] + Joined(frames) + index;
    SuperframeTail(frames, len, data);
    assert data[|data| - |index|..] == index;
    if forall i :: 0 <= i < |frames| ==> |frames[i]| <= UINT32_MAX {
      FitsLargest(frames, len);
      IndexRoundTrip(sizes, len, stale);
      assert (sizes + stale[|sizes|..])[..|sizes|] == sizes;
      FramesOfJoined([], frames, index, sizes);
    } else {
      SplitSizes(sizes, len, stale, data);
    }
  }

  lemma {:induction false} FitsLargest(frames: seq<seq<byte>>, len: nat)
    requires len == SizeLength(Largest(frames)) && forall i :: 0 <= i < |frames| ==> |frames[i]| <= UINT32_MAX
    ensures forall i :: 0 <= i < |frames| ==> FrameSizes(frames)[i] == |frames[i]| < Pow2(8 * len)
  {
    hide Pow2, SizeLength;
    SizeLengthBounds(Largest(frames));
  }

  /** The last byte of a superframe announces the index and its size. */
  lemma {:induction false} SuperframeTail(frames: seq<seq<byte>>, len: nat, data: seq<byte>)
    requires 1 <= len <= 4 && 1 <= |frames| <= 8
    requires data == Joined(frames) + IndexBytes(FrameSizes(frames), len)
    ensures HasIndex(data) && IndexSize(data[|data| - 1]) == |IndexBytes(FrameSizes(frames), len)| <= |data|
  {
    hide Joined, Sizes;
    HeaderFields(len, |frames|);
    assert data[|data| - 1] == HeaderByte(len, |frames|);
  }

  /** Whatever stands in an index written for sizes, the frames cut out by it have sizes of
      32 bits. */
  lemma {:induction false} SplitSizes(sizes: seq<nat>, len: nat, stale: seq<nat>, data: seq<byte>)
    requires 1 <= len <= 4 && 1 <= |sizes| <= 8 && |stale| == VP9_MAX_FRAMES_IN_SUPERFRAME
    requires HasIndex(data) && IndexSize(data[|data| - 1]) == |IndexBytes(sizes, len)| <= |data|
    requires data[|data| - |IndexBytes(sizes, len)|..] == IndexBytes(sizes, len)
    ensures var r := Split(data, stale);
      r.Some? ==> forall i :: 0 <= i < |r.value| ==> |r.value[i]| <= UINT32_MAX
  {
    hide Pow2, Sizes;
    var b := IndexBytes(sizes, len);
    HeaderFields(len, |sizes|);
    var r := ReadSizes(b, 1, |sizes|, len);
    SizesEnd(b, 1, |sizes|, len);
    Pow2Bytes();
    Pow2Monotone(8 * len, 32);
  }

  lemma {:induction false} SizesEnd(b: seq<byte>, pos: nat, n: nat, len: nat)
    ensures ReadSizes(b, pos, n, len).Some? ==> ReadSizes(b, pos, n, len).value.1 == pos + n * len
    decreases n
  {
    if n > 0 {
      SizesLength(n - 1, len);
      SizesEnd(b, pos + len, n - 1, len);
    }
  }

  /** A single frame is passed through, and comes back exactly when it is not empty and
      its last byte does not look like the end of an index. */
  lemma {:induction false} SingleFrameIff(frame: seq<byte>, stale: seq<nat>)
    requires |stale| == 8
    ensures Assemble([frame]) == Some(frame)
    ensures Split(frame, stale) == Some([frame]) <==> |frame| > 0 && frame[|frame| - 1] / 32 != 6
  {
  }
}
