// The loops of the VP9 superframe code, against the functions of Superframe.

module SuperframeCoder {
  import opened Wrappers
  import opened Bits
  import opened Arith
  import opened Buffers
  import opened Superframe

  /** cbs_vp9_read_le, over whole bytes: value |= byte << b, where the value has no bits
      from b on. */
  method ReadLe(data: seq<byte>, pos: nat, len: nat) returns (value: Option<nat>)
    ensures value == if pos + len > |data| then None else Some(FromLe(data[pos..pos + len]))
  {
    hide Pow2, FromLe;
    if pos + len > |data| {
      return None;
    }
    var v: nat := 0;
    ghost var bytes := data[pos..pos + len];
    Shift0(FromLe(bytes[0..]));
    assert bytes[0..] == bytes;
    for b := 0 to len
      invariant FromLe(bytes) == v + Times(FromLe(bytes[b..]), Pow2(8 * b))
    {
      LeStep(bytes, b);
      v := v + Times(data[pos + b], Pow2(8 * b));
    }
    LeEnd(bytes[len..], Pow2(8 * len));
    return Some(v);
  }

  function Times(v: nat, p: nat): nat {
    NonNegative(v, p);
    v * p
  }

  lemma {:induction false} Shift0(v: nat)
    ensures Times(v, Pow2(8 * 0)) == v
  {
    assert Pow2(0) == 1;
  }

  lemma {:induction false} LeStep(bytes: seq<byte>, b: nat)
    requires b < |bytes|
    ensures Times(FromLe(bytes[b..]), Pow2(8 * b))
      == Times(bytes[b], Pow2(8 * b)) + Times(FromLe(bytes[b + 1..]), Pow2(8 * (b + 1)))
  {
    hide Pow2;
    assert bytes[b..][1..] == bytes[b + 1..];
    Times256(b);
    Spread(bytes[b], FromLe(bytes[b + 1..]), Pow2(8 * b));
  }

  lemma {:induction false} Spread(x: nat, y: nat, p: nat)
    ensures (x + 256 * y) * p == x * p + y * (256 * p)
  {
  }

  lemma {:induction false} LeEnd(bytes: seq<byte>, p: nat)
    requires |bytes| == 0
    ensures Times(FromLe(bytes), p) == 0
  {
  }

  /** cbs_vp9_write_le, over whole bytes. */
  method WriteLe(data: array<byte>, pos: nat, len: nat, value: nat) returns (next: nat)
    requires pos + len <= data.Length
    modifies data
    ensures next == pos + len && data[..next] == old(data[..pos]) + LeBytes(value, len)
  {
    var rest := value;
    ghost var goal := data[..pos] + LeBytes(value, len);
    for b := 0 to len
      invariant data[..pos + b] + LeBytes(rest, len - b) == goal
    {
      ghost var before := data[..pos + b];
      assert before + ([rest % 256] + LeBytes(rest / 256, len - b - 1))
        == before + [rest % 256] + LeBytes(rest / 256, len - b - 1);
      data[pos + b] := rest % 256;
      assert data[..pos + b + 1] == before + [rest % 256];
      rest := rest / 256;
    }
    next := pos + len;
    assert data[..next] + [] == data[..next];
  }

  /** superframe_index, for reading, over whole bytes: the last of the two headers stays in
      the structure, whose sizes held `stale` before. */
  method ReadSuperframeIndex(b: seq<byte>, stale: seq<nat>) returns (index: Option<Index>)
    requires |stale| == VP9_MAX_FRAMES_IN_SUPERFRAME
    ensures index == ReadIndex(b, stale)
  {
    hide Pow2, ReadSizes, FromLe;
    if |b| < 1 {
      return None;
    }
    var sizes := new nat[VP9_MAX_FRAMES_IN_SUPERFRAME](i requires 0 <= i < |stale| => stale[i]);
    assert sizes[..] == stale;
    var pos := ReadFrameSizes(b, b[0] / 8 % 4 + 1, b[0] % 8 + 1, sizes);
    if pos.None? || pos.value >= |b| {
      return None;
    }
    return Some(Index(b[pos.value] % 8 + 1, sizes[..]));
  }

  /** The loop over the sizes. */
  method ReadFrameSizes(b: seq<byte>, len: nat, n: nat, sizes: array<nat>) returns (end: Option<nat>)
    requires n <= sizes.Length
    modifies sizes
    ensures match ReadSizes(b, 1, n, len)
      case None => end == None
      case Some((read, pos)) => end == Some(pos) && sizes[..] == read + old(sizes[..])[n..]
  {
    hide Pow2, ReadSizes, FromLe;
    ghost var stale := sizes[..];
    var pos: nat := 1;
    SizesFromStart(ReadSizes(b, 1, n, len));
    assert sizes[..0] == [];
    for i := 0 to n
      invariant sizes[i..] == stale[i..]
      invariant ReadSizes(b, 1, n, len) == BehindSizes(sizes[..i], ReadSizes(b, pos, n - i, len))
    {
      SizesStep(b, pos, n - i, len, sizes[..i]);
      var v := ReadLe(b, pos, len);
      if v.None? {
        return None;
      }
      ghost var before := sizes[..i];
      sizes[i] := v.value;
      assert sizes[..i + 1] == before + [v.value];
      assert sizes[i + 1..] == stale[i..][1..];
      pos := pos + len;
    }
    SizesNone(b, pos, len, sizes[..n]);
    assert sizes[..] == sizes[..n] + stale[n..];
    return Some(pos);
  }

  function BehindSizes(before: seq<nat>, rest: Option<(seq<nat>, nat)>): Option<(seq<nat>, nat)> {
    match rest
    case None => None
    case Some((sizes, end)) => Some((before + sizes, end))
  }

  lemma {:induction false} SizesFromStart(p: Option<(seq<nat>, nat)>)
    ensures BehindSizes([], p) == p
  {
    if p.Some? {
      assert [] + p.value.0 == p.value.0;
    }
  }

  lemma {:induction false} SizesStep(b: seq<byte>, pos: nat, n: nat, len: nat, before: seq<nat>)
    requires n > 0
    ensures BehindSizes(before, ReadSizes(b, pos, n, len)) ==
      if pos + len > |b| then None
      else BehindSizes(before + [FromLe(b[pos..pos + len])], ReadSizes(b, pos + len, n - 1, len))
  {
    hide Pow2, FromLe;
    if pos + len <= |b| && ReadSizes(b, pos + len, n - 1, len).Some? {
      var v, rest := FromLe(b[pos..pos + len]), ReadSizes(b, pos + len, n - 1, len).value.0;
      assert before + ([v] + rest) == before + [v] + rest;
    }
  }

  lemma {:induction false} SizesNone(b: seq<byte>, pos: nat, len: nat, before: seq<nat>)
    ensures BehindSizes(before, ReadSizes(b, pos, 0, len)) == Some((before, pos))
  {
    assert before + [] == before;
  }

  /** cbs_vp9_split_fragment */
  method SplitFragment(data: seq<byte>, stale: seq<nat>) returns (frames: Option<seq<seq<byte>>>)
    requires |stale| == VP9_MAX_FRAMES_IN_SUPERFRAME
    ensures frames == Split(data, stale)
  {
    hide ReadIndex, Frames;
    if |data| == 0 {
      return None;
    }
    var last := data[|data| - 1];
    if last / 32 != VP9_SUPERFRAME_MARKER {
      return Some([data]);
    }
    var size := 2 + (last / 8 % 4 + 1) * (last % 8 + 1);
    if size > |data| {
      return None;
    }
    var index := ReadSuperframeIndex(data[|data| - size..], stale);
    if index.None? {
      return None;
    }
    frames := CutFrames(data, index.value.sizes[..index.value.frames], size);
  }

  /** The loop of the splitter. */
  method CutFrames(data: seq<byte>, sizes: seq<nat>, indexSize: nat) returns (frames: Option<seq<seq<byte>>>)
    requires indexSize <= |data|
    ensures frames == Frames(data, sizes, 0, indexSize)
  {
    hide Frames;
    var pos: nat := 0;
    var acc: seq<seq<byte>> := [];
    assert sizes[0..] == sizes;
    FramesBehindNothing(Frames(data, sizes, 0, indexSize));
    for i := 0 to |sizes|
      invariant Frames(data, sizes, 0, indexSize) == After(acc, Frames(data, sizes[i..], pos, indexSize))
      invariant pos + indexSize <= |data|
    {
      FramesStep(data, sizes, i, pos, indexSize, acc);
      if pos + sizes[i] + indexSize > |data| {
        return None;
      }
      acc := acc + [data[pos..pos + sizes[i]]];
      pos := pos + sizes[i];
    }
    FramesNone(data, sizes[|sizes|..], pos, indexSize, acc);
    return Some(acc);
  }

  function After(before: seq<seq<byte>>, rest: Option<seq<seq<byte>>>): Option<seq<seq<byte>>> {
    match rest
    case None => None
    case Some(frames) => Some(before + frames)
  }

  lemma {:induction false} FramesBehindNothing(p: Option<seq<seq<byte>>>)
    ensures After([], p) == p
  {
    if p.Some? {
      assert [] + p.value == p.value;
    }
  }

  lemma {:induction false} FramesStep(data: seq<byte>, sizes: seq<nat>, i: nat, pos: nat, indexSize: nat,
                                      before: seq<seq<byte>>)
    requires i < |sizes|
    ensures After(before, Frames(data, sizes[i..], pos, indexSize)) ==
      if pos + sizes[i] + indexSize > |data| then None
      else After(before + [data[pos..pos + sizes[i]]], Frames(data, sizes[i + 1..], pos + sizes[i], indexSize))
  {
    assert sizes[i..][0] == sizes[i] && sizes[i..][1..] == sizes[i + 1..];
    if pos + sizes[i] + indexSize <= |data| && Frames(data, sizes[i + 1..], pos + sizes[i], indexSize).Some? {
      var frame, rest := data[pos..pos + sizes[i]], Frames(data, sizes[i + 1..], pos + sizes[i], indexSize).value;
      assert before + ([frame] + rest) == before + [frame] + rest;
    }
  }

  lemma {:induction false} FramesNone(data: seq<byte>, sizes: seq<nat>, pos: nat, indexSize: nat,
                                      before: seq<seq<byte>>)
    requires |sizes| == 0
    ensures After(before, Frames(data, sizes, pos, indexSize)) == Some(before)
  {
    assert before + [] == before;
  }

  /** cbs_vp9_assemble_fragment. The index fills exactly the space left behind the frames. */
  method AssembleFragment(frames: seq<seq<byte>>) returns (data: Option<seq<byte>>)
    ensures data == Assemble(frames)
  {
    hide Pow2, Log2, Joined, Largest, IndexBytes;
    if |frames| == 1 {
      return Some(frames[0]);
    }
    if |frames| > 8 {
      return None;
    }
    var max := FindLargest(frames);
    var len := if max < 2 then 1 else Log2(max % 0x1_0000_0000) / 8 + 1;
    SizeLengthBounds(max);
    if |frames| == 0 {
      // frames_in_superframe_minus_1 is 255 and does not fit its three bits.
      return None;
    }
    var size := MeasureFrames(frames, len);
    var buffer := new byte[size];
    var pos := PutFrames(frames, buffer);
    IndexLength(frames, len);
    assert size - pos == 2 + |frames| * len;
    pos := WriteSuperframeIndex(buffer, pos, frames, len);
    assert buffer[..] == buffer[..pos];
    return Some(buffer[..]);
  }

  lemma {:induction false} IndexLength(frames: seq<seq<byte>>, len: nat)
    requires 1 <= len <= 4 && 1 <= |frames| <= 8
    ensures |IndexBytes(FrameSizes(frames), len)| == 2 + |frames| * len
  {
  }

  /** The loop that finds the largest frame. */
  method FindLargest(frames: seq<seq<byte>>) returns (max: nat)
    ensures max == Largest(frames)
  {
    max := 0;
    assert frames[..0] == [];
    for i := 0 to |frames|
      invariant max == Largest(frames[..i])
    {
      assert frames[..i + 1][..i] == frames[..i];
      if max < |frames[i]| {
        max := |frames[i]|;
      }
    }
    assert frames[..|frames|] == frames;
  }

  /** The loop that adds up the size of the superframe. */
  method MeasureFrames(frames: seq<seq<byte>>, len: nat) returns (size: nat)
    ensures size == 2 + |frames| * len + |Joined(frames)| && |frames| * len >= 0
  {
    size := 2;
    assert frames[0..] == frames;
    for i := 0 to |frames|
      invariant i * len >= 0 && size + |Joined(frames[i..])| == 2 + i * len + |Joined(frames)|
    {
      assert frames[i..][1..] == frames[i + 1..];
      SizesLength(i, len);
      size := size + len + |frames[i]|;
    }
  }

  /** The loop that copies the frames. */
  method PutFrames(frames: seq<seq<byte>>, data: array<byte>) returns (pos: nat)
    requires |Joined(frames)| <= data.Length
    modifies data
    ensures pos == |Joined(frames)| && data[..pos] == Joined(frames)
  {
    hide Joined;
    pos := 0;
    assert frames[0..] == frames;
    for i := 0 to |frames|
      invariant pos <= data.Length && data[..pos] + Joined(frames[i..]) == Joined(frames)
    {
      JoinedStep(frames, i, data[..pos]);
      pos := CopyTo(data, pos, frames[i]);
    }
    JoinedNone(frames[|frames|..]);
    assert data[..pos] + [] == data[..pos];
  }

  lemma {:induction false} JoinedStep(frames: seq<seq<byte>>, i: nat, before: seq<byte>)
    requires i < |frames|
    ensures before + Joined(frames[i..]) == before + frames[i] + Joined(frames[i + 1..])
  {
    assert frames[i..][1..] == frames[i + 1..];
  }

  lemma {:induction false} JoinedNone(frames: seq<seq<byte>>)
    requires |frames| == 0
    ensures Joined(frames) == []
  {
  }

  /** superframe_index, for writing, over whole bytes. */
  method WriteSuperframeIndex(data: array<byte>, start: nat, frames: seq<seq<byte>>, len: nat) returns (pos: nat)
    requires 1 <= len <= 4 && 1 <= |frames| <= 8 && start + |IndexBytes(FrameSizes(frames), len)| <= data.Length
    modifies data
    ensures pos == start + |IndexBytes(FrameSizes(frames), len)|
    ensures data[..pos] == old(data[..start]) + IndexBytes(FrameSizes(frames), len)
  {
    hide Sizes, LeBytes, Pow2;
    var h := HeaderByte(len, |frames|);
    ghost var before, sizes := data[..start], FrameSizes(frames);
    pos := CopyTo(data, start, [h]);
    assert sizes[0..] == sizes;
    for i := 0 to |frames|
      invariant start < pos && pos + |Sizes(sizes[i..], len)| + 1 <= data.Length
      invariant data[..pos] + Sizes(sizes[i..], len) == before + [h] + Sizes(sizes, len)
    {
      SizesCons(sizes, i, len, data[..pos]);
      pos := WriteLe(data, pos, len, |frames[i]| % 0x1_0000_0000);
    }
    SizesNil(sizes[|frames|..], len);
    assert data[..pos] + [] == data[..pos];
    pos := CopyTo(data, pos, [h]);
    assert before + [h] + Sizes(sizes, len) + [h] == before + ([h] + Sizes(sizes, len) + [h]);
  }

  lemma {:induction false} SizesCons(sizes: seq<nat>, i: nat, len: nat, before: seq<byte>)
    requires i < |sizes|
    ensures before + Sizes(sizes[i..], len) == before + LeBytes(sizes[i], len) + Sizes(sizes[i + 1..], len)
    ensures |Sizes(sizes[i..], len)| == len + |Sizes(sizes[i + 1..], len)|
  {
    assert sizes[i..][1..] == sizes[i + 1..];
  }

  lemma {:induction false} SizesNil(sizes: seq<nat>, len: nat)
    requires |sizes| == 0
    ensures Sizes(sizes, len) == []
  {
  }
}
