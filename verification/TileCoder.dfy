// The code of a tile layout, as tile_info writes it, and reading it back.

module TileCoder {
  import opened Wrappers
  import opened Bits
  import opened Av1Codes
  import opened TileInfo
  import opened TileReader

  // ---- What can be written ----

  /** Sizes that an explicit layout can have along n superblocks: none is too large, and
      they cover the frame unless there are 64 of them. They are kept in bytes. */
  ghost predicate Sizes(sizes: seq<nat>, n: nat, maxSize: nat, left: nat) {
    && |sizes| <= left && Total(sizes) <= n && (Total(sizes) == n || |sizes| == left)
    && forall i :: 0 <= i < |sizes| ==> sizes[i] < 256 && sizes[i] + 1 <= maxSize
  }

  /** A layout that the syntax can code for a frame within the limits. */
  ghost predicate Legal(l: Limits, y: Layout)
    requires Sound(l)
  {
    && (if y.uniform then
          && l.minCols <= y.colsLog2 <= l.maxCols && l.minTiles - y.colsLog2 <= y.rowsLog2 <= l.maxRows
          && y.widths == UniformLayout(l, y.colsLog2, y.rowsLog2).widths
          && y.heights == UniformLayout(l, y.colsLog2, y.rowsLog2).heights
        else
          && 0 < |y.widths| && Sizes(y.widths, l.sbCols, l.maxWidth, 64)
          && Sizes(y.heights, l.sbRows, MaxHeight(l, Widest(y.widths)), 64)
          && y.colsLog2 == TileLog2(1, |y.widths|) && y.rowsLog2 == TileLog2(1, |y.heights|))
    && (if y.colsLog2 + y.rowsLog2 == 0 then y.updateId == 0 && y.sizeBytes == None
        else y.updateId < Pow2(y.colsLog2 + y.rowsLog2) && y.sizeBytes.Some? && y.sizeBytes.value < 4)
  }

  // ---- Its code ----

  /** The sizes as ns codes, each in the range that the frame and the limit leave. */
  function SizesCode(sizes: seq<nat>, n: int, maxSize: nat): seq<bool>
    requires SizesFit(sizes, n, maxSize)
  {
    if |sizes| == 0 then []
    else EncodeNs(Min(n, maxSize), sizes[0]) + SizesCode(sizes[1..], n - sizes[0] - 1, maxSize)
  }

  predicate SizesFit(sizes: seq<nat>, n: int, maxSize: nat) {
    |sizes| == 0 || (n > 0 && sizes[0] < Min(n, maxSize) && SizesFit(sizes[1..], n - sizes[0] - 1, maxSize))
  }

  lemma {:induction false} SizesDoFit(sizes: seq<nat>, n: nat, maxSize: nat)
    requires Total(sizes) <= n && forall i :: 0 <= i < |sizes| ==> sizes[i] + 1 <= maxSize
    ensures SizesFit(sizes, n, maxSize)
  {
    hide Total;
    if |sizes| > 0 {
      assert sizes == [sizes[0]] + sizes[1..];
      TotalCons(sizes[0], sizes[1..]);
      SizesDoFit(sizes[1..], n - sizes[0] - 1, maxSize);
    }
  }

  ghost function SpacingCode(l: Limits, y: Layout): seq<bool>
    requires Sound(l) && Legal(l, y)
  {
    if y.uniform then
      EncodeIncrement(l.minCols, l.maxCols, y.colsLog2)
        + EncodeIncrement(Max(l.minTiles - y.colsLog2, 0), l.maxRows, y.rowsLog2)
    else
      SizesDoFit(y.widths, l.sbCols, l.maxWidth);
      SizesDoFit(y.heights, l.sbRows, MaxHeight(l, Widest(y.widths)));
      SizesCode(y.widths, l.sbCols, l.maxWidth) + SizesCode(y.heights, l.sbRows, MaxHeight(l, Widest(y.widths)))
  }

  function TailCode(y: Layout): seq<bool> {
    if y.sizeBytes.None? then [] else ToBits(y.colsLog2 + y.rowsLog2, y.updateId) + ToBits(2, y.sizeBytes.value)
  }

  /** tile_info, as it is written. */
  ghost function TileInfoCode(l: Limits, y: Layout): seq<bool>
    requires Sound(l) && Legal(l, y)
  {
    [y.uniform] + (SpacingCode(l, y) + TailCode(y))
  }

  // ---- Reading it back ----

  lemma {:induction false} NsCodeLength(n: nat, value: nat)
    requires value < n
    ensures NsWidth(n) <= |EncodeNs(n, value)| + 1
  {
  }

  /** Sizes come back from their code when at least one bit follows it. */
  lemma {:induction false} SizesRoundTrip(data: seq<bool>, pos: nat, sizes: seq<nat>, n: nat, maxSize: nat, left: nat)
    requires maxSize > 0 && Sizes(sizes, n, maxSize, left) && SizesFit(sizes, n, maxSize)
    requires At(data, pos, SizesCode(sizes, n, maxSize)) && pos + |SizesCode(sizes, n, maxSize)| < |data|
    ensures DecodeSizes(data, pos, n, maxSize, left) == Parsed(sizes, |SizesCode(sizes, n, maxSize)|)
    decreases |sizes|
  {
    hide Total, EncodeNs, DecodeNs, At, NsWidth;
    if |sizes| == 0 {
      TotalNone(sizes);
    } else {
      var first, rest := sizes[0], sizes[1..];
      var code := EncodeNs(Min(n, maxSize), first);
      assert sizes == [first] + rest;
      TotalCons(first, rest);
      AtConcat(data, pos, code, SizesCode(rest, n - first - 1, maxSize));
      NsCodeLength(Min(n, maxSize), first);
      NsRoundTrip(data, pos, Min(n, maxSize), first);
      SizesRoundTrip(data, pos + |code|, rest, n - first - 1, maxSize, left - 1);
      hide SizesCode, SizesFit;
    }
  }

  lemma {:induction false} UniformRoundTrip(data: seq<bool>, pos: nat, l: Limits, y: Layout)
    requires Sound(l) && Legal(l, y) && y.uniform && pos <= |data| && At(data, pos, SpacingCode(l, y))
    ensures DecodeUniform(data, pos, l) == Parsed(y.(updateId := 0, sizeBytes := None), |SpacingCode(l, y)|)
  {
    hide EncodeIncrement, DecodeIncrement, At, Uniform, TileSize, TileCount;
    var least := Max(l.minTiles - y.colsLog2, 0);
    var cols, rows := EncodeIncrement(l.minCols, l.maxCols, y.colsLog2), EncodeIncrement(least, l.maxRows, y.rowsLog2);
    AtConcat(data, pos, cols, rows);
    IncrementRoundTrip(data, pos, l.minCols, l.maxCols, y.colsLog2);
    IncrementRoundTrip(data, pos + |cols|, least, l.maxRows, y.rowsLog2);
  }

  lemma {:induction false} ExplicitRoundTrip(data: seq<bool>, pos: nat, l: Limits, y: Layout)
    requires Sound(l) && Legal(l, y) && !y.uniform
    requires At(data, pos, SpacingCode(l, y)) && pos + |SpacingCode(l, y)| < |data|
    ensures DecodeExplicit(data, pos, l) == Parsed(y.(updateId := 0, sizeBytes := None), |SpacingCode(l, y)|)
  {
    hide SizesCode, DecodeSizes, Sizes, At, SizesFit, TileLog2, Widest, MaxHeight;
    var max := MaxHeight(l, Widest(y.widths));
    SizesDoFitBoth(l, y);
    var widths, heights := SizesCode(y.widths, l.sbCols, l.maxWidth), SizesCode(y.heights, l.sbRows, max);
    AtConcat(data, pos, widths, heights);
    SizesRoundTrip(data, pos, y.widths, l.sbCols, l.maxWidth, 64);
    SizesRoundTrip(data, pos + |widths|, y.heights, l.sbRows, max, 64);
  }

  lemma {:induction false} SizesDoFitBoth(l: Limits, y: Layout)
    requires Sound(l) && Legal(l, y) && !y.uniform
    ensures SizesFit(y.widths, l.sbCols, l.maxWidth) && SizesFit(y.heights, l.sbRows, MaxHeight(l, Widest(y.widths)))
  {
    SizesDoFit(y.widths, l.sbCols, l.maxWidth);
    SizesDoFit(y.heights, l.sbRows, MaxHeight(l, Widest(y.widths)));
  }

  lemma {:induction false} TailRoundTrip(data: seq<bool>, pos: nat, l: Limits, y: Layout)
    requires Sound(l) && Legal(l, y) && At(data, pos, TailCode(y))
    ensures DecodeTail(data, pos, y.colsLog2 + y.rowsLog2) == Parsed((y.updateId, y.sizeBytes), |TailCode(y)|)
  {
    hide ToBits, FromBits, Pow2, UniformLayout, Sizes, MaxHeight, Widest, TileLog2;
    var bits := y.colsLog2 + y.rowsLog2;
    if bits > 0 {
      var id, bytes := ToBits(bits, y.updateId), ToBits(2, y.sizeBytes.value);
      AtConcat(data, pos, id, bytes);
      FromTo(bits, y.updateId);
      PowersOfTwo();
      FromTo(2, y.sizeBytes.value);
    }
  }

  lemma {:induction false} PowersOfTwo()
    ensures Pow2(2) == 4
  {
  }

  ghost predicate FrameLegal(width: nat, height: nat, use128: bool, y: Layout)
    requires FrameSize(width) && FrameSize(height)
  {
    LimitsSound(width, height, use128);
    Legal(LimitsOf(width, height, use128), y)
  }

  ghost function FrameCode(width: nat, height: nat, use128: bool, y: Layout): seq<bool>
    requires FrameSize(width) && FrameSize(height) && FrameLegal(width, height, use128, y)
  {
    LimitsSound(width, height, use128);
    TileInfoCode(LimitsOf(width, height, use128), y)
  }

  /** Every legal layout of a frame comes back from its code, wherever it stands, when at
      least one more bit follows. */
  lemma {:induction false} TileInfoRoundTrip(data: seq<bool>, pos: nat, width: nat, height: nat, use128: bool,
                                             y: Layout)
    requires FrameSize(width) && FrameSize(height) && FrameLegal(width, height, use128, y)
    requires At(data, pos, FrameCode(width, height, use128, y)) && pos + |FrameCode(width, height, use128, y)| < |data|
    ensures DecodeFrame(data, pos, width, height, use128) == Parsed(y, |FrameCode(width, height, use128, y)|)
  {
    hide LimitsOf, Legal, SpacingCode, TailCode, At, DecodeUniform, DecodeExplicit, DecodeTail, Sound;
    var l := LimitsOf(width, height, use128);
    LimitsSound(width, height, use128);
    var spacing, tail := SpacingCode(l, y), TailCode(y);
    AtConcat(data, pos, [y.uniform], spacing + tail);
    AtConcat(data, pos + 1, spacing, tail);
    FirstBitIs(data, pos, y.uniform);
    if y.uniform {
      UniformRoundTrip(data, pos + 1, l, y);
    } else {
      ExplicitRoundTrip(data, pos + 1, l, y);
    }
    TailRoundTrip(data, pos + 1 + |spacing|, l, y);
  }

  lemma {:induction false} FirstBitIs(data: seq<bool>, pos: nat, bit: bool)
    requires At(data, pos, [bit])
    ensures pos < |data| && data[pos] == bit
  {
    assert data[pos..pos + 1][0] == data[pos];
  }
}
