// Reading the tile layout of an AV1 frame: what tile_info decodes, and the loops that do.

module TileReader {
  import opened Wrappers
  import opened Bits
  import opened Arith
  import opened Av1Codes
  import opened Av1Coder
  import opened TileInfo

  /** The fields tile_info sets; widths and heights are stored minus one. The size of the
      tile sizes is sent only with context_update_tile_id. */
  datatype Layout = Layout(uniform: bool, colsLog2: nat, rowsLog2: nat, widths: seq<nat>, heights: seq<nat>,
                           updateId: nat, sizeBytes: Option<nat>)

  // ---- Explicit spacing ----

  /** Sizes for n superblocks, each at most maxSize, and at most `left` of them. */
  function DecodeSizes(data: seq<bool>, pos: nat, n: nat, maxSize: nat, left: nat): (p: Parse<seq<nat>>)
    requires maxSize > 0 && pos <= |data|
    ensures p.Parsed? ==> pos + p.used <= |data|
    decreases left
  {
    if n == 0 || left == 0 then Parsed([], 0)
    else
      match DecodeNs(data, pos, Min(n, maxSize))
      case Bad => Bad
      case Parsed(v, used) =>
        match DecodeSizes(data, pos + used, n - (Byte(v) + 1), maxSize, left - 1)
        case Bad => Bad
        case Parsed(rest, more) => Parsed([Byte(v)] + rest, used + more)
  }

  /** The sizes never exceed the frame, and cover it unless there are too many of them. */
  lemma {:induction false} SizesMeaning(data: seq<bool>, pos: nat, n: nat, maxSize: nat, left: nat)
    requires maxSize > 0 && pos <= |data| && DecodeSizes(data, pos, n, maxSize, left).Parsed?
    ensures var sizes := DecodeSizes(data, pos, n, maxSize, left).value;
      && |sizes| <= left && (n > 0 && left > 0 ==> |sizes| > 0)
      && Total(sizes) <= n && (Total(sizes) == n || |sizes| == left)
      && forall i :: 0 <= i < |sizes| ==> sizes[i] + 1 <= maxSize
    decreases left
  {
    hide DecodeNs, Total;
    if n == 0 || left == 0 {
      TotalNone([]);
    } else {
      var v, used := DecodeNs(data, pos, Min(n, maxSize)).value, DecodeNs(data, pos, Min(n, maxSize)).used;
      SizesMeaning(data, pos + used, n - (Byte(v) + 1), maxSize, left - 1);
      TotalCons(Byte(v), DecodeSizes(data, pos + used, n - (Byte(v) + 1), maxSize, left - 1).value);
    }
  }

  /** widest_tile_sb */
  function Widest(sizes: seq<nat>): (w: nat)
    ensures forall i :: 0 <= i < |sizes| ==> sizes[i] + 1 <= w
    ensures |sizes| > 0 ==> w > 0
  {
    if |sizes| == 0 then 0
    else Max(sizes[|sizes| - 1] + 1, Widest(sizes[..|sizes| - 1]))
  }

  /** It is the size of a tile. */
  lemma {:induction false} WidestIsOne(sizes: seq<nat>)
    requires |sizes| > 0
    ensures exists i :: 0 <= i < |sizes| && sizes[i] + 1 == Widest(sizes)
  {
    var n := |sizes| - 1;
    if n == 0 {
      WidestNone(sizes[..n]);
      assert sizes[0] + 1 == Widest(sizes);
    } else {
      WidestIsOne(sizes[..n]);
      var i :| 0 <= i < n && sizes[..n][i] + 1 == Widest(sizes[..n]);
      assert sizes[i] == sizes[..n][i];
    }
  }

  /** The area limit of explicit spacing. */
  function AreaLimit(l: Limits): nat {
    var area := Area(l.sbRows, l.sbCols);
    if l.minTiles > 0 then ShiftRight(area, l.minTiles + 1) else area
  }

  function Area(rows: nat, cols: nat): nat {
    NonNegative(rows, cols);
    rows * cols
  }

  function MaxHeight(l: Limits, widest: nat): (h: nat)
    requires widest > 0
    ensures h > 0
  {
    Max(AreaLimit(l) / widest, 1)
  }

  // ---- The whole syntax ----

  /** context_update_tile_id and tile_size_bytes_minus1, when there is more than one tile. */
  function DecodeTail(data: seq<bool>, pos: nat, bits: nat): Parse<(nat, Option<nat>)> {
    if bits == 0 then Parsed((0, None), 0)
    else if pos + bits + 2 > |data| then Bad
    else Parsed((FromBits(data[pos..pos + bits]), Some(FromBits(data[pos + bits..pos + bits + 2]))), bits + 2)
  }

  function WithTail(data: seq<bool>, pos: nat, y: Layout, used: nat): Parse<Layout> {
    match DecodeTail(data, pos + used, y.colsLog2 + y.rowsLog2)
    case Bad => Bad
    case Parsed((id, bytes), more) => Parsed(y.(updateId := id, sizeBytes := bytes), used + more)
  }

  /** The layout for coded counts. */
  function UniformLayout(l: Limits, colsLog2: nat, rowsLog2: nat): Layout
    requires l.sbCols > 0 && l.sbRows > 0
  {
    TileCountBounds(l.sbCols, colsLog2);
    TileCountBounds(l.sbRows, rowsLog2);
    var w, h := TileSize(l.sbCols, colsLog2), TileSize(l.sbRows, rowsLog2);
    var widths, heights := Uniform(l.sbCols, w, TileCount(l.sbCols, w)), Uniform(l.sbRows, h, TileCount(l.sbRows, h));
    Layout(true, colsLog2, rowsLog2, widths, heights, 0, None)
  }

  function DecodeUniform(data: seq<bool>, pos: nat, l: Limits): (p: Parse<Layout>)
    requires pos <= |data| && l.sbCols > 0 && l.sbRows > 0 && l.minCols <= l.maxCols
    requires l.minTiles - l.minCols <= l.maxRows
  {
    match DecodeIncrement(data, pos, l.minCols, l.maxCols)
    case Bad => Bad
    case Parsed(cols, a) =>
      match DecodeIncrement(data, pos + a, Max(l.minTiles - cols, 0), l.maxRows)
      case Bad => Bad
      case Parsed(rows, b) => Parsed(UniformLayout(l, cols, rows), a + b)
  }

  function DecodeExplicit(data: seq<bool>, pos: nat, l: Limits): Parse<Layout>
    requires pos <= |data| && l.sbCols > 0 && l.maxWidth > 0
  {
    match DecodeSizes(data, pos, l.sbCols, l.maxWidth, AV1_MAX_TILE_COLS)
    case Bad => Bad
    case Parsed(widths, a) =>
      SizesMeaning(data, pos, l.sbCols, l.maxWidth, AV1_MAX_TILE_COLS);
      match DecodeSizes(data, pos + a, l.sbRows, MaxHeight(l, Widest(widths)), AV1_MAX_TILE_ROWS)
      case Bad => Bad
      case Parsed(heights, b) =>
        Parsed(Layout(false, TileLog2(1, |widths|), TileLog2(1, |heights|), widths, heights, 0, None), a + b)
  }

  predicate Sound(l: Limits) {
    && 0 < l.sbCols <= 1024 && 0 < l.sbRows <= 1024 && 0 < l.maxWidth <= 64
    && l.minCols <= l.maxCols <= 6 && l.maxRows <= 6
    && l.minCols == TileLog2(l.maxWidth, l.sbCols)
    && l.minTiles - l.minCols <= l.maxRows
  }

  lemma {:induction false} LimitsSound(width: nat, height: nat, use128: bool)
    requires FrameSize(width) && FrameSize(height)
    ensures Sound(LimitsOf(width, height, use128))
  {
    hide SbCount;
    var l := LimitsOf(width, height, use128);
    SbCountBounds(width, use128);
    SbCountBounds(height, use128);
    RangesNonempty(width, height, use128, l.minCols);
  }

  /** uniform_tile_spacing_flag and the counts or sizes. */
  function DecodeSpacing(data: seq<bool>, pos: nat, l: Limits): Parse<Layout>
    requires pos <= |data| && Sound(l)
  {
    if pos == |data| then Bad
    else
      match if data[pos] then DecodeUniform(data, pos + 1, l) else DecodeExplicit(data, pos + 1, l)
      case Bad => Bad
      case Parsed(y, used) => Parsed(y, used + 1)
  }

  /** tile_info, for reading. */
  function DecodeTileInfo(data: seq<bool>, pos: nat, l: Limits): Parse<Layout>
    requires pos <= |data| && Sound(l)
  {
    match DecodeSpacing(data, pos, l)
    case Bad => Bad
    case Parsed(y, used) => WithTail(data, pos, y, used)
  }

  /** tile_info of a frame, for reading. */
  function DecodeFrame(data: seq<bool>, pos: nat, width: nat, height: nat, use128: bool): Parse<Layout>
    requires pos <= |data| && FrameSize(width) && FrameSize(height)
  {
    LimitsSound(width, height, use128);
    DecodeTileInfo(data, pos, LimitsOf(width, height, use128))
  }

  // ---- What a layout promises ----

  /** The tiles of the sizes, in superblocks of `sb` samples, cover the frame with none to
      spare. */
  ghost predicate Covers(sizes: seq<nat>, sb: nat, frame: nat) {
    (Total(sizes) - 1) * sb < frame <= Total(sizes) * sb
  }

  /** Uniform spacing: every size but the last is the same least size with which 2^log2 tiles
      are enough, and the last is not larger. */
  ghost predicate Even(sizes: seq<nat>, log2: nat, n: nat) {
    && 1 <= |sizes| <= Pow2(log2)
    && (forall i :: 0 <= i < |sizes| - 1 ==> sizes[i] * Pow2(log2) < n <= (sizes[i] + 1) * Pow2(log2))
    && forall i :: 0 <= i < |sizes| ==> sizes[i] <= sizes[0]
  }

  /** Uniform spacing: the columns cover the width of the frame in even tiles of at most 4096
      samples, and the counts allow for the largest tile area. The rows cover the height, in
      even tiles, exactly when 2^log2 tiles of 256 superblocks would. */
  lemma {:induction false} UniformMeaning(data: seq<bool>, pos: nat, width: nat, height: nat, use128: bool)
    requires pos < |data| && FrameSize(width) && FrameSize(height) && data[pos]
    requires DecodeFrame(data, pos, width, height, use128).Parsed?
    ensures var l, sb := LimitsOf(width, height, use128), if use128 then 128 else 64;
      var y := DecodeFrame(data, pos, width, height, use128).value;
      && Covers(y.widths, sb, width) && Even(y.widths, y.colsLog2, l.sbCols)
      && |y.widths| <= 64 && (forall i :: 0 <= i < |y.widths| ==> (y.widths[i] + 1) * sb <= 4096)
      && (Covers(y.heights, sb, height) <==> l.sbRows <= 256 * Pow2(y.rowsLog2))
      && (l.sbRows <= 256 * Pow2(y.rowsLog2) ==> Even(y.heights, y.rowsLog2, l.sbRows))
      && 1 <= |y.heights| <= Pow2(y.rowsLog2) <= 64
      && 4096 * 2304 / (sb * sb) * Pow2(y.colsLog2 + y.rowsLog2) >= l.sbRows * l.sbCols
  {
    hide DecodeIncrement, Total, Uniform, TileSize, TileCount, Pow2, DecodeTail, TileLog2, LimitsOf, Covers, Even;
    var l := LimitsOf(width, height, use128);
    LimitsSound(width, height, use128);
    var cols := DecodeIncrement(data, pos + 1, l.minCols, l.maxCols).value;
    var a := DecodeIncrement(data, pos + 1, l.minCols, l.maxCols).used;
    var rows := DecodeIncrement(data, pos + 1 + a, Max(l.minTiles - cols, 0), l.maxRows).value;
    LimitsMeaning(width, height, use128, cols + rows);
    ColumnsFit(l, cols);
    UniformHalf(l.sbCols, cols);
    UniformHalf(l.sbRows, rows);
    var y := UniformLayout(l, cols, rows);
    CoversIff(y.widths, l.sbCols, use128, width);
    CoversIff(y.heights, l.sbRows, use128, height);
    UpTo64(rows);
  }

  lemma {:induction false} UniformHalf(n: nat, log2: nat)
    requires n > 0
    ensures TileSize(n, log2) > 0
    ensures var size, t := TileSize(n, log2), TileCount(n, TileSize(n, log2));
      && 0 <= (t - 1) * size < n && 1 <= t <= Pow2(log2)
      && (Total(Uniform(n, size, t)) == n <==> n <= 256 * Pow2(log2))
      && (n <= 256 * Pow2(log2) ==> Even(Uniform(n, size, t), log2, n))
  {
    hide Total, TileSize, TileCount, Pow2;
    TileSizeIs(n, log2);
    TileCountBounds(n, log2);
    var size, t := TileSize(n, log2), TileCount(n, TileSize(n, log2));
    TileSizeIff(n, log2, 256);
    TileSizeIff(n, log2, size - 1);
    UniformTotal(n, size, t);
    hide Uniform;
    if size <= 256 {
      UniformEven(n, log2, size, t);
    }
  }

  lemma {:induction false} UniformEven(n: nat, log2: nat, size: nat, t: nat)
    requires 0 <= (t - 1) * size < n && 0 < size <= 256 && 1 <= t <= Pow2(log2)
    requires (size - 1) * Pow2(log2) < n <= size * Pow2(log2)
    requires forall i :: 0 <= i < t ==> Uniform(n, size, t)[i] + 1 <= size
    ensures Even(Uniform(n, size, t), log2, n)
  {
    hide Pow2;
    var sizes := Uniform(n, size, t);
    assert forall i :: 0 <= i < t - 1 ==> sizes[i] == size - 1;
  }

  lemma {:induction false} CoversIff(sizes: seq<nat>, n: nat, use128: bool, frame: nat)
    requires var sb := if use128 then 128 else 64; (n - 1) * sb < frame <= n * sb
    ensures Covers(sizes, if use128 then 128 else 64, frame) <==> Total(sizes) == n
  {
    hide Total;
  }

  /** A frame of 8 by 65536 with one uniform tile: the tile is 1024 superblocks high, and the
      byte stored for it says 256. */
  lemma {:induction false} TallTileStoredShort()
    ensures var l := LimitsOf(8, 0x1_0000, false);
      && l.sbRows == 1024 && Sound(l) && l.sbCols == 1
      && DecodeTileInfo([true, false], 0, l) == Parsed(Layout(true, 0, 0, [0], [255], 0, None), 2)
      && Total([255]) == 256
  {
    hide DecodeIncrement, DecodeTileInfo, Total, LimitsOf;
    LimitsSound(8, 0x1_0000, false);
    TallLimits();
    TallLayout([true, false], LimitsOf(8, 0x1_0000, false));
    TotalNone([]);
    assert [255] == [] + [255];
    TotalSnoc([], 255);
  }

  lemma {:induction false} TallLimits()
    ensures LimitsOf(8, 0x1_0000, false) == Limits(1, 1024, 64, 0, 0, 6, 0)
  {
    hide TileLog2;
    OneTileLimits();
  }

  lemma {:induction false} TallLayout(data: seq<bool>, l: Limits)
    requires |data| == 2 && data[0] && !data[1]
    requires Sound(l) && l == Limits(1, 1024, 64, 0, 0, 6, 0)
    ensures DecodeTileInfo(data, 0, l) == Parsed(Layout(true, 0, 0, [0], [255], 0, None), 2)
  {
    hide DecodeUniform, DecodeExplicit, Sound, WithTail, UniformLayout;
    TallUniform(l);
    TallCounts(data, l);
    NoTail(data, 0, UniformLayout(l, 0, 0), 2);
  }

  lemma {:induction false} NoTail(data: seq<bool>, pos: nat, y: Layout, used: nat)
    requires y.colsLog2 == y.rowsLog2 == 0 && y.updateId == 0 && y.sizeBytes == None
    ensures WithTail(data, pos, y, used) == Parsed(y, used)
  {
  }

  lemma {:induction false} TallCounts(data: seq<bool>, l: Limits)
    requires |data| == 2 && !data[1] && l == Limits(1, 1024, 64, 0, 0, 6, 0)
    ensures DecodeUniform(data, 1, l) == Parsed(UniformLayout(l, 0, 0), 1)
  {
    hide DecodeIncrement, UniformLayout;
    NoIncrement(data, 1);
    FirstIncrement(data, 1);
  }

  lemma {:induction false} TallUniform(l: Limits)
    requires l == Limits(1, 1024, 64, 0, 0, 6, 0)
    ensures UniformLayout(l, 0, 0) == Layout(true, 0, 0, [0], [255], 0, None)
  {
    hide Uniform, TileSize, TileCount;
    OneTile(1);
    OneTile(1024);
  }

  lemma {:induction false} OneTileLimits()
    ensures TileLog2(64, 1) == 0 && TileLog2(1, 1) == 0 && TileLog2(2304, 1024) == 0
    ensures TileLog2(1, 64) == 6
  {
    assert TileLog2(4, 64) == 4 && TileLog2(1, 64) == 2 + TileLog2(4, 64) by {
      assert TileLog2(16, 64) == 2;
    }
  }

  lemma {:induction false} NoIncrement(data: seq<bool>, pos: nat)
    requires pos <= |data|
    ensures DecodeIncrement(data, pos, 0, 0) == Parsed(0, 0)
  {
  }

  lemma {:induction false} FirstIncrement(data: seq<bool>, pos: nat)
    requires pos < |data| && !data[pos]
    ensures DecodeIncrement(data, pos, 0, 6) == Parsed(0, 1)
  {
  }

  /** Coded with a count of 2^0, the frame is one tile. */
  lemma {:induction false} OneTile(n: nat)
    requires n > 0
    ensures TileSize(n, 0) == n && TileCount(n, n) == 1
    ensures Uniform(n, n, 1) == [Byte(n - 1)]
  {
    assert Pow2(0) == 1;
    Quotient(n + n - 1, n, 1, n - 1);
    assert 0 * n == 0;
  }

  lemma {:induction false} UpTo64(k: nat)
    requires k <= 6
    ensures Pow2(k) <= 64
  {
    Pow2Monotone(k, 6);
    assert Pow2(6) == 64;
  }

  lemma {:induction false} ColumnsFit(l: Limits, cols: nat)
    requires Sound(l) && l.minCols <= cols <= 6
    ensures TileSize(l.sbCols, cols) > 0
    ensures var size, t := TileSize(l.sbCols, cols), TileCount(l.sbCols, TileSize(l.sbCols, cols));
      && 0 <= (t - 1) * size < l.sbCols && 1 <= t <= Pow2(cols) <= AV1_MAX_TILE_COLS
      && Total(Uniform(l.sbCols, size, t)) == l.sbCols
      && forall i :: 0 <= i < t ==> 1 <= Uniform(l.sbCols, size, t)[i] + 1 <= l.maxWidth
  {
    hide Total, Uniform, TileSize, TileCount, Pow2, TileLog2;
    var size := TileSize(l.sbCols, cols);
    TileLog2Reaches(l.maxWidth, l.sbCols);
    Pow2Monotone(l.minCols, cols);
    MonotoneProduct(Pow2(l.minCols), Pow2(cols), l.maxWidth);
    Commute(l.maxWidth, Pow2(l.minCols));
    Commute(l.maxWidth, Pow2(cols));
    TileSizeFits(l.sbCols, cols, l.maxWidth);
    TileSizeIs(l.sbCols, cols);
    TileCountBounds(l.sbCols, cols);
    UniformTotal(l.sbCols, size, TileCount(l.sbCols, size));
    UpTo64(cols);
  }

  /** A tile one superblock high, or within the area that explicit spacing allows. */
  ghost predicate AreaAllowed(l: Limits, w: nat, h: nat) {
    h == 1 || w * h * (if l.minTiles > 0 then Pow2(l.minTiles + 1) else 1) <= l.sbRows * l.sbCols
  }

  /** log2 is the least exponent of as many tiles. */
  ghost predicate LeastLog2(log2: nat, tiles: nat) {
    forall k: nat :: k >= log2 <==> Pow2(k) >= tiles
  }

  /** Explicit spacing: the columns cover the width and the rows the height of the frame with
      none to spare unless 64 sizes do not reach that far; no column is wider than 4096
      samples, and no tile has more than the allowed area. */
  lemma {:induction false} ExplicitMeaning(data: seq<bool>, pos: nat, width: nat, height: nat, use128: bool)
    requires pos < |data| && FrameSize(width) && FrameSize(height) && !data[pos]
    requires DecodeFrame(data, pos, width, height, use128).Parsed?
    ensures var l, sb := LimitsOf(width, height, use128), if use128 then 128 else 64;
      var y := DecodeFrame(data, pos, width, height, use128).value;
      && 1 <= |y.widths| <= 64 && 1 <= |y.heights| <= 64
      && (Covers(y.widths, sb, width) || (|y.widths| == 64 && Total(y.widths) * sb < width))
      && (Covers(y.heights, sb, height) || (|y.heights| == 64 && Total(y.heights) * sb < height))
      && LeastLog2(y.colsLog2, |y.widths|) && LeastLog2(y.rowsLog2, |y.heights|)
      && (forall i :: 0 <= i < |y.widths| ==> (y.widths[i] + 1) * sb <= 4096)
      && forall i, j :: 0 <= i < |y.widths| && 0 <= j < |y.heights| ==>
        AreaAllowed(l, y.widths[i] + 1, y.heights[j] + 1)
  {
    hide DecodeSizes, Total, AreaLimit, DecodeTail, TileLog2, Widest, Pow2, LimitsOf, AreaAllowed, LeastLog2, Covers;
    var l := LimitsOf(width, height, use128);
    LimitsSound(width, height, use128);
    LimitsMeaning(width, height, use128, 0);
    var a := DecodeSizes(data, pos + 1, l.sbCols, l.maxWidth, AV1_MAX_TILE_COLS);
    var y := DecodeFrame(data, pos, width, height, use128).value;
    SizesMeaning(data, pos + 1, l.sbCols, l.maxWidth, AV1_MAX_TILE_COLS);
    var max := MaxHeight(l, Widest(y.widths));
    SizesMeaning(data, pos + 1 + a.used, l.sbRows, max, AV1_MAX_TILE_ROWS);
    CoversOrShort(y.widths, l.sbCols, use128, width);
    CoversOrShort(y.heights, l.sbRows, use128, height);
    CountLog2(|y.widths|);
    CountLog2(|y.heights|);
    forall i, j | 0 <= i < |y.widths| && 0 <= j < |y.heights|
      ensures AreaAllowed(l, y.widths[i] + 1, y.heights[j] + 1)
    {
      TileArea(l, y.widths[i] + 1, y.heights[j] + 1, Widest(y.widths));
    }
  }

  lemma {:induction false} CoversOrShort(sizes: seq<nat>, n: nat, use128: bool, frame: nat)
    requires var sb := if use128 then 128 else 64; (n - 1) * sb < frame <= n * sb
    requires Total(sizes) <= n
    ensures var sb := if use128 then 128 else 64;
      if Total(sizes) == n then Covers(sizes, sb, frame) else Total(sizes) * sb < frame
  {
    hide Total;
  }

  lemma {:induction false} CountLog2(tiles: nat)
    ensures LeastLog2(TileLog2(1, tiles), tiles)
  {
    hide Pow2, TileLog2;
    forall k: nat ensures k >= TileLog2(1, tiles) <==> Pow2(k) >= tiles {
      TileLog2Iff(1, tiles, k);
    }
  }

  lemma {:induction false} TileArea(l: Limits, w: nat, h: nat, widest: nat)
    requires 0 < w <= widest && h <= MaxHeight(l, widest)
    ensures AreaAllowed(l, w, h)
  {
    hide Pow2, MaxHeight;
    MaxHeightIff(l, widest, h);
    if h > 1 {
      var p := if l.minTiles > 0 then Pow2(l.minTiles + 1) else 1;
      MonotoneProduct(w, widest, h);
      MonotoneProduct(w * h, widest * h, p);
    }
  }

  /** The height limit is the largest height with which a widest tile is allowed. */
  lemma {:induction false} MaxHeightIff(l: Limits, widest: nat, h: nat)
    requires widest > 0
    ensures h <= MaxHeight(l, widest) <==> h == 0 || AreaAllowed(l, widest, h)
  {
    hide Pow2;
    var p := if l.minTiles > 0 then Pow2(l.minTiles + 1) else 1;
    var area := Area(l.sbRows, l.sbCols);
    ShiftedBack(area, l.minTiles + 1);
    DivideIff(area, p, AreaLimit(l), widest * h);
    QuotientIff(AreaLimit(l), widest, h);
  }

  lemma {:induction false} DivideIff(area: nat, p: nat, limit: nat, v: nat)
    requires limit * p <= area < (limit + 1) * p
    ensures v <= limit <==> v * p <= area
  {
    if v <= limit {
      MonotoneProduct(v, limit, p);
    } else {
      MonotoneProduct(limit + 1, v, p);
    }
  }

  lemma {:induction false} QuotientIff(limit: nat, d: nat, h: nat)
    requires d > 0
    ensures h <= limit / d <==> 0 <= d * h <= limit
  {
    QuotientTimes(limit, d);
    Commute(d, h);
    if h <= limit / d {
      MonotoneProduct(h, limit / d, d);
    } else {
      MonotoneProduct(limit / d + 1, h, d);
      MultipleSum(limit / d, 1, d);
    }
    NonNegative(d, h);
  }

  lemma {:induction false} QuotientTimes(v: nat, d: nat)
    requires d > 0
    ensures v / d * d <= v < v / d * d + d
  {
  }

  lemma {:induction false} ShiftedBack(v: nat, n: nat)
    ensures ShiftRight(v, n) * Pow2(n) <= v < (ShiftRight(v, n) + 1) * Pow2(n)
    decreases n
  {
    if n == 0 {
      PowersOfNone();
    } else {
      ShiftedBack(v / 2, n - 1);
      DoubleFactor(ShiftRight(v, n), Pow2(n - 1));
      DoubleFactor(ShiftRight(v, n) + 1, Pow2(n - 1));
    }
  }

  // ---- The reader ----

  /** The fields of AV1RawFrameHeader that tile_info fills. */
  class Header {
    const widths: array<nat>
    const heights: array<nat>
    var uniform: bool
    var colsLog2: nat
    var rowsLog2: nat
    var cols: nat
    var rows: nat
    var updateId: nat
    var sizeBytes: nat

    constructor ()
      ensures Valid() && fresh(widths) && fresh(heights)
    {
      widths := new nat[AV1_MAX_TILE_COLS](_ => 0);
      heights := new nat[AV1_MAX_TILE_ROWS](_ => 0);
      uniform, colsLog2, rowsLog2, cols, rows, updateId, sizeBytes := false, 0, 0, 0, 0, 0, 0;
    }

    ghost predicate Valid()
      reads this
    {
      && widths.Length == AV1_MAX_TILE_COLS && heights.Length == AV1_MAX_TILE_ROWS && widths != heights
      && cols <= AV1_MAX_TILE_COLS && rows <= AV1_MAX_TILE_ROWS
    }

    /** The fields before the tail. */
    ghost function Spacing(): Layout
      reads this, widths, heights
      requires Valid()
    {
      Layout(uniform, colsLog2, rowsLog2, widths[..cols], heights[..rows], 0, None)
    }

    ghost function View(): Layout
      reads this, widths, heights
      requires Valid()
    {
      Spacing().(updateId := updateId, sizeBytes := if colsLog2 + rowsLog2 > 0 then Some(sizeBytes) else None)
    }

    /** The uniform branch. The array bounds hold for every count the increments admit. */
    method ReadUniform(r: BitReader, l: Limits) returns (ok: bool)
      requires Valid() && r.Valid() && Sound(l)
      modifies this, r, widths, heights
      ensures Valid() && r.Valid()
      ensures match DecodeUniform(r.data, old(r.pos), l)
        case Bad => !ok
        case Parsed(y, used) => ok && Spacing() == y && r.pos == old(r.pos) + used
    {
      hide DecodeIncrement, Uniform, TileSize, TileCount, Pow2, EncodeIncrement;
      uniform := true;
      var c := ReadIncrement(r, l.minCols, l.maxCols);
      if c.None? {
        return false;
      }
      colsLog2 := c.value;
      ColumnsFit(l, colsLog2);
      var w := TileSize(l.sbCols, colsLog2);
      cols := TileCount(l.sbCols, w);
      var least := Max(l.minTiles - colsLog2, 0);
      var k := ReadIncrement(r, least, l.maxRows);
      if k.None? {
        return false;
      }
      rowsLog2 := k.value;
      TileCountBounds(l.sbRows, rowsLog2);
      UpTo64(rowsLog2);
      var h := TileSize(l.sbRows, rowsLog2);
      rows := TileCount(l.sbRows, h);
      FillUniform(widths, l.sbCols, w, cols);
      FillUniform(heights, l.sbRows, h, rows);
      return true;
    }

    /** The explicit branch. */
    method ReadExplicit(r: BitReader, l: Limits) returns (ok: bool)
      requires Valid() && r.Valid() && Sound(l)
      modifies this, r, widths, heights
      ensures Valid() && r.Valid()
      ensures match DecodeExplicit(r.data, old(r.pos), l)
        case Bad => !ok
        case Parsed(y, used) => ok && Spacing() == y && r.pos == old(r.pos) + used
    {
      hide DecodeSizes, TileLog2, AreaLimit, Widest, Total;
      uniform := false;
      var t, widest := ReadSizes(r, widths, l.sbCols, l.maxWidth);
      if t.None? {
        return false;
      }
      cols := t.value;
      SizesMeaning(r.data, old(r.pos), l.sbCols, l.maxWidth, AV1_MAX_TILE_COLS);
      colsLog2 := ComputeTileLog2(1, cols);
      ghost var w := widths[..cols];
      var u, _ := ReadSizes(r, heights, l.sbRows, MaxHeight(l, widest));
      if u.None? {
        return false;
      }
      rows := u.value;
      rowsLog2 := ComputeTileLog2(1, rows);
      assert widths[..cols] == w;
      return true;
    }

    /** The flag, and the branch it chooses. */
    method ReadSpacing(r: BitReader, l: Limits) returns (ok: bool)
      requires Valid() && r.Valid() && Sound(l)
      modifies this, r, widths, heights
      ensures Valid() && r.Valid()
      ensures match DecodeSpacing(r.data, old(r.pos), l)
        case Bad => !ok
        case Parsed(y, used) => ok && Spacing() == y && r.pos == old(r.pos) + used
    {
      hide DecodeUniform, DecodeExplicit, FromBits;
      var flag := ReadUnsigned(r, 1);
      if flag.None? {
        return false;
      }
      OneBitRead(r.data, old(r.pos));
      if flag.value == 1 {
        ok := ReadUniform(r, l);
      } else {
        ok := ReadExplicit(r, l);
      }
    }

    /** tile_info, for reading. */
    method ReadTileInfo(r: BitReader, width: nat, height: nat, use128: bool) returns (ok: bool)
      requires Valid() && r.Valid() && FrameSize(width) && FrameSize(height)
      modifies this, r, widths, heights
      ensures Valid() && r.Valid()
      ensures match DecodeFrame(r.data, old(r.pos), width, height, use128)
        case Bad => !ok
        case Parsed(y, used) => ok && View() == y && r.pos == old(r.pos) + used
    {
      hide DecodeSpacing, LimitsOf;
      var l := LimitsOf(width, height, use128);
      LimitsSound(width, height, use128);
      ok := ReadSpacing(r, l);
      if !ok {
        return;
      }
      ok := ReadTail(r);
    }

    /** The tail of tile_info. */
    method ReadTail(r: BitReader) returns (ok: bool)
      requires Valid() && r.Valid()
      modifies this`updateId, this`sizeBytes, r
      ensures Valid() && r.Valid()
      ensures match DecodeTail(r.data, old(r.pos), colsLog2 + rowsLog2)
        case Bad => !ok
        case Parsed((id, bytes), used) =>
          && ok && updateId == id && r.pos == old(r.pos) + used
          && bytes == if colsLog2 + rowsLog2 > 0 then Some(sizeBytes) else None
    {
      if colsLog2 > 0 || rowsLog2 > 0 {
        var id := ReadUnsigned(r, colsLog2 + rowsLog2);
        if id.None? {
          return false;
        }
        updateId := id.value;
        var bytes := ReadUnsigned(r, 2);
        if bytes.None? {
          return false;
        }
        sizeBytes := bytes.value;
        return true;
      }
      updateId := 0;
      return true;
    }
  }

  lemma {:induction false} OneBitRead(data: seq<bool>, pos: nat)
    requires pos < |data|
    ensures FromBits(data[pos..pos + 1]) == if data[pos] then 1 else 0
  {
    assert data[pos..pos + 1] == [] + [data[pos]];
    FromBitsSnoc([], data[pos]);
  }

  /** One size, kept in a byte. */
  method ReadSize(r: BitReader, a: array<nat>, i: nat, max: nat) returns (size: Option<nat>)
    requires r.Valid() && 0 < max < 0x8000_0000 && i < a.Length
    modifies r, a
    ensures r.Valid()
    ensures match DecodeNs(r.data, old(r.pos), max)
      case Bad => size == None
      case Parsed(v, used) =>
        size == Some(Byte(v)) && a[..i + 1] == old(a[..i]) + [Byte(v)] && r.pos == old(r.pos) + used
  {
    hide DecodeNs, EncodeNs, Byte;
    var v := ReadNs(r, max);
    if v.None? {
      return None;
    }
    ghost var before := a[..i];
    a[i] := Byte(v.value);
    assert a[..i + 1] == before + [a[i]];
    return Some(a[i]);
  }

  /** The loops of the explicit branch, with widest_tile_sb. */
  method ReadSizes(r: BitReader, a: array<nat>, n: nat, maxSize: nat) returns (t: Option<nat>, widest: nat)
    requires r.Valid() && maxSize > 0 && a.Length == 64 && n < 0x8000_0000
    modifies r, a
    ensures r.Valid()
    ensures match DecodeSizes(r.data, old(r.pos), n, maxSize, 64)
      case Bad => t == None
      case Parsed(sizes, used) =>
        && t == Some(|sizes|) && |sizes| <= 64 && a[..|sizes|] == sizes
        && widest == Widest(sizes) && r.pos == old(r.pos) + used
  {
    hide DecodeSizes, DecodeNs, EncodeNs, Widest, Byte, BehindTiles, Min, Max;
    widest := 0;
    var start: nat, i: nat := 0, 0;
    ghost var from, data, sizes: seq<nat> := r.pos, r.data, [];
    ghost var whole := DecodeSizes(data, from, n, maxSize, 64);
    TilesFromStart(whole);
    WidestNone([]);
    while start < n && i < 64
      invariant start <= n && i == |sizes| <= 64 && r.Valid() && from <= r.pos
      invariant a[..i] == sizes && widest == Widest(sizes)
      invariant whole == BehindTiles(sizes, r.pos - from, DecodeSizes(data, r.pos, n - start, maxSize, 64 - i))
    {
      SizesRound(data, r.pos, n - start, maxSize, 64 - i, sizes, r.pos - from);
      MinBounds(n - start, maxSize);
      var size := ReadSize(r, a, i, Min(n - start, maxSize));
      if size.None? {
        return None, widest;
      }
      WidestSnoc(sizes, size.value);
      sizes := sizes + [size.value];
      widest := Max(size.value + 1, widest);
      start := start + (size.value + 1);
      i := i + 1;
    }
    SizesDone(data, r.pos, n - start, maxSize, 64 - i, sizes, r.pos - from);
    return Some(i), widest;
  }

  lemma {:induction false} MinBounds(a: nat, b: nat)
    ensures Min(a, b) <= a && Min(a, b) <= b && (a > 0 && b > 0 ==> Min(a, b) > 0)
  {
  }

  function BehindTiles(before: seq<nat>, taken: nat, rest: Parse<seq<nat>>): Parse<seq<nat>> {
    match rest
    case Bad => Bad
    case Parsed(sizes, used) => Parsed(before + sizes, taken + used)
  }

  lemma {:induction false} TilesFromStart(p: Parse<seq<nat>>)
    ensures BehindTiles([], 0, p) == p
  {
    if p.Parsed? {
      assert [] + p.value == p.value;
    }
  }

  lemma {:induction false} WidestNone(sizes: seq<nat>)
    requires |sizes| == 0
    ensures Widest(sizes) == 0
  {
  }

  lemma {:induction false} WidestSnoc(sizes: seq<nat>, last: nat)
    ensures Widest(sizes + [last]) == Max(last + 1, Widest(sizes))
  {
    assert (sizes + [last])[..|sizes|] == sizes;
  }

  lemma {:induction false} SizesRound(data: seq<bool>, pos: nat, n: nat, maxSize: nat, left: nat, before: seq<nat>,
                                      taken: nat)
    requires n > 0 && left > 0 && maxSize > 0 && pos <= |data|
    ensures BehindTiles(before, taken, DecodeSizes(data, pos, n, maxSize, left)) ==
      match DecodeNs(data, pos, Min(n, maxSize))
      case Bad => Bad
      case Parsed(v, used) =>
        BehindTiles(before + [Byte(v)], taken + used,
          DecodeSizes(data, pos + used, n - (Byte(v) + 1), maxSize, left - 1))
  {
    hide DecodeNs;
    var p := DecodeNs(data, pos, Min(n, maxSize));
    if p.Parsed? {
      var rest := DecodeSizes(data, pos + p.used, n - (Byte(p.value) + 1), maxSize, left - 1);
      if rest.Parsed? {
        assert before + ([Byte(p.value)] + rest.value) == before + [Byte(p.value)] + rest.value;
      }
    }
  }

  lemma {:induction false} SizesDone(data: seq<bool>, pos: nat, n: nat, maxSize: nat, left: nat, before: seq<nat>,
                                     taken: nat)
    requires (n == 0 || left == 0) && maxSize > 0 && pos <= |data|
    ensures BehindTiles(before, taken, DecodeSizes(data, pos, n, maxSize, left)) == Parsed(before, taken)
  {
    assert before + [] == before;
  }

  /** The loops that infer the sizes of uniform tiles. */
  method FillUniform(a: array<nat>, n: nat, size: nat, t: nat)
    requires 0 < t <= a.Length && size > 0 && 0 <= (t - 1) * size < n
    modifies a
    ensures a[..t] == Uniform(n, size, t)
  {
    for i := 0 to t - 1
      invariant forall k :: 0 <= k < i ==> a[k] == Byte(size - 1)
    {
      a[i] := Byte(size - 1);
    }
    a[t - 1] := Byte(n - (t - 1) * size - 1);
  }
}
