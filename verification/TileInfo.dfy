// The tile layout of an AV1 frame (section 5.9.15 of the AV1 Bitstream & Decoding Process
// Specification): tile_info of the syntax template, as it reads.

module TileInfo {
  import opened Bits
  import opened Arith

  const AV1_MAX_TILE_WIDTH: nat := 4096
  const AV1_MAX_TILE_AREA: nat := 4096 * 2304
  const AV1_MAX_TILE_ROWS := 64
  const AV1_MAX_TILE_COLS := 64

  // ---- cbs_av1_tile_log2 ----

  /** The smallest k with blksize << k no less than the target. */
  function TileLog2(blksize: nat, target: nat): nat
    requires blksize > 0
    decreases target - blksize
  {
    if blksize >= target then 0 else 1 + TileLog2(2 * blksize, target)
  }

  /** The result reaches the target. */
  lemma {:induction false} TileLog2Reaches(blksize: nat, target: nat)
    requires blksize > 0
    ensures blksize * Pow2(TileLog2(blksize, target)) >= target
    decreases target - blksize
  {
    if blksize < target {
      TileLog2Reaches(2 * blksize, target);
      Shifted(blksize, Pow2(TileLog2(2 * blksize, target)));
    } else {
      assert Pow2(0) == 1;
    }
  }

  lemma {:induction false} Shifted(x: nat, p: nat)
    ensures 2 * x * p == x * (2 * p)
  {
  }

  /** No smaller shift does. */
  lemma {:induction false} TileLog2Least(blksize: nat, target: nat, k: nat)
    requires blksize > 0 && blksize * Pow2(k) >= target
    ensures TileLog2(blksize, target) <= k
    decreases k
  {
    if blksize < target {
      if k == 0 {
        assert false;
      }
      Shifted(blksize, Pow2(k - 1));
      TileLog2Least(2 * blksize, target, k - 1);
    }
  }

  /** cbs_av1_tile_log2 */
  method ComputeTileLog2(blksize: nat, target: nat) returns (k: nat)
    requires blksize > 0
    ensures k == TileLog2(blksize, target)
  {
    k := 0;
    ghost var size: nat := blksize;
    assert Pow2(0) == 1;
    while blksize * Pow2(k) < target
      invariant size == blksize * Pow2(k) && size > 0
      invariant TileLog2(blksize, target) == k + TileLog2(size, target)
      decreases target - size
    {
      Shifted(blksize, Pow2(k));
      size := 2 * size;
      k := k + 1;
    }
  }

  // ---- What the frame size allows ----

  /** The locals of tile_info that the frame size determines, in superblocks. */
  datatype Limits = Limits(sbCols: nat, sbRows: nat, maxWidth: nat, minCols: nat, maxCols: nat, maxRows: nat,
                           minTiles: nat)

  function SbCount(size: nat, use128: bool): nat {
    var mi := 2 * ((size + 7) / 8);
    if use128 then (mi + 31) / 32 else (mi + 15) / 16
  }

  function Min(a: nat, b: nat): nat {
    if a < b then a else b
  }

  function Max(a: int, b: int): int {
    if a < b then b else a
  }

  /** AV1_MAX_TILE_WIDTH >> sb_size and AV1_MAX_TILE_AREA >> (2 * sb_size) */
  function MaxWidth(use128: bool): (w: nat)
    ensures w == if use128 then 32 else 64
  {
    AV1_MAX_TILE_WIDTH / SbSamples(use128)
  }

  function MaxArea(use128: bool): (a: nat)
    ensures a == if use128 then 576 else 2304
  {
    AV1_MAX_TILE_AREA / (SbSamples(use128) * SbSamples(use128))
  }

  /** 1 << sb_size: the width of a superblock. */
  function SbSamples(use128: bool): nat {
    if use128 then 128 else 64
  }

  function LimitsOf(width: nat, height: nat, use128: bool): Limits {
    var c, r := SbCount(width, use128), SbCount(height, use128);
    var minCols := TileLog2(MaxWidth(use128), c);
    Limits(c, r, MaxWidth(use128), minCols,
      TileLog2(1, Min(c, AV1_MAX_TILE_COLS)),
      TileLog2(1, Min(r, AV1_MAX_TILE_ROWS)),
      Max(minCols, TileLog2(MaxArea(use128), r * c)))
  }

  /** The sizes sixteen bits code. */
  predicate FrameSize(size: nat) {
    1 <= size <= 0x1_0000
  }

  lemma {:induction false} SbCountBounds(size: nat, use128: bool)
    requires FrameSize(size)
    ensures 1 <= SbCount(size, use128) <= if use128 then 512 else 1024
  {
  }

  /** The count is the least number of superblocks that covers the samples. */
  lemma {:induction false} SbCountLeast(size: nat, use128: bool)
    requires FrameSize(size)
    ensures var sb := if use128 then 128 else 64;
      (SbCount(size, use128) - 1) * sb < size <= SbCount(size, use128) * sb
  {
    var eighths := (size + 7) / 8;
    assert 8 * eighths - 8 < size <= 8 * eighths;
    SuperblocksOf(eighths);
  }

  lemma {:induction false} SuperblocksOf(e: nat)
    ensures 8 * ((2 * e + 15) / 16) - 8 < e <= 8 * ((2 * e + 15) / 16)
    ensures 16 * ((2 * e + 31) / 32) - 16 < e <= 16 * ((2 * e + 31) / 32)
  {
  }

  /** The shift is enough exactly from TileLog2 on. */
  lemma {:induction false} TileLog2Iff(blksize: nat, target: nat, k: nat)
    requires blksize > 0
    ensures k >= TileLog2(blksize, target) <==> blksize * Pow2(k) >= target
  {
    hide Pow2, TileLog2;
    var least := TileLog2(blksize, target);
    if k >= least {
      TileLog2Reaches(blksize, target);
      Pow2Monotone(least, k);
      MonotoneProduct(Pow2(least), Pow2(k), blksize);
      Commute(blksize, Pow2(least));
      Commute(blksize, Pow2(k));
    } else if blksize * Pow2(k) >= target {
      TileLog2Least(blksize, target, k);
    }
  }

  /** What the frame size allows, in samples: a tile is at most 4096 samples wide, 2^k columns
      are enough from minCols on, and with minTiles the area is within 4096 by 2304 as well;
      maxCols and maxRows admit 64 tiles, or one for each superblock. */
  lemma {:induction false} LimitsMeaning(width: nat, height: nat, use128: bool, k: nat)
    requires FrameSize(width) && FrameSize(height)
    ensures var l, sb := LimitsOf(width, height, use128), if use128 then 128 else 64;
      && (l.sbCols - 1) * sb < width <= l.sbCols * sb && (l.sbRows - 1) * sb < height <= l.sbRows * sb
      && l.maxWidth * sb == 4096 && 0 <= l.sbRows * l.sbCols
      && (k >= l.minCols <==> l.maxWidth * Pow2(k) >= l.sbCols)
      && (k >= l.minTiles <==>
          l.maxWidth * Pow2(k) >= l.sbCols && 4096 * 2304 / (sb * sb) * Pow2(k) >= l.sbRows * l.sbCols)
      && (k >= l.maxCols <==> Pow2(k) >= if l.sbCols < 64 then l.sbCols else 64)
      && (k >= l.maxRows <==> Pow2(k) >= if l.sbRows < 64 then l.sbRows else 64)
  {
    hide SbCount, Pow2, TileLog2;
    var l := LimitsOf(width, height, use128);
    SbCountLeast(width, use128);
    SbCountLeast(height, use128);
    NonNegative(l.sbRows, l.sbCols);
    TileLog2Iff(l.maxWidth, l.sbCols, k);
    TileLog2Iff(MaxArea(use128), l.sbRows * l.sbCols, k);
    TileLog2Iff(1, Min(l.sbCols, 64), k);
    TileLog2Iff(1, Min(l.sbRows, 64), k);
  }

  lemma {:induction false} Log2To64(n: nat)
    ensures TileLog2(1, Min(n, 64)) <= 6
    ensures Min(n, 64) <= Pow2(TileLog2(1, Min(n, 64))) <= 64
  {
    var k := TileLog2(1, Min(n, 64));
    assert Pow2(6) == 64;
    TileLog2Least(1, Min(n, 64), 6);
    TileLog2Reaches(1, Min(n, 64));
    Pow2Monotone(k, 6);
  }

  /** The ranges of both increments are nonempty, whatever column count was coded, so the
      assertion in the increment reader and writer holds. */
  lemma {:induction false} RangesNonempty(width: nat, height: nat, use128: bool, k: nat)
    requires FrameSize(width) && FrameSize(height)
    requires k >= LimitsOf(width, height, use128).minCols
    ensures var l := LimitsOf(width, height, use128);
      l.minCols <= l.maxCols <= 6 && l.minTiles - k <= l.maxRows <= 6
  {
    hide Pow2, TileLog2, SbCount;
    var l := LimitsOf(width, height, use128);
    SbCountBounds(width, use128);
    SbCountBounds(height, use128);
    Log2To64(l.sbCols);
    Log2To64(l.sbRows);
    ColumnsReach(l.maxWidth, l.sbCols, Pow2(l.maxCols));
    TileLog2Least(l.maxWidth, l.sbCols, l.maxCols);
    AreaInReach(l.sbCols, l.sbRows, use128, l.minCols, k, l.maxRows);
  }

  /** The rows of up to 2^rows tiles bring every area below the limit. */
  lemma {:induction false} AreaInReach(c: nat, r: nat, use128: bool, minCols: nat, k: nat, rows: nat)
    requires minCols == TileLog2(MaxWidth(use128), c) <= k && Min(r, 64) <= Pow2(rows)
    requires r <= if use128 then 512 else 1024
    ensures 0 <= r * c && TileLog2(MaxArea(use128), r * c) <= k + rows
  {
    hide Pow2, TileLog2, MaxWidth, MaxArea;
    NonNegative(r, c);
    TileLog2Reaches(MaxWidth(use128), c);
    Pow2Monotone(minCols, k);
    Pow2Add(k, rows);
    AreaReaches(use128, c, r, Pow2(minCols), Pow2(k), Pow2(rows));
    TileLog2Least(MaxArea(use128), r * c, k + rows);
  }

  lemma {:induction false} ColumnsReach(maxWidth: nat, c: nat, p: nat)
    requires 32 <= maxWidth && c <= 1024 && Min(c, 64) <= p
    ensures maxWidth * p >= c
  {
    Commute(maxWidth, p);
    if c <= 64 {
      MonotoneProduct(1, maxWidth, p);
    } else {
      MonotoneProduct(32, maxWidth, p);
      assert 32 * p >= 32 * 64;
    }
  }

  /** The area limit times the column and row counts covers the frame. */
  lemma {:induction false} AreaReaches(use128: bool, c: nat, r: nat, p: nat, q: nat, s: nat)
    requires MaxWidth(use128) * p >= c && p <= q && Min(r, 64) <= s && r <= if use128 then 512 else 1024
    ensures MaxArea(use128) * (q * s) >= r * c
  {
    var times := if use128 then 18 else 36;
    assert times * s >= r;
    var w := MaxWidth(use128);
    MonotoneProduct(p, q, w);
    Commute(w, p);
    Commute(w, q);
    AreaProduct(MaxArea(use128), times, w, q, s);
    MonotoneProduct(r, times * s, c);
    MonotoneProduct(c, w * q, times * s);
    Commute(c, times * s);
    Commute(w * q, times * s);
  }

  lemma {:induction false} AreaProduct(area: nat, times: nat, w: nat, q: nat, s: nat)
    requires area == times * w
    ensures area * (q * s) == (times * s) * (w * q)
  {
    calc {
      area * (q * s);
      times * w * (q * s);
      == { Associate(times, w, q * s); }
      times * (w * (q * s));
      == { Associate(w, q, s); Commute(w * q, s); }
      times * (s * (w * q));
      == { Associate(times, s, w * q); }
      (times * s) * (w * q);
    }
  }

  lemma {:induction false} Associate(a: int, b: int, c: int)
    ensures a * b * c == a * (b * c)
  {
  }

  // ---- Layouts ----

  /** The sum of sizes stored minus one. */
  function Total(sizes: seq<nat>): nat {
    if |sizes| == 0 then 0 else Total(sizes[..|sizes| - 1]) + sizes[|sizes| - 1] + 1
  }

  lemma {:induction false} TotalSnoc(sizes: seq<nat>, last: nat)
    ensures Total(sizes + [last]) == Total(sizes) + last + 1
  {
    assert (sizes + [last])[..|sizes|] == sizes;
  }

  lemma {:induction false} TotalCons(first: nat, sizes: seq<nat>)
    ensures Total([first] + sizes) == first + 1 + Total(sizes)
    decreases |sizes|
  {
    if |sizes| == 0 {
      assert [first] + sizes == [] + [first];
      TotalSnoc([], first);
    } else {
      var front, last := sizes[..|sizes| - 1], sizes[|sizes| - 1];
      TotalCons(first, front);
      TotalSnoc([first] + front, last);
      assert [first] + sizes == ([first] + front) + [last];
    }
  }

  /** An uint8_t. */
  function Byte(v: nat): (b: nat)
    ensures b < 256 && b <= v
    ensures v < 256 ==> b == v
  {
    v % 256
  }

  /** tile_width_sb and tile_height_sb */
  function TileSize(n: nat, log2: nat): nat {
    (n + Pow2(log2) - 1) / Pow2(log2)
  }

  lemma {:induction false} TileSizeOf(n: nat, log2: nat)
    ensures TileSize(n, log2) == (n + (Pow2(log2) - 1)) / Pow2(log2)
  {
  }

  lemma {:induction false} TileSizeIs(n: nat, log2: nat)
    requires n > 0
    ensures TileSize(n, log2) == Ceil(n, Pow2(log2)) > 0
    ensures n <= TileSize(n, log2) * Pow2(log2)
    ensures TileSize(n, log2) <= n
  {
    MonotoneProduct(1, Pow2(log2), n);
    Commute(n, Pow2(log2));
    TileSizeFits(n, log2, n);
    CeilByRounding(n, Pow2(log2));
    CeilBounds(n, Pow2(log2));
  }

  /** The tile size is at most `most` exactly when 2^log2 tiles of that size are enough. */
  lemma {:induction false} TileSizeIff(n: nat, log2: nat, most: nat)
    requires n > 0
    ensures TileSize(n, log2) <= most <==> n <= most * Pow2(log2)
  {
    hide Pow2, TileSize;
    if n <= most * Pow2(log2) {
      TileSizeFits(n, log2, most);
    } else if TileSize(n, log2) <= most {
      TileSizeIs(n, log2);
      MonotoneProduct(TileSize(n, log2), most, Pow2(log2));
    }
  }

  /** tile_cols and tile_rows with uniform spacing */
  function TileCount(n: nat, size: nat): nat
    requires size > 0
  {
    (n + size - 1) / size
  }

  /** Uniform spacing: at most 2^log2 tiles, the last of them not empty. */
  lemma {:induction false} TileCountBounds(n: nat, log2: nat)
    requires n > 0
    ensures TileSize(n, log2) > 0
    ensures var size, t := TileSize(n, log2), TileCount(n, TileSize(n, log2));
      1 <= t <= Pow2(log2) && 0 <= (t - 1) * size < n <= t * size
  {
    hide Pow2, TileSize;
    var size := TileSize(n, log2);
    TileSizeIs(n, log2);
    CeilByRounding(n, size);
    CeilBounds(n, size);
    var t := TileCount(n, size);
    MultipleSum(t - 1, 1, size);
    if t < 1 {
      assert false;
    }
    NonNegative(t - 1, size);
    if t > Pow2(log2) {
      MonotoneProduct(Pow2(log2), t - 1, size);
      Commute(size, Pow2(log2));
      assert false;
    }
  }

  /** Uniform spacing does not exceed the largest width when the column count is one the
      increment admits. */
  lemma {:induction false} TileSizeFits(n: nat, log2: nat, maxSize: nat)
    requires n > 0 && maxSize * Pow2(log2) >= n
    ensures TileSize(n, log2) <= maxSize
  {
    hide Pow2, TileSize;
    var p, size := Pow2(log2), TileSize(n, log2);
    CeilByRounding(n, p);
    assert size == Ceil(n, p) by { TileSizeOf(n, log2); }
    CeilBounds(n, p);
    if size > maxSize {
      MonotoneProduct(maxSize, size - 1, p);
      MultipleSum(size - 1, 1, p);
      assert false;
    }
  }

  /** The stored sizes of uniform tiles. */
  function Uniform(n: nat, size: nat, t: nat): (sizes: seq<nat>)
    requires 0 <= (t - 1) * size < n && t > 0 && size > 0
    ensures |sizes| == t
  {
    Same(t - 1, Byte(size - 1)) + [Byte(n - (t - 1) * size - 1)]
  }

  function Same(t: nat, v: nat): (s: seq<nat>)
    ensures |s| == t && forall i :: 0 <= i < t ==> s[i] == v
  {
    seq(t, _ => v)
  }

  lemma {:induction false} TotalNone(sizes: seq<nat>)
    requires |sizes| == 0
    ensures Total(sizes) == 0
  {
  }

  lemma {:induction false} TotalSame(t: nat, v: nat)
    ensures Total(Same(t, v)) == t * (v + 1)
  {
    hide Total;
    if t == 0 {
      TotalNone(Same(t, v));
    } else {
      TotalSame(t - 1, v);
      assert Same(t, v) == Same(t - 1, v) + [v];
      TotalSnoc(Same(t - 1, v), v);
      MultipleSum(t - 1, 1, v + 1);
    }
  }

  /** Uniform tiles add up to the frame exactly when a size minus one fits eight bits. */
  lemma {:induction false} UniformTotal(n: nat, size: nat, t: nat)
    requires 0 <= (t - 1) * size < n <= t * size && t > 0 && size <= n
    ensures Total(Uniform(n, size, t)) == n <==> size <= 256
    ensures forall i :: 0 <= i < t ==> Uniform(n, size, t)[i] + 1 <= size
  {
    MultipleSum(t - 1, 1, size);
    var last := n - (t - 1) * size;
    var stored := Byte(size - 1) + 1;
    TotalSame(t - 1, Byte(size - 1));
    TotalSnoc(Same(t - 1, Byte(size - 1)), Byte(last - 1));
    assert Total(Uniform(n, size, t)) == (t - 1) * stored + Byte(last - 1) + 1;
    if size > 256 {
      if t > 1 {
        StrictProduct(t - 1, stored, size);
      }
    }
  }

  lemma {:induction false} StrictProduct(t: nat, a: nat, b: nat)
    requires t > 0 && a < b
    ensures t * a < t * b
  {
  }
}
