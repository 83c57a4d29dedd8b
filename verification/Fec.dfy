// Forward error correction of a block of video packets: the shard arithmetic of fec::encode,
// in the 64 bits of size_t, and the shards it fills.

module Fec {
  import opened Bits
  import opened Buffers
  import opened Arith

  const SIZE_T := 0x1_0000_0000_0000_0000

  /** What a size_t keeps of a number; a client's int is converted so too. */
  function SizeT(v: int): (r: nat)
    ensures 0 <= v < 0x1_0000_0000_0000_0000 ==> r == v
    ensures -0x1_0000_0000_0000_0000 <= v < 0 ==> r == v + 0x1_0000_0000_0000_0000
  {
    v % SIZE_T
  }

  predicate IsInt(v: int) {
    -0x8000_0000 <= v < 0x8000_0000
  }

  /** The packets of a frame, whose size is an int, and the percentages the configuration
      admits. */
  predicate InRange(dataShards: nat, percentage: nat) {
    0 < dataShards < 0x1_0000_0000 && percentage <= 255
  }

  /** The parity count for a percentage. */
  function ParityFor(dataShards: nat, percentage: nat): nat {
    SizeT(dataShards * percentage + 99) / 100
  }

  datatype Plan = Plan(total: nat, percentage: nat)

  /** The shard arithmetic of fec::encode. The minimum is the int a client asks for. */
  function Planned(dataShards: nat, percentage: nat, minParity: int, maxShards: nat): Plan
    requires dataShards > 0
  {
    var asked := ParityFor(dataShards, percentage);
    var raised := asked < SizeT(minParity);
    var parity := if raised then SizeT(minParity) else asked;
    var advertised := if raised then RaisedPercentage(dataShards, parity) else percentage;
    var total := SizeT(dataShards + parity);
    if total > maxShards then Plan(dataShards, 0) else Plan(total, advertised)
  }

  function RaisedPercentage(dataShards: nat, parity: nat): nat
    requires dataShards > 0
  {
    NonNegativeQuotient(SizeT(100 * parity), dataShards);
    SizeT(100 * parity) / dataShards
  }

  /** A negative minimum that takes shards away instead of adding them: the sum wraps and
      passes the check on the maximum. */
  predicate Overruns(dataShards: nat, minParity: int, maxShards: nat) {
    minParity < 0 && 0 <= dataShards + minParity <= maxShards
  }

  lemma {:induction false} AskedBound(d: nat, percentage: nat)
    requires InRange(d, percentage)
    ensures 0 <= d * percentage <= 255 * d
    ensures ParityFor(d, percentage) == (d * percentage + 99) / 100 <= 0x2_8CCC_CCCC
  {
    MonotoneProduct(percentage, 255, d);
    Commute(d, percentage);
    NonNegative(d, percentage);
  }

  lemma {:induction false} SizeTOnce(v: int)
    requires -SIZE_T <= v < 2 * SIZE_T
    ensures SizeT(v) == if v < 0 then SIZE_T + v else if v < SIZE_T then v else v - SIZE_T
  {
  }

  predicate PlanOf(d: nat, percentage: nat, minParity: int, maxShards: nat, plan: Plan)
    requires d > 0
  {
    var asked := ParityFor(d, percentage);
    var parity := if asked < minParity then minParity else asked;
    if Overruns(d, minParity, maxShards) then plan.total == d + minParity
    else if minParity < 0 || d + parity > maxShards then plan == Plan(d, 0)
    else plan.total == d + parity && plan.percentage == if asked < minParity then 100 * minParity / d else percentage
  }

  /** The plan without the wrapping: a minimum that is not negative is taken as it is; a
      negative one shortens the buffer when the sum is in reach of the maximum, and otherwise
      asks for too much. */
  lemma {:induction false} PlanForm(d: nat, percentage: nat, minParity: int, maxShards: nat)
    requires InRange(d, percentage) && IsInt(minParity) && maxShards < 0x8000_0000
    ensures PlanOf(d, percentage, minParity, maxShards, Planned(d, percentage, minParity, maxShards))
  {
    hide ParityFor, SizeT;
    var asked, least := ParityFor(d, percentage), SizeT(minParity);
    AskedBound(d, percentage);
    SizeTOnce(minParity);
    SizeTOnce(d + asked);
    SizeTOnce(d + least);
    if minParity >= 0 {
      SizeTOnce(100 * minParity);
    }
  }

  /** No fewer shards than data shards are planned, unless the minimum overruns. Then either
      every shard fits and the parity is the least that meets both the percentage and the
      minimum, or that parity would not fit, and there is none. */
  lemma {:induction false} PlanMeaning(d: nat, percentage: nat, minParity: int, maxShards: nat)
    requires InRange(d, percentage) && IsInt(minParity) && maxShards < 0x8000_0000
    ensures Planned(d, percentage, minParity, maxShards).total >= d <==> !Overruns(d, minParity, maxShards)
    ensures !Overruns(d, minParity, maxShards) ==>
      PlanIs(d, percentage, SizeT(minParity), maxShards, Planned(d, percentage, minParity, maxShards))
  {
    PlanForm(d, percentage, minParity, maxShards);
    AskedBound(d, percentage);
    SizeTOnce(minParity);
    hide Planned, ParityFor, SizeT;
    var asked, least := ParityFor(d, percentage), SizeT(minParity);
    assert Meets(d, percentage, least, if asked < least then least else asked);
  }

  /** The parity count meets the percentage and the minimum. */
  predicate Meets(d: nat, percentage: nat, minParity: nat, parity: nat) {
    parity >= minParity && 100 * parity >= d * percentage
  }

  /** Every parity count that meets both takes too many shards. */
  ghost predicate NoneFits(d: nat, percentage: nat, minParity: nat, maxShards: nat) {
    forall p: nat :: Meets(d, percentage, minParity, p) ==> d + p > maxShards
  }

  ghost predicate LeastParity(d: nat, percentage: nat, minParity: nat, parity: int) {
    && parity >= 0 && Meets(d, percentage, minParity, parity)
    && forall p: nat :: Meets(d, percentage, minParity, p) ==> parity <= p
  }

  ghost predicate PlanIs(d: nat, percentage: nat, minParity: nat, maxShards: nat, plan: Plan) {
    if NoneFits(d, percentage, minParity, maxShards) then plan == Plan(d, 0)
    else LeastParity(d, percentage, minParity, plan.total - d) && plan.total <= maxShards
  }

  /** With a minimum of -1 ten data shards make nine shards. */
  lemma {:induction false} NegativeMinimumOverruns()
    ensures Planned(10, 20, -1, 255).total == 9 && Overruns(10, -1, 255)
  {
  }

  /** The receiver, which evaluates the parity formula with the advertised percentage,
      finds the parity count sent: always when the percentage was not raised, and
      otherwise exactly when the remainder the division dropped is below 100. */
  lemma {:induction false} ParityRecovered(d: nat, percentage: nat, minParity: int, maxShards: nat)
    requires InRange(d, percentage) && IsInt(minParity) && maxShards < 0x8000_0000
    requires Planned(d, percentage, minParity, maxShards).total > d
    ensures var plan := Planned(d, percentage, minParity, maxShards);
      ParityFor(d, plan.percentage) == plan.total - d
      <==> ParityFor(d, percentage) >= minParity || 100 * minParity % d < 100
  {
    PlanForm(d, percentage, minParity, maxShards);
    hide Planned, ParityFor;
    if ParityFor(d, percentage) < minParity {
      RaisedRecovered(d, minParity);
    }
  }

  lemma {:induction false} RaisedRecovered(d: nat, minParity: nat)
    requires d > 0 && IsInt(minParity)
    ensures 100 * minParity / d >= 0
    ensures ParityFor(d, 100 * minParity / d) == minParity <==> 100 * minParity % d < 100
  {
    hide SizeT;
    var q, r := 100 * minParity / d, 100 * minParity % d;
    NonNegativeQuotient(100 * minParity, d);
    Commute(d, q);
    assert 100 * minParity == q * d + r;
    NonNegative(q, d);
    RoundedBack(minParity, r);
  }

  lemma {:induction false} RoundedBack(parity: nat, r: nat)
    requires r <= 100 * parity < 0x40_0000_0000
    ensures SizeT(100 * parity - r + 99) / 100 == parity <==> r < 100
  {
    hide SizeT;
    SizeTOnce(100 * parity - r + 99);
  }

  /** With at most 100 data shards the receiver always finds the count. */
  lemma {:induction false} ParityRecoveredUpTo100(d: nat, percentage: nat, minParity: int, maxShards: nat)
    requires InRange(d, percentage) && IsInt(minParity) && maxShards < 0x8000_0000
    requires d <= 100 && Planned(d, percentage, minParity, maxShards).total > d
    ensures ParityFor(d, Planned(d, percentage, minParity, maxShards).percentage)
      == Planned(d, percentage, minParity, maxShards).total - d
  {
    hide Planned, ParityFor;
    ParityRecovered(d, percentage, minParity, maxShards);
  }

  /** With 101 data shards and a minimum of 102 it does not: 102 parity shards are sent with
      a percentage of 100, from which the formula gives 101. */
  lemma {:induction false} ParityMissed()
    ensures Planned(101, 20, 102, 255) == Plan(203, 100) && ParityFor(101, 100) == 101
  {
  }

  /** What the minimum leaves of the percentage fits the eight bits of fecInfo. */
  predicate PercentageFits(d: nat, percentage: nat, minParity: int, maxShards: nat) {
    ParityFor(d, percentage) >= minParity || d + minParity > maxShards || 100 * minParity < 256 * d
  }

  /** A percentage the eight bits of fecInfo hold stays one, unless the minimum raises it:
      then it fits exactly when 100 * minParity is below 256 times the data shards. */
  lemma {:induction false} AdvertisedFits(d: nat, percentage: nat, minParity: int, maxShards: nat)
    requires InRange(d, percentage) && IsInt(minParity) && maxShards < 0x8000_0000
    requires !Overruns(d, minParity, maxShards)
    ensures Planned(d, percentage, minParity, maxShards).percentage <= 255
      <==> PercentageFits(d, percentage, minParity, maxShards)
  {
    PlanForm(d, percentage, minParity, maxShards);
    hide Planned, ParityFor;
    var x := 100 * minParity;
    if minParity >= 0 {
      QuotientBelow(x, d, 256);
    }
  }

  lemma {:induction false} QuotientBelow(x: nat, d: nat, bound: nat)
    requires d > 0
    ensures x / d < bound <==> x < bound * d
  {
    assert x == x / d * d + x % d;
    if x < bound * d {
      if x / d >= bound {
        MonotoneProduct(bound, x / d, d);
      }
    } else if x / d < bound {
      MonotoneProduct(x / d + 1, bound, d);
      MultipleSum(x / d, 1, d);
    }
  }

  /** One data shard and a minimum of three are advertised as 300 percent. */
  lemma {:induction false} PercentageTooWide()
    ensures Planned(1, 20, 3, 255) == Plan(4, 300)
  {
  }

  // ---- Encoding a block ----

  /** A block with zeros up to a whole number of shards. */
  function Padded(block: seq<byte>, size: nat): (r: seq<byte>)
    requires size > 0
    ensures |r| == Ceil(|block|, size) * size
  {
    CeilBounds(|block|, size);
    block + ZeroBytes(Ceil(|block|, size) * size - |block|)
  }

  lemma {:induction false} PaddedPrefix(block: seq<byte>, size: nat, shards: seq<byte>)
    requires size > 0 && Ceil(|block|, size) * size <= |shards|
    requires shards[..|block|] == block && forall i :: |block| <= i < |shards| ==> shards[i] == 0
    ensures shards[..Ceil(|block|, size) * size] == Padded(block, size)
  {
    CeilBounds(|block|, size);
  }

  /** fec::encode: the data shards hold the block and zeros after it. The parity bytes are
      whatever the Reed-Solomon encoder computes. When the minimum overruns, the buffer is
      shorter than the block that std::copy puts into it. */
  method Encode(block: seq<byte>, size: nat, percentage: nat, minParity: int, maxShards: nat, parityBytes: seq<byte>)
    returns (fits: bool, dataShards: nat, total: nat, advertised: nat, shards: array<byte>)
    requires |block| > 0 && size > 0 && InRange(Ceil(|block|, size), percentage)
    requires IsInt(minParity) && maxShards < 0x8000_0000
    ensures dataShards == Ceil(|block|, size)
    ensures Plan(total, advertised) == Planned(dataShards, percentage, minParity, maxShards)
    ensures shards.Length == total * size
    ensures fits <==> |block| <= shards.Length
    ensures fits <==> !Overruns(dataShards, minParity, maxShards)
    ensures fits ==> dataShards <= total && dataShards * size <= shards.Length
    ensures fits ==> shards[..dataShards * size] == Padded(block, size)
  {
    hide Planned, ParityFor, Padded;
    dataShards := |block| / size + if |block| % size != 0 then 1 else 0;
    total, advertised := PlanShards(dataShards, percentage, minParity, maxShards);
    PlanForm(dataShards, percentage, minParity, maxShards);
    BufferFits(|block|, size, total);
    shards := new byte[total * size];
    fits := |block| <= shards.Length;
    if fits {
      var next := CopyTo(shards, 0, block);
      next := CopyTo(shards, next, ZeroBytes(shards.Length - next));
      PaddedPrefix(block, size, shards[..next]);
      assert shards[..next][..dataShards * size] == shards[..dataShards * size];
      if dataShards < total {
        next := PutParity(shards, dataShards * size, parityBytes);
      }
    }
  }

  lemma {:induction false} BufferFits(n: nat, size: nat, total: nat)
    requires n > 0 && size > 0
    ensures 0 <= total * size && (n <= total * size <==> Ceil(n, size) <= total)
    ensures Ceil(n, size) <= total ==> Ceil(n, size) * size <= total * size
  {
    CeilBounds(n, size);
    NonNegative(total, size);
    if Ceil(n, size) <= total {
      MonotoneProduct(Ceil(n, size), total, size);
    } else {
      MonotoneProduct(total, Ceil(n, size) - 1, size);
      MultipleSum(Ceil(n, size) - 1, 1, size);
    }
  }

  /** reed_solomon_encode, of which only the place it writes to is known. */
  method PutParity(shards: array<byte>, start: nat, parityBytes: seq<byte>) returns (next: nat)
    requires start <= shards.Length
    modifies shards
    ensures shards[..start] == old(shards[..start])
  {
    var room := shards.Length - start;
    next := CopyTo(shards, start, if |parityBytes| <= room then parityBytes else parityBytes[..room]);
    assert shards[..next][..start] == shards[..start];
  }

  /** The arithmetic at the head of fec::encode. */
  method PlanShards(dataShards: nat, percentage: nat, minParity: int, maxShards: nat)
    returns (total: nat, advertised: nat)
    requires dataShards > 0
    ensures Plan(total, advertised) == Planned(dataShards, percentage, minParity, maxShards)
  {
    advertised := percentage;
    var parity := SizeT(dataShards * percentage + 99) / 100;
    if parity < SizeT(minParity) {
      parity := SizeT(minParity);
      advertised := RaisedPercentage(dataShards, parity);
    }
    total := SizeT(dataShards + parity);
    if total > maxShards {
      total := dataShards;
      advertised := 0;
    }
  }
}
