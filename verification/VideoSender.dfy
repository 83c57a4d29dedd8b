// Sending video frames: sequence numbers, fecInfo, and the receiver that puts the payload
// together again from what the headers say (stream.cpp).

module VideoSender {
  import opened Wrappers
  import opened Bits
  import opened Buffers
  import opened Arith
  import opened Fec
  import opened FecInfo
  import opened Packetizer

  /** The header fields the receiver orders and unpacks packets by. */
  datatype Header = Header(sequenceNumber: nat, fecInfo: nat, block: nat, lastBlock: nat)

  datatype Datagram = Datagram(header: Header, body: seq<byte>)

  datatype Config = Config(layout: Layout, percentage: nat, minParity: int, maxShards: nat)

  /** What the configuration and a client can ask for, with a maximum of shards that the
      index field of fecInfo can number. */
  predicate Admitted(c: Config) {
    c.layout.slice > 0 && c.percentage <= 255 && IsInt(c.minParity) && c.maxShards < 0x400
  }

  // ---- The receiver ----

  /** The body of the first datagram, from k on, that carries the index. */
  function Find(out: seq<Datagram>, index: nat, k: nat): Option<seq<byte>>
    decreases |out| - k
  {
    if k >= |out| then None
    else if IndexField(out[k].header.fecInfo) == index then Some(out[k].body)
    else Find(out, index, k + 1)
  }

  /** The bodies of the shards 0 to n - 1, in order, if none is missing. */
  function Gathered(out: seq<Datagram>, n: nat): Option<seq<byte>> {
    if n == 0 then Some([])
    else
      var front, last := Gathered(out, n - 1), Find(out, n - 1, 0);
      if front.Some? && last.Some? then Some(front.value + last.value) else None
  }

  /** What the receiver makes of the datagrams of a block: as many data shards as the first
      header says, found by the indexes in the headers. */
  function ReceivedBlock(out: seq<Datagram>): Option<seq<byte>> {
    if |out| == 0 then None else Gathered(out, CountField(out[0].header.fecInfo))
  }

  function ReceivedFrame(outs: seq<seq<Datagram>>): Option<seq<byte>> {
    if |outs| == 0 then Some([])
    else
      var front, last := ReceivedFrame(outs[..|outs| - 1]), ReceivedBlock(outs[|outs| - 1]);
      if front.Some? && last.Some? then Some(front.value + last.value) else None
  }

  /** The bodies of datagrams in the order they were sent. */
  function AllBodies(out: seq<Datagram>): seq<byte> {
    if |out| == 0 then [] else AllBodies(out[..|out| - 1]) + out[|out| - 1].body
  }

  lemma {:induction false} AllBodiesSnoc(out: seq<Datagram>, d: Datagram)
    ensures AllBodies(out + [d]) == AllBodies(out) + d.body
  {
    assert (out + [d])[..|out|] == out;
  }

  lemma {:induction false} AllBodiesLength(out: seq<Datagram>, slice: nat)
    requires forall x :: 0 <= x < |out| ==> |out[x].body| == slice
    ensures |AllBodies(out)| == |out| * slice
  {
    if |out| > 0 {
      AllBodiesLength(out[..|out| - 1], slice);
      MultipleSum(|out| - 1, 1, slice);
    }
  }

  lemma {:induction false} FindAt(out: seq<Datagram>, i: nat, k: nat)
    requires k <= i < |out| && forall x :: 0 <= x < |out| ==> IndexField(out[x].header.fecInfo) == x
    ensures Find(out, i, k) == Some(out[i].body)
    decreases i - k
  {
    hide IndexField;
    if k < i {
      FindAt(out, i, k + 1);
    }
  }

  /** When every header carries its own index the shards are gathered in order. */
  lemma {:induction false} GatheredInOrder(out: seq<Datagram>, n: nat)
    requires n <= |out| && forall x :: 0 <= x < |out| ==> IndexField(out[x].header.fecInfo) == x
    ensures Gathered(out, n) == Some(AllBodies(out[..n]))
  {
    hide IndexField, Find;
    if n > 0 {
      GatheredInOrder(out, n - 1);
      FindAt(out, n - 1, 0);
      AllBodiesSnoc(out[..n - 1], out[n - 1]);
      assert out[..n] == out[..n - 1] + [out[n - 1]];
    }
  }

  lemma {:induction false} FindLength(out: seq<Datagram>, index: nat, k: nat, slice: nat)
    requires forall x :: 0 <= x < |out| ==> |out[x].body| == slice
    ensures Find(out, index, k).Some? ==> |Find(out, index, k).value| == slice
    decreases |out| - k
  {
    if k < |out| {
      FindLength(out, index, k + 1, slice);
    }
  }

  lemma {:induction false} GatheredLength(out: seq<Datagram>, n: nat, slice: nat)
    requires forall x :: 0 <= x < |out| ==> |out[x].body| == slice
    ensures Gathered(out, n).Some? ==> |Gathered(out, n).value| == n * slice
  {
    hide Find;
    if n > 0 {
      GatheredLength(out, n - 1, slice);
      FindLength(out, n - 1, 0, slice);
      MultipleSum(n - 1, 1, slice);
    }
  }

  lemma {:induction false} NoneFound(out: seq<Datagram>, index: nat, k: nat)
    requires forall x :: 0 <= x < |out| ==> IndexField(out[x].header.fecInfo) != index
    ensures Find(out, index, k) == None
    decreases |out| - k
  {
    hide IndexField;
    if k < |out| {
      NoneFound(out, index, k + 1);
    }
  }

  /** Without an index 0 nothing is gathered. */
  lemma {:induction false} NothingGathered(out: seq<Datagram>, n: nat)
    requires n > 0 && forall x :: 0 <= x < |out| ==> IndexField(out[x].header.fecInfo) != 0
    ensures Gathered(out, n) == None
  {
    hide IndexField, Find;
    if n == 1 {
      NoneFound(out, 0, 0);
    } else {
      NothingGathered(out, n - 1);
    }
  }

  // ---- Blocks ----

  /** The datagrams of one block: every header of every shard, and the data. */
  ghost predicate BlockOf(c: Config, block: seq<byte>, index: nat, lastIndex: nat, out: seq<Datagram>)
    requires c.layout.slice > 0 && |block| > 0
  {
    var size := c.layout.Size();
    var d := Ceil(|block|, size);
    CeilPositive(|block|, size);
    var plan := Planned(d, c.percentage, c.minParity, c.maxShards);
    && d <= |out| == plan.total
    && (forall x :: 0 <= x < |out| ==> |out[x].body| == c.layout.slice)
    && (forall x :: 0 <= x < |out| ==> HeaderOf(out[x].header, x, d, plan.percentage, index, lastIndex))
    && AllBodies(out[..d]) == Bodies(c.layout, Padded(block, size))
  }

  predicate HeaderOf(h: Header, x: nat, d: nat, percentage: nat, index: nat, lastIndex: nat) {
    h.fecInfo == PackFecInfo(x, d, percentage) && h.block == index && h.lastBlock == lastIndex
  }

  /** What fecInfo can carry of a block: fewer than 1024 data shards, and a percentage of
      eight bits. */
  predicate Carried(c: Config, d: nat) {
    d < 0x400 && PercentageFits(d, c.percentage, c.minParity, c.maxShards)
  }

  /** The headers of a block of d data shards that is carried, and of one that is not. */
  lemma {:induction false} HeadersSay(c: Config, d: nat, x: nat)
    requires Admitted(c) && InRange(d, c.percentage) && !Overruns(d, c.minParity, c.maxShards)
    requires x < Planned(d, c.percentage, c.minParity, c.maxShards).total
    ensures var info := PackFecInfo(x, d, Planned(d, c.percentage, c.minParity, c.maxShards).percentage);
      if Carried(c, d) then IndexField(info) == x && CountField(info) == d
      else if d < 0x400 then IndexField(info) != 0 && CountField(info) == d
      else x == 0 ==> CountField(info) < d
  {
    hide Planned, PackFecInfo, Or, PercentageFits, IndexField, CountField, PercentageField, Overruns;
    var plan := Planned(d, c.percentage, c.minParity, c.maxShards);
    PlanBounds(c, d);
    FieldsHold(x, d, plan.percentage);
    if d < 0x400 {
      FecInfoUnpacks(x, d, plan.percentage);
      OrNone(d);
    } else {
      OrNone(0);
      OrNone(d % 0x400);
    }
  }

  /** The bounds of an admitted plan: the index fits, and a percentage above eight bits stays
      below eighteen. */
  lemma {:induction false} PlanBounds(c: Config, d: nat)
    requires Admitted(c) && InRange(d, c.percentage) && !Overruns(d, c.minParity, c.maxShards)
    ensures var plan := Planned(d, c.percentage, c.minParity, c.maxShards);
      && (plan.percentage <= 255 <==> PercentageFits(d, c.percentage, c.minParity, c.maxShards))
      && (d < 0x400 ==> plan.total <= 0x400) && (d >= 0x400 ==> plan.percentage == 0)
      && plan.percentage < 0x4_0000
  {
    hide Planned, ParityFor;
    AdvertisedFits(d, c.percentage, c.minParity, c.maxShards);
    PlanForm(d, c.percentage, c.minParity, c.maxShards);
    if 0 <= c.minParity && d + c.minParity <= c.maxShards {
      QuotientBelow(100 * c.minParity, d, 0x4_0000);
    }
  }

  /** The receiver gets a block back if and only if fecInfo carries it; otherwise it gets
      nothing, or less. */
  lemma {:induction false} BlockReceivedIff(c: Config, block: seq<byte>, index: nat, lastIndex: nat, out: seq<Datagram>)
    requires Admitted(c) && |block| > 0 && BlockOf(c, block, index, lastIndex, out)
    requires var d := Ceil(|block|, c.layout.Size());
      InRange(d, c.percentage) && !Overruns(d, c.minParity, c.maxShards)
    ensures var whole, received := Bodies(c.layout, Padded(block, c.layout.Size())), ReceivedBlock(out);
      if Carried(c, Ceil(|block|, c.layout.Size())) then received == Some(whole)
      else received.Some? ==> |received.value| < |whole|
  {
    hide Planned, Bodies, Padded, PackFecInfo, IndexField, CountField, Carried, Gathered, AllBodies, Overruns;
    var d, slice := Ceil(|block|, c.layout.Size()), c.layout.slice;
    assert |AllBodies(out[..d])| == d * slice by { AllBodiesLength(out[..d], slice); }
    forall x | 0 <= x < |out|
      ensures if Carried(c, d) then IndexField(out[x].header.fecInfo) == x && CountField(out[x].header.fecInfo) == d
        else if d < 0x400 then IndexField(out[x].header.fecInfo) != 0 && CountField(out[x].header.fecInfo) == d
        else x == 0 ==> CountField(out[x].header.fecInfo) < d
    {
      HeadersSay(c, d, x);
    }
    if Carried(c, d) {
      GatheredInOrder(out, d);
    } else if d < 0x400 {
      NothingGathered(out, d);
    } else {
      var n := CountField(out[0].header.fecInfo);
      GatheredLength(out, n, slice);
      FewerSlices(n, d, slice);
    }
  }

  lemma {:induction false} FewerSlices(n: nat, d: nat, slice: nat)
    requires n < d && slice > 0
    ensures n * slice < d * slice
  {
  }

  // ---- Frames ----

  /** The blocks without their headers, one after the other. */
  function Wholes(l: Layout, blocks: seq<seq<byte>>): seq<byte>
    requires l.slice > 0
  {
    if |blocks| == 0 then []
    else Wholes(l, blocks[..|blocks| - 1]) + Bodies(l, Padded(blocks[|blocks| - 1], l.Size()))
  }

  /** The datagrams of every block of a frame. */
  ghost predicate FrameOf(c: Config, blocks: seq<seq<byte>>, lastIndex: nat, outs: seq<seq<Datagram>>)
    requires c.layout.slice > 0
  {
    && |blocks| == |outs|
    && forall i :: 0 <= i < |blocks| ==> |blocks[i]| > 0 && BlockOf(c, blocks[i], i, lastIndex, outs[i])
  }

  predicate BlockFits(c: Config, block: seq<byte>)
    requires c.layout.slice > 0
  {
    var d := Ceil(|block|, c.layout.Size());
    InRange(d, c.percentage) && !Overruns(d, c.minParity, c.maxShards)
  }

  predicate BlockCarried(c: Config, block: seq<byte>)
    requires c.layout.slice > 0
  {
    Carried(c, Ceil(|block|, c.layout.Size()))
  }

  /** The receiver gets a frame back if and only if fecInfo carries every block. */
  lemma {:induction false} FrameReceived(c: Config, blocks: seq<seq<byte>>, lastIndex: nat, outs: seq<seq<Datagram>>)
    requires Admitted(c) && FrameOf(c, blocks, lastIndex, outs)
    requires forall i :: 0 <= i < |blocks| ==> BlockFits(c, blocks[i])
    ensures var received := ReceivedFrame(outs);
      if forall i :: 0 <= i < |blocks| ==> BlockCarried(c, blocks[i]) then received == Some(Wholes(c.layout, blocks))
      else received.Some? ==> |received.value| < |Wholes(c.layout, blocks)|
    decreases |blocks|
  {
    hide BlockOf, ReceivedBlock, Bodies, Padded, Overruns, Carried;
    if |blocks| > 0 {
      var n := |blocks| - 1;
      FrameReceived(c, blocks[..n], lastIndex, outs[..n]);
      BlockReceivedIff(c, blocks[n], n, lastIndex, outs[n]);
      var carried := forall i :: 0 <= i < n ==> BlockCarried(c, blocks[i]);
      assert carried <==> forall i :: 0 <= i < n ==> BlockCarried(c, blocks[..n][i]);
    }
  }

  // ---- The sender ----

  /** The video side of session_t: the next sequence number, and what has been sent. */
  class Session {
    var lowseq: nat
    var sent: seq<Datagram>

    /** Datagram k of the session carries k modulo 2^16. */
    ghost predicate Valid()
      reads this
    {
      && lowseq == |sent|
      && forall k :: 0 <= k < |sent| ==> sent[k].header.sequenceNumber == k % 0x1_0000
    }

    constructor ()
      ensures Valid() && sent == []
    {
      lowseq := 0;
      sent := [];
    }

    /** The loops that complete the headers and send the shards. */
    method SendShards(l: Layout, d: nat, total: nat, advertised: nat, index: nat, lastIndex: nat, shards: array<byte>)
      returns (out: seq<Datagram>)
      requires Valid() && l.slice > 0 && d <= total && d * l.Size() <= shards.Length == total * l.Size()
      modifies this
      ensures lowseq == old(lowseq) && sent == old(sent) + out && |out| == total
      ensures forall x :: 0 <= x < total ==> |out[x].body| == l.slice
      ensures forall x :: 0 <= x < total ==> out[x].header.sequenceNumber == (lowseq + x) % 0x1_0000
      ensures forall x :: 0 <= x < total ==> HeaderOf(out[x].header, x, d, advertised, index, lastIndex)
      ensures AllBodies(out[..d]) == Bodies(l, shards[..d * l.Size()])
    {
      hide Bodies, AllBodies, PackFecInfo;
      out := [];
      var size := l.Size();
      NothingSent(l, out, shards[..0 * size]);
      for x := 0 to total
        invariant sent == old(sent) + out && |out| == x && lowseq == old(lowseq)
        invariant forall k :: 0 <= k < x ==> |out[k].body| == l.slice
        invariant forall k :: 0 <= k < x ==> out[k].header.sequenceNumber == (lowseq + k) % 0x1_0000
        invariant forall k :: 0 <= k < x ==> HeaderOf(out[k].header, k, d, advertised, index, lastIndex)
        invariant Offset(x, d, size) <= shards.Length
        invariant AllBodies(out[..Least(x, d)]) == Bodies(l, shards[..Offset(x, d, size)])
      {
        OffsetStep(x, d, size, total);
        var shard := shards[x * size..(x + 1) * size];
        var info := PackFecInfo(x, d, advertised);
        var datagram := Datagram(Header((lowseq + x) % 0x1_0000, info, index, lastIndex), shard[|l.header|..]);
        NextShard(l, shards[..], x, d, out, datagram);
        out := out + [datagram];
        sent := sent + [datagram];
      }
    }

    /** One FEC block: encoded, completed and sent, unless the minimum overruns. */
    method SendBlock(c: Config, block: seq<byte>, index: nat, lastIndex: nat, parityBytes: seq<byte>)
      returns (fits: bool, out: seq<Datagram>)
      requires Valid() && Admitted(c) && |block| > 0 && InRange(Ceil(|block|, c.layout.Size()), c.percentage)
      modifies this
      ensures Valid() && sent == old(sent) + out
      ensures fits <==> BlockFits(c, block)
      ensures fits ==> BlockOf(c, block, index, lastIndex, out)
    {
      hide AllBodies, Bodies, Planned, Padded, HeaderOf, Overruns;
      var l := c.layout;
      var d, total, advertised: nat;
      var shards: array<byte>;
      fits, d, total, advertised, shards :=
        Encode(block, l.Size(), c.percentage, c.minParity, c.maxShards, parityBytes);
      if !fits {
        return false, [];
      }
      out := SendShards(l, d, total, advertised, index, lastIndex, shards);
      lowseq := lowseq + total;
    }

    /** One frame of videoBroadcastThread. The blocks are sent exactly when the minimum
        overruns none of them, and then the receiver gets the payload back, followed by fewer
        zeros than a slice has bytes, if and only if fecInfo carries every block. */
    method SendFrame(c: Config, data: seq<byte>, parityBytes: seq<seq<byte>>)
      returns (fits: bool, outs: seq<seq<Datagram>>)
      requires Valid() && Admitted(c) && 0 < |data| < 0x1_0000_0000
      modifies this
      ensures Valid() && sent == old(sent) + Joined(outs)
      ensures fits <==> FrameFits(c, |data|)
      ensures fits ==> |outs| == BlockCount(PacketBytes(c.layout, |data|), c.layout.Size())
      ensures fits ==> forall i :: 0 <= i < |outs| ==> BlockHeaders(c, |data|, i, |outs| - 1, outs[i])
      ensures var z := PadTo(|Inserted(c.layout, data)|, c.layout.Size());
        z < c.layout.slice && (fits ==> (ReceivedFrame(outs) == Some(data + ZeroBytes(z)) <==> FrameCarried(c, |data|)))
    {
      hide Inserted, Bodies, ReceivedFrame, Joined, Wholes, BlockOf, Padded;
      hide BlockFits, BlockCarried, FrameFits, FrameCarried, BlockSize, PacketBytes, Planned, BlockHeaders;
      var l := c.layout;
      var payload := Insert(l, data);
      PayloadSize(l, data);
      var blocks := SplitBlocks(payload[..], l.Size());
      FrameOfSize(c, |data|, blocks);
      fits, outs := SendBlocks(c, blocks, parityBytes);
      BodiesOfInserted(l, data, PadTo(|payload[..]|, l.Size()));
      PaddedIs(payload[..], l.Size());
      WholesOfPayload(l, payload[..], blocks);
      if fits {
        FrameReceived(c, blocks, |blocks| - 1, outs);
        forall i | 0 <= i < |outs| ensures BlockHeaders(c, |data|, i, |outs| - 1, outs[i]) {
          HeadersOfBlock(c, |data|, blocks[i], i, |outs| - 1, outs[i]);
        }
      }
    }

    /** The loop over the blocks. */
    method SendBlocks(c: Config, blocks: seq<seq<byte>>, parityBytes: seq<seq<byte>>)
      returns (fits: bool, outs: seq<seq<Datagram>>)
      requires Valid() && Admitted(c) && |blocks| > 0
      requires forall k :: 0 <= k < |blocks| ==>
        |blocks[k]| > 0 && InRange(Ceil(|blocks[k]|, c.layout.Size()), c.percentage)
      modifies this
      ensures Valid() && sent == old(sent) + Joined(outs)
      ensures fits <==> forall k :: 0 <= k < |blocks| ==> BlockFits(c, blocks[k])
      ensures fits ==> FrameOf(c, blocks, |blocks| - 1, outs)
    {
      hide Joined, BlockOf, BlockFits;
      outs := [];
      assert Joined<Datagram>([]) == [] by { NothingJoined(); }
      for i := 0 to |blocks|
        invariant Valid() && sent == old(sent) + Joined(outs) && |outs| == i
        invariant forall k :: 0 <= k < i ==> BlockFits(c, blocks[k]) && BlockOf(c, blocks[k], k, |blocks| - 1, outs[k])
      {
        var ok, out := SendBlock(c, blocks[i], i, |blocks| - 1, if i < |parityBytes| then parityBytes[i] else []);
        JoinedSnoc(outs, out);
        outs := outs + [out];
        if !ok {
          return false, outs;
        }
      }
      return true, outs;
    }
  }

  /** The minimum overruns no block of a frame of the given size. */
  predicate FrameFits(c: Config, dataSize: nat)
    requires c.layout.slice > 0
  {
    forall k :: 0 <= k < BlockCount(PacketBytes(c.layout, dataSize), c.layout.Size()) ==>
      !Overruns(BlockShards(c.layout, dataSize, k), c.minParity, c.maxShards)
  }

  /** fecInfo carries every block of a frame of the given size. */
  predicate FrameCarried(c: Config, dataSize: nat)
    requires c.layout.slice > 0
  {
    forall k :: 0 <= k < BlockCount(PacketBytes(c.layout, dataSize), c.layout.Size()) ==>
      Carried(c, BlockShards(c.layout, dataSize, k))
  }

  /** The headers of block k of a frame: as many as planned, with the planned percentage. */
  ghost predicate BlockHeaders(c: Config, dataSize: nat, k: nat, lastIndex: nat, out: seq<Datagram>)
    requires c.layout.slice > 0
  {
    var d := BlockShards(c.layout, dataSize, k);
    d > 0 &&
    var plan := Planned(d, c.percentage, c.minParity, c.maxShards);
    && |out| == plan.total
    && forall x :: 0 <= x < |out| ==> HeaderOf(out[x].header, x, d, plan.percentage, k, lastIndex)
  }

  lemma {:induction false} HeadersOfBlock(c: Config, dataSize: nat, block: seq<byte>, k: nat, lastIndex: nat,
                                          out: seq<Datagram>)
    requires Admitted(c) && |block| > 0 && BlockOf(c, block, k, lastIndex, out)
    requires Ceil(|block|, c.layout.Size()) == BlockShards(c.layout, dataSize, k)
    ensures BlockHeaders(c, dataSize, k, lastIndex, out)
  {
    hide Planned, BlockShards, HeaderOf, AllBodies, Bodies, Padded;
    CeilPositive(|block|, c.layout.Size());
  }

  lemma {:induction false} PayloadSize(l: Layout, data: seq<byte>)
    requires l.slice > 0 && |data| > 0
    ensures |Inserted(l, data)| == PacketBytes(l, |data|) > 0
  {
    hide Inserted;
    InsertedLength(l, data);
  }

  /** The conditions on the frame's size are those on its blocks. */
  lemma {:induction false} FrameOfSize(c: Config, dataSize: nat, blocks: seq<seq<byte>>)
    requires Admitted(c) && 0 < dataSize < 0x1_0000_0000
    requires |blocks| == BlockCount(PacketBytes(c.layout, dataSize), c.layout.Size())
    requires forall k :: 0 <= k < |blocks| ==>
      0 < |blocks[k]| == BlockSize(PacketBytes(c.layout, dataSize), c.layout.Size(), k)
    ensures forall k :: 0 <= k < |blocks| ==> Ceil(|blocks[k]|, c.layout.Size()) == BlockShards(c.layout, dataSize, k)
    ensures forall k :: 0 <= k < |blocks| ==> InRange(Ceil(|blocks[k]|, c.layout.Size()), c.percentage)
    ensures FrameFits(c, dataSize) <==> forall k :: 0 <= k < |blocks| ==> BlockFits(c, blocks[k])
    ensures FrameCarried(c, dataSize) <==> forall k :: 0 <= k < |blocks| ==> BlockCarried(c, blocks[k])
  {
    hide BlockSize, PacketBytes, Carried, Overruns, Ceil;
    forall k | 0 <= k < |blocks|
      ensures Ceil(|blocks[k]|, c.layout.Size()) == BlockShards(c.layout, dataSize, k)
      ensures InRange(Ceil(|blocks[k]|, c.layout.Size()), c.percentage)
    {
      FewShards(c.layout, dataSize, k);
      CeilPositive(|blocks[k]|, c.layout.Size());
    }
  }

  lemma {:induction false} NothingJoined()
    ensures Joined<Datagram>([]) == []
  {
  }

  lemma {:induction false} NoWholes(l: Layout, blocks: seq<seq<byte>>)
    requires l.slice > 0 && |blocks| == 0
    ensures Wholes(l, blocks) == [] && Joined(blocks) == [] && Bodies(l, Padded([], l.Size())) == []
  {
  }

  lemma {:induction false} WholesSnoc(l: Layout, blocks: seq<seq<byte>>, last: seq<byte>)
    requires l.slice > 0
    ensures Wholes(l, blocks + [last]) == Wholes(l, blocks) + Bodies(l, Padded(last, l.Size()))
  {
    assert (blocks + [last])[..|blocks|] == blocks;
  }

  /** A block after k whole packets. */
  lemma {:induction false} NextWhole(l: Layout, blocks: seq<seq<byte>>, last: seq<byte>, k: nat)
    requires l.slice > 0 && |Joined(blocks)| == k * l.Size()
    requires Wholes(l, blocks) == Bodies(l, Padded(Joined(blocks), l.Size()))
    ensures Wholes(l, blocks + [last]) == Bodies(l, Padded(Joined(blocks + [last]), l.Size()))
  {
    hide Wholes, Bodies, Padded, Joined;
    JoinedSnoc(blocks, last);
    WholesSnoc(l, blocks, last);
    PaddedConcat(l, k, Joined(blocks), last);
  }

  /** Unpacking the blocks one by one unpacks the payload. */
  lemma {:induction false} WholesOfPayload(l: Layout, payload: seq<byte>, blocks: seq<seq<byte>>)
    requires l.slice > 0 && |blocks| == BlockCount(|payload|, l.Size()) && Joined(blocks) == payload
    requires forall k :: 0 <= k < |blocks| ==> |blocks[k]| == BlockSize(|payload|, l.Size(), k)
    ensures Wholes(l, blocks) == Bodies(l, Padded(payload, l.Size()))
  {
    hide Wholes, Bodies, Padded, Joined;
    var n, size := |payload|, l.Size();
    NoWholes(l, []);
    NextWhole(l, [], blocks[0], 0);
    if n <= Threshold(size) {
      assert blocks == [] + [blocks[0]];
    } else {
      var m := (n / MAX_FEC_BLOCKS + (size - 1)) / size;
      MultipleSum(m, m, size);
      JoinedSnoc([], blocks[0]);
      JoinedSnoc([] + [blocks[0]], blocks[1]);
      NextWhole(l, [] + [blocks[0]], blocks[1], m);
      NextWhole(l, [] + [blocks[0]] + [blocks[1]], blocks[2], m + m);
      assert blocks == [] + [blocks[0]] + [blocks[1]] + [blocks[2]];
    }
  }

  function Least(x: nat, d: nat): nat {
    if x <= d then x else d
  }

  function Offset(x: nat, d: nat, size: nat): nat {
    Least(x, d) * size
  }

  lemma {:induction false} OffsetStep(x: nat, d: nat, size: nat, total: nat)
    requires x < total && d <= total
    ensures 0 <= x * size <= (x + 1) * size <= total * size
    ensures Offset(x + 1, d, size) <= total * size
    ensures (x + 1) * size == x * size + size
  {
    MultipleSum(x, 1, size);
    MonotoneProduct(x + 1, total, size);
    MonotoneProduct(d, total, size);
  }

  lemma {:induction false} NothingSent(l: Layout, out: seq<Datagram>, flat: seq<byte>)
    requires l.slice > 0 && |out| == 0 && |flat| == 0
    ensures AllBodies(out[..0]) == Bodies(l, flat) == []
  {
  }

  lemma {:induction false} NextShard(l: Layout, flat: seq<byte>, x: nat, d: nat, out: seq<Datagram>, datagram: Datagram)
    requires l.slice > 0 && |out| == x && d * l.Size() <= |flat|
    requires 0 <= x * l.Size() <= (x + 1) * l.Size() <= |flat| && (x + 1) * l.Size() == x * l.Size() + l.Size()
    requires datagram.body == flat[x * l.Size()..(x + 1) * l.Size()][|l.header|..]
    requires Offset(x, d, l.Size()) <= |flat| && Offset(x + 1, d, l.Size()) <= |flat|
    requires AllBodies(out[..Least(x, d)]) == Bodies(l, flat[..Offset(x, d, l.Size())])
    ensures AllBodies((out + [datagram])[..Least(x + 1, d)]) == Bodies(l, flat[..Offset(x + 1, d, l.Size())])
  {
    hide Bodies, AllBodies;
    if x < d {
      var size := l.Size();
      var shard := flat[x * size..(x + 1) * size];
      AllBodiesSnoc(out, datagram);
      assert (out + [datagram])[..x + 1] == out + [datagram] && out[..x] == out;
      BodiesConcat(l, x, flat[..x * size], shard);
      assert flat[..(x + 1) * size] == flat[..x * size] + shard;
      FirstPacket(l, shard, []);
      assert shard + [] == shard;
      NothingSent(l, [], []);
    } else {
      assert (out + [datagram])[..d] == out[..d];
    }
  }

  // ---- Frames that are not carried, and counts that are not found ----

  /** A frame of 3072 full slices makes three blocks of 1024 packets: fecInfo says that there
      are no data shards, and the receiver cannot put the frame together. */
  lemma {:induction false} LongFrameNotCarried(c: Config)
    requires Admitted(c)
    ensures 0 <= 3 * 0x400 * c.layout.slice && !FrameCarried(c, 3 * 0x400 * c.layout.slice)
    ensures CountField(PackFecInfo(0, 0x400, 0)) == 0
  {
    hide BlockShards, BlockCount, PacketBytes, PackFecInfo;
    EvenFrame(c.layout, 0x400, 0);
    FieldsHold(0, 0x400, 0);
    OrNone(0);
  }

  /** A frame of one packet is not carried either, when the client asks for three parity
      shards: the percentage advertised is 300. */
  lemma {:induction false} RaisedPercentageNotCarried(c: Config, dataSize: nat)
    requires Admitted(c) && c.percentage == 20 && c.minParity == 3 && c.maxShards == 255
    requires 0 < dataSize <= c.layout.slice
    ensures !FrameCarried(c, dataSize) && FrameFits(c, dataSize)
    ensures BlockShards(c.layout, dataSize, 0) == 1 && Planned(1, 20, 3, 255) == Plan(4, 300)
  {
    OneShard(c.layout, dataSize);
    PercentageTooWide();
  }

  lemma {:induction false} OneShard(l: Layout, dataSize: nat)
    requires 0 < dataSize <= l.slice
    ensures BlockCount(PacketBytes(l, dataSize), l.Size()) == 1 && BlockShards(l, dataSize, 0) == 1
  {
    CeilSmall(dataSize, l.slice);
    CeilSmall(|l.header| + dataSize, l.Size());
  }

  /** A frame of thirty full slices overruns the buffer, when the client asks for a minimum
      of -1: 29 shards are to hold 30. */
  lemma {:induction false} NegativeMinimumInFrame(c: Config)
    requires Admitted(c) && c.minParity == -1 && c.maxShards == 255
    ensures 0 <= 30 * c.layout.slice && !FrameFits(c, 30 * c.layout.slice)
  {
    hide BlockShards, BlockCount, PacketBytes;
    OneBlock(c.layout, 30);
  }

  lemma {:induction false} OneBlock(l: Layout, m: nat)
    requires l.slice > 0 && 0 < m <= 90
    ensures 0 <= m * l.slice && BlockCount(PacketBytes(l, m * l.slice), l.Size()) == 1
    ensures BlockShards(l, m * l.slice, 0) == m
  {
    NonNegative(m, l.slice);
    Quotient(m * l.slice, l.slice, m, 0);
    WholePackets(m, |l.header|, l.slice);
    MonotoneProduct(m, 90, l.Size());
    Quotient(m * l.Size(), l.Size(), m, 0);
  }

  /** Frames of 303 full slices make blocks of 101 data shards, of which a minimum of 102
      takes the parity count away from the receiver's formula. */
  lemma {:induction false} ParityMissedInFrame(l: Layout, k: nat)
    requires l.slice > 0 && k < 3
    ensures 0 <= 3 * 101 * l.slice && BlockShards(l, 3 * 101 * l.slice, k) == 101
    ensures Planned(101, 20, 102, 255) == Plan(203, 100) && ParityFor(101, 100) == 101
  {
    hide BlockShards;
    EvenFrame(l, 101, k);
    ParityMissed();
  }
}
