// Assembling a fragment and splitting it again.

module NalSplit {
  import opened Wrappers
  import opened Bits
  import opened Nal

  // ---- Assembling (cbs_h2645_assemble_fragment) ----

  /** cbs_h2645_unit_requires_zero_byte */
  predicate RequiresZeroByte(codec: Codec, kind: nat, i: nat) {
    || i == 0
    || (codec.H264? && (kind == H264_NAL_SPS || kind == H264_NAL_PPS))
    || (codec.HEVC? && (kind == HEVC_NAL_VPS || kind == HEVC_NAL_SPS || kind == HEVC_NAL_PPS))
  }

  function StartCode(zeroByte: bool): seq<byte> {
    (if zeroByte then [0] else []) + [0, 0, 1]
  }

  /** The byte stream of the units from the i-th on. */
  function Stream(codec: Codec, units: seq<Unit>, i: nat): seq<byte>
    requires i <= |units|
    decreases |units| - i
  {
    if i == |units| then []
    else StartCode(RequiresZeroByte(codec, units[i].kind, i)) + (Escape(units[i].data, 0) + Stream(codec, units, i + 1))
  }

  /** max_size: a start code and worst-case emulation prevention for every unit. */
  function MaxSize(units: seq<Unit>, i: nat): nat
    requires i <= |units|
    decreases |units| - i
  {
    if i == |units| then 0 else 4 + |units[i].data| * 3 / 2 + MaxSize(units, i + 1)
  }

  /** The units one after the other: a start code of four bytes before the first one and
      before parameter sets (types 7 and 8 of H.264, 32 to 34 of H.265), and of three bytes
      before any other. */
  lemma {:induction false} StreamUnit(codec: Codec, units: seq<Unit>, i: nat)
    requires i < |units|
    ensures var kind := units[i].kind;
      var zeroByte := i == 0 || kind in if codec == H264 then {7, 8} else {32, 33, 34};
      Stream(codec, units, i)
        == (if zeroByte then [0, 0, 0, 1] else [0, 0, 1]) + Escape(units[i].data, 0) + Stream(codec, units, i + 1)
    ensures Stream(codec, units, |units|) == []
  {
    hide Escape;
    assert [0] + [0, 0, 1] == [0, 0, 0, 1] && [] + [0, 0, 1] == [0, 0, 1];
  }

  /** Four bytes and half as much again as its data for each unit. */
  lemma {:induction false} MaxSizeUnit(units: seq<Unit>, i: nat)
    requires i < |units|
    ensures MaxSize(units, i) == 4 + |units[i].data| + |units[i].data| / 2 + MaxSize(units, i + 1)
    ensures MaxSize(units, |units|) == 0
  {
  }

  /** The stream never outgrows the buffer allocated for it. */
  lemma {:induction false} StreamFits(codec: Codec, units: seq<Unit>, i: nat)
    requires i <= |units|
    ensures |Stream(codec, units, i)| <= MaxSize(units, i)
    decreases |units| - i
  {
    if i < |units| {
      StreamFits(codec, units, i + 1);
      EscapeLength(units[i].data, 0);
    }
  }

  /** data[dp++] = b */
  method Put(data: array<byte>, dp: nat, b: byte) returns (next: nat)
    requires dp < data.Length
    modifies data
    ensures next == dp + 1 && data[..next] == old(data[..dp]) + [b]
  {
    data[dp] := b;
    next := dp + 1;
  }

  /** The emulation prevention loop over one unit. */
  method PutEscaped(data: array<byte>, dp0: nat, payload: seq<byte>) returns (dp: nat)
    requires dp0 + |Escape(payload, 0)| <= data.Length
    modifies data
    ensures dp == dp0 + |Escape(payload, 0)|
    ensures data[..dp] == old(data[..dp0]) + Escape(payload, 0)
  {
    dp := dp0;
    var zeroRun := 0;
    ghost var whole := data[..dp0] + Escape(payload, 0);
    assert payload[0..] == payload;
    for sp := 0 to |payload|
      invariant zeroRun <= 2 && dp <= data.Length
      invariant data[..dp] + Escape(payload[sp..], zeroRun) == whole
    {
      ghost var before, rest := data[..dp], Escape(payload[sp + 1..], NextRun(zeroRun, payload[sp]));
      assert payload[sp..][1..] == payload[sp + 1..];
      if zeroRun < 2 {
        assert whole == before + [payload[sp]] + rest;
        zeroRun := if payload[sp] == 0 then zeroRun + 1 else 0;
      } else {
        if payload[sp] < 4 {
          assert whole == before + [3] + [payload[sp]] + rest;
          dp := Put(data, dp, 3);
        } else {
          assert whole == before + [payload[sp]] + rest;
        }
        zeroRun := if payload[sp] == 0 then 1 else 0;
      }
      dp := Put(data, dp, payload[sp]);
    }
  }

  /** The start code prefix of one unit. */
  method PutStartCode(data: array<byte>, dp0: nat, zeroByte: bool) returns (dp: nat)
    requires dp0 + |StartCode(zeroByte)| <= data.Length
    modifies data
    ensures dp == dp0 + |StartCode(zeroByte)| && data[..dp] == old(data[..dp0]) + StartCode(zeroByte)
  {
    dp := dp0;
    if zeroByte {
      dp := Put(data, dp, 0);
    }
    dp := Put(data, dp, 0);
    dp := Put(data, dp, 0);
    dp := Put(data, dp, 1);
  }

  lemma {:induction false} StreamStep(codec: Codec, units: seq<Unit>, i: nat, before: seq<byte>)
    requires i < |units|
    ensures before + Stream(codec, units, i)
      == before + StartCode(RequiresZeroByte(codec, units[i].kind, i)) + Escape(units[i].data, 0)
        + Stream(codec, units, i + 1)
  {
  }

  /** cbs_h2645_assemble_fragment */
  method Assemble(codec: Codec, units: seq<Unit>) returns (data: array<byte>, size: nat)
    ensures fresh(data) && size <= data.Length == MaxSize(units, 0)
    ensures data[..size] == Stream(codec, units, 0)
  {
    hide Escape, StartCode, RequiresZeroByte;
    var maxSize := 0;
    for i := 0 to |units|
      invariant maxSize + MaxSize(units, i) == MaxSize(units, 0)
    {
      maxSize := maxSize + 4 + |units[i].data| * 3 / 2;
    }
    StreamFits(codec, units, 0);
    data := new byte[maxSize];
    size := 0;
    ghost var whole := Stream(codec, units, 0);
    for i := 0 to |units|
      invariant size <= data.Length == maxSize
      invariant data[..size] + Stream(codec, units, i) == whole
    {
      StreamStep(codec, units, i, data[..size]);
      size := PutStartCode(data, size, RequiresZeroByte(codec, units[i].kind, i));
      size := PutEscaped(data, size, units[i].data);
    }
  }

  // ---- Splitting ----

  function StripZeros(data: seq<byte>): (r: seq<byte>)
    ensures |r| <= |data| && r == data[..|r|]
    ensures |r| > 0 ==> r[|r| - 1] != 0
  {
    if |data| > 0 && data[|data| - 1] == 0 then StripZeros(data[..|data| - 1]) else data
  }

  /** get_bit_length: the bits before the stop bit, unless the data ends in a zero byte. */
  function BitLength(data: seq<byte>, skipTrailingZeros: bool): int {
    var kept := if skipTrailingZeros then StripZeros(data) else data;
    if |kept| == 0 then 0
    else if kept[|kept| - 1] != 0 then 8 * |kept| - (TrailingZeros(kept[|kept| - 1]) + 1)
    else 8 * |kept|
  }

  /** The nal_unit_type and nuh_layer_id of a NAL unit header, if it is valid. A byte past
      the end reads as zero: padding or the next start code. */
  function Header(codec: Codec, data: seq<byte>): Option<(nat, nat)>
    requires |data| > 0
  {
    var b0, b1 := data[0], if |data| > 1 then data[1] else 0;
    if b0 >= 128 then None
    else if codec.H264? then Some((b0 % 32, 0))
    else if b1 % 8 == 0 then None
    else Some((b0 / 2 % 64, b0 % 2 * 32 + b1 / 8))
  }

  /** The bits of a unit state a valid header with this type and layer (section 7.3.1 of ITU-T
      H.264 and section 7.3.1.2 of ITU-T H.265); a second byte past the end reads as zero. */
  ghost predicate StatesHeader(codec: Codec, data: seq<byte>, kind: nat, layer: nat) {
    var b := BytesBits(data + [0]);
    && |data| > 0 && !b[0]
    && match codec
       case H264 => kind == FromBits(b[3..8]) && layer == 0
       case HEVC => kind == FromBits(b[1..7]) && layer == FromBits(b[7..13]) && FromBits(b[13..16]) != 0
  }

  /** The header is parsed as its bits state it. */
  lemma {:induction false} HeaderIff(codec: Codec, data: seq<byte>, kind: nat, layer: nat)
    requires |data| > 0
    ensures Header(codec, data) == Some((kind, layer)) <==> StatesHeader(codec, data, kind, layer)
  {
    hide BytesBits, ToBits, FromBits, Pow2;
    var b0, b1 := data[0], if |data| > 1 then data[1] else 0;
    var b := BytesBits(data + [0]);
    TwoBytes(data + [0]);
    assert b[..8] == ToBits(8, b0) && b[8..16] == ToBits(8, b1);
    FirstByteFields(b0);
    SecondByteFields(b1);
    assert b[0] == ToBits(8, b0)[0];
    assert b[3..8] == ToBits(8, b0)[3..] && b[1..7] == ToBits(8, b0)[1..7] && b[13..16] == ToBits(8, b1)[5..];
    assert b[7..13] == ToBits(8, b0)[7..] + ToBits(8, b1)[..5];
    LayerField(b0 % 2, b1 / 8);
  }

  lemma {:induction false} TwoBytes(data: seq<byte>)
    requires |data| > 1
    ensures BytesBits(data)[..8] == ToBits(8, data[0]) && BytesBits(data)[8..16] == ToBits(8, data[1])
  {
    hide ToBits;
    assert BytesBits(data) == ToBits(8, data[0]) + (ToBits(8, data[1]) + BytesBits(data[1..][1..]));
  }

  lemma {:induction false} FirstByteFields(v: byte)
    ensures ToBits(8, v)[0] <==> v >= 128
    ensures FromBits(ToBits(8, v)[3..]) == v % 32
    ensures FromBits(ToBits(8, v)[1..7]) == v / 2 % 64
    ensures ToBits(8, v)[7..] == ToBits(1, v % 2)
  {
    hide ToBits, FromBits, Pow2;
    SmallPowers();
    ToBitsSplit(1, 7, v / 128, v % 128);
    OneBit(v / 128);
    ToBitsSplit(3, 5, v / 32, v % 32);
    FromTo(5, v % 32);
    ToBitsSplit(7, 1, v / 2, v % 2);
    ToBitsSplit(1, 6, v / 128, v / 2 % 64);
    FromTo(6, v / 2 % 64);
    assert ToBits(8, v)[1..7] == ToBits(7, v / 2)[1..];
  }

  lemma {:induction false} SecondByteFields(v: byte)
    ensures ToBits(8, v)[..5] == ToBits(5, v / 8) && FromBits(ToBits(8, v)[5..]) == v % 8
  {
    hide ToBits, FromBits, Pow2;
    SmallPowers();
    ToBitsSplit(5, 3, v / 8, v % 8);
    FromTo(3, v % 8);
  }

  lemma {:induction false} LayerField(hi: nat, lo: nat)
    requires hi < 2 && lo < 32
    ensures FromBits(ToBits(1, hi) + ToBits(5, lo)) == hi * 32 + lo
  {
    hide ToBits, FromBits, Pow2;
    SmallPowers();
    ToBitsSplit(1, 5, hi, lo);
    FromTo(6, hi * 32 + lo);
  }

  lemma {:induction false} OneBit(v: nat)
    requires v < 2
    ensures ToBits(1, v) == [v == 1]
  {
    assert ToBits(0, 0) == [];
  }

  lemma {:induction false} SmallPowers()
    ensures Pow2(1) == 2 && Pow2(3) == 8 && Pow2(5) == 32 && Pow2(6) == 64 && Pow2(7) == 128 && Pow2(8) == 256
  {
  }

  /** A NAL unit of the packet. */
  datatype Found = Found(kind: nat, layer: nat, data: seq<byte>)

  /** find_next_start_code: past the next 00 00 01 that a byte follows, or the end. */
  function NextStart(s: seq<byte>): (k: nat)
    requires |s| >= 3
    ensures 3 <= k <= |s|
  {
    if |s| == 3 || (s[0] == 0 && s[1] == 0 && s[2] == 1) then 3 else 1 + NextStart(s[1..])
  }

  /** A start code that a byte follows. */
  predicate StartAt(s: seq<byte>, i: nat) {
    i + 3 < |s| && s[i] == 0 && s[i + 1] == 0 && s[i + 2] == 1
  }

  /** The search stops behind the first such start code, or at the end. */
  lemma {:induction false} NextStartMeaning(s: seq<byte>)
    requires |s| >= 3
    ensures var k := NextStart(s);
      && (k == |s| || StartAt(s, k - 3))
      && forall i :: 0 <= i < k - 3 ==> !StartAt(s, i)
  {
    if |s| > 3 && !StartAt(s, 0) {
      NextStartMeaning(s[1..]);
      assert forall i :: 1 <= i < |s| ==> (StartAt(s, i) <==> StartAt(s[1..], i - 1));
    }
  }

  /** What one pass of the packet loop keeps of the bytes it extracted, given the bytes
      that are left after them. */
  function Kept(codec: Codec, data: seq<byte>, left: seq<byte>): (r: Option<Found>)
    ensures r.Some? ==> |data| > 0 && r.value.data == data && Header(codec, data) == Some((r.value.kind, r.value.layer))
  {
    var skip := !(|left| >= 4 && left[0] == 0 && left[1] == 0 && left[2] == 1 && left[3] == 0xE0);
    if |data| == 0 || BitLength(data, skip) <= 0 then None
    else
      var (kind, layer) :- Header(codec, data);
      Some(Found(kind, layer, data))
  }

  /** ff_h2645_packet_split from a position on, with `nals` already found. */
  function Split(codec: Codec, s: seq<byte>, nals: seq<Found>): Option<seq<Found>>
    decreases |s|
  {
    if |s| < 4 then Some(nals)
    else
      var k := NextStart(s);
      if k == |s| then (if |nals| > 0 then Some(nals) else None)
      else
        var (data, used) := Extract(s[k..]);
        var left := s[k..][used..];
        Split(codec, left, nals + Listed(Kept(codec, data, left)))
  }

  function Listed(f: Option<Found>): seq<Found> {
    if f.Some? then [f.value] else []
  }

  /** cbs_h2645_fragment_add_nals: base layer only, without trailing zero bytes. */
  function Added(nals: seq<Found>): seq<Unit> {
    if |nals| == 0 then []
    else
      var last := nals[|nals| - 1];
      var data := StripZeros(last.data);
      Added(nals[..|nals| - 1]) + if last.layer > 0 || |data| == 0 then [] else [Unit(last.kind, data)]
  }

  /** cbs_h2645_split_fragment on a byte stream. */
  function SplitFragment(codec: Codec, s: seq<byte>): Option<seq<Unit>> {
    if |s| == 0 then Some([])
    else
      var nals :- Split(codec, s, []);
      Some(Added(nals))
  }

  // ---- Round trip ----

  /** A unit that a reader can give back: a valid header of the base layer that says the
      unit's type, and a last byte that is not zero. */
  ghost predicate Good(codec: Codec, u: Unit) {
    && |u.data| > 0 && u.data[|u.data| - 1] != 0
    && StatesHeader(codec, u.data, u.kind, 0)
  }

  lemma {:induction false} StripPadded(u: seq<byte>, z: seq<byte>)
    requires |u| > 0 ==> u[|u| - 1] != 0
    requires forall i :: 0 <= i < |z| ==> z[i] == 0
    ensures StripZeros(u + z) == u
  {
    if |z| > 0 {
      StripPadded(u, z[..|z| - 1]);
      assert (u + z)[..|u + z| - 1] == u + z[..|z| - 1];
    } else {
      assert u + z == u;
    }
  }

  lemma {:induction false} HeaderOfStripped(codec: Codec, data: seq<byte>)
    requires |StripZeros(data)| > 0
    ensures Header(codec, StripZeros(data)) == Header(codec, data)
  {
    StrippedZeros(data);
  }

  lemma {:induction false} StrippedZeros(data: seq<byte>)
    ensures forall i :: |StripZeros(data)| <= i < |data| ==> data[i] == 0
  {
    if |data| > 0 && data[|data| - 1] == 0 {
      StrippedZeros(data[..|data| - 1]);
    }
  }

  lemma {:induction false} HeaderOfPadded(codec: Codec, u: seq<byte>, z: seq<byte>)
    requires |u| > 0 && forall i :: 0 <= i < |z| ==> z[i] == 0
    ensures Header(codec, u + z) == Header(codec, u)
  {
    assert (u + z)[0] == u[0];
  }

  /** A good unit is kept, whatever zero bytes were extracted with it and whatever follows. */
  lemma {:induction false} GoodIsKept(codec: Codec, u: Unit, z: seq<byte>, left: seq<byte>)
    requires Good(codec, u) && forall i :: 0 <= i < |z| ==> z[i] == 0
    ensures Kept(codec, u.data + z, left) == Some(Found(u.kind, 0, u.data + z))
  {
    hide StatesHeader, Kept, Header;
    HeaderIff(codec, u.data, u.kind, 0);
    HeaderOfPadded(codec, u.data, z);
    HeaderIff(codec, u.data + z, u.kind, 0);
    assert (u.data + z)[|u.data| - 1] != 0;
    KeptIff(codec, u.data + z, left, u.kind, 0);
  }

  /** Extraction stops before the start code of the next unit, having taken its zero byte. */
  lemma {:induction false} ExtractBoundary(codec: Codec, units: seq<Unit>, i: nat)
    requires i <= |units|
    ensures var tail := Stream(codec, units, i);
      && Boundary(tail)
      && Extract(tail) == if i < |units| && RequiresZeroByte(codec, units[i].kind, i) then ([0], 1) else ([], 0)
  {
    if i < |units| {
      var tail := Stream(codec, units, i);
      if RequiresZeroByte(codec, units[i].kind, i) {
        assert tail[..4] == [0, 0, 0, 1];
        assert tail[1..][..3] == [0, 0, 1];
        assert Extract(tail[1..]) == ([], 0);
        var none: seq<byte> := [];
        assert [tail[0]] + none == [0];
      } else {
        assert tail[..3] == [0, 0, 1];
      }
    }
  }

  /** Splitting from the i-th unit's start code on, whether or not its zero byte is left,
      finds the unit's bytes and stops at the next one. */
  lemma {:induction false} SplitUnit(codec: Codec, units: seq<Unit>, i: nat, s: seq<byte>, zeroByte: bool)
    returns (z: seq<byte>)
    requires i < |units| && Good(codec, units[i])
    requires s == StartCode(zeroByte) + (Escape(units[i].data, 0) + Stream(codec, units, i + 1))
    ensures |s| >= 4 && NextStart(s) < |s|
    ensures z == if i + 1 < |units| && RequiresZeroByte(codec, units[i + 1].kind, i + 1) then [0] else []
    ensures |z| <= |Stream(codec, units, i + 1)|
    ensures var rest := s[NextStart(s)..];
      && Extract(rest).0 == units[i].data + z
      && rest[Extract(rest).1..] == Stream(codec, units, i + 1)[|z|..]
  {
    hide Escape, Extract, NextStart, Stream, StatesHeader, RequiresZeroByte;
    var u, tail := units[i].data, Stream(codec, units, i + 1);
    ExtractBoundary(codec, units, i + 1);
    ExtractEscaped(u, tail);
    EscapeLength(u, 0);
    z := Extract(tail).0;
    FindStart(zeroByte, Escape(u, 0) + tail);
    var rest := s[NextStart(s)..];
    assert rest == Escape(u, 0) + tail;
    assert rest[|Escape(u, 0)|..] == tail;
    assert rest[|Escape(u, 0)| + |z|..] == tail[|z|..];
  }

  lemma {:induction false} FindStart(zeroByte: bool, rest: seq<byte>)
    requires |rest| > 0
    ensures var s := StartCode(zeroByte) + rest; NextStart(s) == |StartCode(zeroByte)|
  {
  }

  /** The entries of the units from the i-th on, as the packet loop finds them. */
  ghost predicate FoundFrom(units: seq<Unit>, i: nat, found: seq<Found>)
    requires i <= |units|
  {
    && |found| == |units| - i
    && forall k :: 0 <= k < |found| ==>
      found[k].kind == units[i + k].kind && found[k].layer == 0 && StripZeros(found[k].data) == units[i + k].data
  }

  /** The bytes from the i-th unit's start code on. */
  ghost predicate AtUnit(codec: Codec, units: seq<Unit>, i: nat, s: seq<byte>, zeroByte: bool)
    requires i <= |units|
  {
    if i == |units| then s == []
    else s == StartCode(zeroByte) + (Escape(units[i].data, 0) + Stream(codec, units, i + 1))
  }

  lemma {:induction false} GoodData(codec: Codec, u: Unit)
    requires Good(codec, u)
    ensures |u.data| > 0 && u.data[|u.data| - 1] != 0
  {
  }

  /** One pass of the packet loop over a good unit. */
  lemma {:induction false} SplitOnce(codec: Codec, units: seq<Unit>, i: nat, s: seq<byte>, zeroByte: bool,
                                     nals: seq<Found>)
    returns (first: Found, left: seq<byte>)
    requires i < |units| && Good(codec, units[i])
    requires AtUnit(codec, units, i, s, zeroByte)
    ensures Split(codec, s, nals) == Split(codec, left, nals + [first])
    ensures first.kind == units[i].kind && first.layer == 0 && StripZeros(first.data) == units[i].data
    ensures AtUnit(codec, units, i + 1, left, false)
  {
    hide Kept, Extract, NextStart, Stream, Escape, StripZeros, Good;
    GoodData(codec, units[i]);
    var z := SplitUnit(codec, units, i, s, zeroByte);
    var rest := s[NextStart(s)..];
    left := rest[Extract(rest).1..];
    first := Found(units[i].kind, 0, units[i].data + z);
    GoodIsKept(codec, units[i], z, left);
    StripPadded(units[i].data, z);
    NextLeft(codec, units, i + 1, left, z);
  }

  lemma {:induction false} FoundCons(units: seq<Unit>, i: nat, first: Found, more: seq<Found>)
    requires i < |units| && FoundFrom(units, i + 1, more)
    requires first.kind == units[i].kind && first.layer == 0 && StripZeros(first.data) == units[i].data
    ensures FoundFrom(units, i, [first] + more)
  {
  }

  lemma {:induction false} SplitEnd(codec: Codec, units: seq<Unit>, s: seq<byte>, zeroByte: bool, nals: seq<Found>)
    requires AtUnit(codec, units, |units|, s, zeroByte)
    ensures FoundFrom(units, |units|, []) && Split(codec, s, nals) == Some(nals + [])
  {
    assert nals + [] == nals;
  }

  lemma {:induction false} SplitStream(codec: Codec, units: seq<Unit>, i: nat, s: seq<byte>, zeroByte: bool,
                                       nals: seq<Found>)
    returns (found: seq<Found>)
    requires i <= |units| && forall k :: i <= k < |units| ==> Good(codec, units[k])
    requires AtUnit(codec, units, i, s, zeroByte)
    ensures FoundFrom(units, i, found) && Split(codec, s, nals) == Some(nals + found)
    decreases |units| - i
  {
    hide Good, StripZeros, Split, FoundFrom, AtUnit;
    if i == |units| {
      found := [];
      SplitEnd(codec, units, s, zeroByte, nals);
    } else {
      var first, left := SplitOnce(codec, units, i, s, zeroByte, nals);
      var more := SplitStream(codec, units, i + 1, left, false, nals + [first]);
      found := [first] + more;
      FoundCons(units, i, first, more);
      assert nals + [first] + more == nals + found;
    }
  }

  lemma {:induction false} NextLeft(codec: Codec, units: seq<Unit>, i: nat, left: seq<byte>, z: seq<byte>)
    requires i <= |units|
    requires z == if i < |units| && RequiresZeroByte(codec, units[i].kind, i) then [0] else []
    requires |z| <= |Stream(codec, units, i)| && left == Stream(codec, units, i)[|z|..]
    ensures AtUnit(codec, units, i, left, false)
  {
  }

  lemma {:induction false} AddedFound(units: seq<Unit>, found: seq<Found>)
    requires FoundFrom(units, 0, found) && forall k :: 0 <= k < |units| ==> |units[k].data| > 0
    ensures Added(found) == units
  {
    if |found| > 0 {
      var n := |found| - 1;
      AddedFound(units[..n], found[..n]);
      assert units == units[..n] + [units[n]];
    }
  }

  /** Good units come back from their stream. */
  lemma {:induction false} StreamRoundTrip(codec: Codec, units: seq<Unit>)
    requires forall k :: 0 <= k < |units| ==> Good(codec, units[k])
    ensures SplitFragment(codec, Stream(codec, units, 0)) == Some(units)
  {
    if |units| > 0 {
      var found := SplitStream(codec, units, 0, Stream(codec, units, 0), true, []);
      assert [] + found == found;
      AddedFound(units, found);
    }
  }

  // ---- Whatever is split off is good ----

  ghost predicate HeadersOk(codec: Codec, nals: seq<Found>) {
    forall k :: 0 <= k < |nals| ==>
      StatesHeader(codec, nals[k].data, nals[k].kind, nals[k].layer)
  }

  /** A program stream start code E0 comes next. */
  predicate BeforeE0(left: seq<byte>) {
    |left| >= 4 && left[..4] == [0, 0, 1, 0xE0]
  }

  lemma {:induction false} SomeNonzero(data: seq<byte>)
    ensures |StripZeros(data)| > 0 <==> exists i :: 0 <= i < |data| && data[i] != 0
  {
    StrippedZeros(data);
    if |StripZeros(data)| > 0 {
      assert data[|StripZeros(data)| - 1] != 0;
    }
  }

  /** What is extracted is kept exactly when its bits state a valid header and a byte of it
      is not zero, or the start code E0 follows. */
  lemma {:induction false} KeptIff(codec: Codec, data: seq<byte>, left: seq<byte>, kind: nat, layer: nat)
    ensures Kept(codec, data, left) == Some(Found(kind, layer, data)) <==>
      && StatesHeader(codec, data, kind, layer)
      && (BeforeE0(left) || exists i :: 0 <= i < |data| && data[i] != 0)
  {
    hide StatesHeader, StripZeros, Header;
    if |data| > 0 {
      HeaderIff(codec, data, kind, layer);
      SomeNonzero(data);
      if Header(codec, data).Some? {
        BitsLeft(codec, data);
        assert BeforeE0(left)
          <==> |left| >= 4 && left[0] == 0 && left[1] == 0 && left[2] == 1 && left[3] == 0xE0;
      }
    } else {
      NoHeader(codec, data, kind, layer);
    }
  }

  lemma {:induction false} NoHeader(codec: Codec, data: seq<byte>, kind: nat, layer: nat)
    requires |data| == 0
    ensures !StatesHeader(codec, data, kind, layer)
  {
    hide BytesBits, FromBits;
  }

  /** Behind a valid header the length of the payload is positive, unless only zeros are
      there and they are skipped. */
  lemma {:induction false} BitsLeft(codec: Codec, data: seq<byte>)
    requires |data| > 0 && Header(codec, data).Some?
    ensures BitLength(data, false) > 0
    ensures BitLength(data, true) > 0 <==> |StripZeros(data)| > 0
  {
    if data[|data| - 1] != 0 {
      PositiveLength(data);
    }
    if |StripZeros(data)| > 0 {
      PositiveLength(StripZeros(data));
    }
  }

  lemma {:induction false} PositiveLength(kept: seq<byte>)
    requires |kept| > 0 && kept[0] < 128 && kept[|kept| - 1] != 0
    ensures 8 * |kept| - (TrailingZeros(kept[|kept| - 1]) + 1) > 0
  {
    hide TrailingZeros, Pow2;
    SmallPowers();
    TrailingZerosBound(kept[|kept| - 1], if |kept| == 1 then 7 else 8);
  }

  lemma {:induction false} KeptStates(codec: Codec, data: seq<byte>, left: seq<byte>)
    ensures var kept := Kept(codec, data, left);
      kept.Some? ==> StatesHeader(codec, kept.value.data, kept.value.kind, kept.value.layer)
  {
    hide StatesHeader;
    var kept := Kept(codec, data, left);
    if kept.Some? {
      HeaderIff(codec, data, kept.value.kind, kept.value.layer);
    }
  }

  lemma {:induction false} SplitHeaders(codec: Codec, s: seq<byte>, nals: seq<Found>)
    requires HeadersOk(codec, nals) && Split(codec, s, nals).Some?
    ensures HeadersOk(codec, Split(codec, s, nals).value)
    decreases |s|
  {
    hide StatesHeader, Kept, Extract, NextStart;
    if |s| >= 4 && NextStart(s) < |s| {
      var rest := s[NextStart(s)..];
      var (data, used) := Extract(rest);
      var kept := Kept(codec, data, rest[used..]);
      KeptStates(codec, data, rest[used..]);
      assert HeadersOk(codec, nals + Listed(kept));
      SplitHeaders(codec, rest[used..], nals + Listed(kept));
    }
  }

  /** What the splitter yields is good. */
  lemma {:induction false} AddedGood(codec: Codec, nals: seq<Found>)
    requires HeadersOk(codec, nals)
    ensures forall k :: 0 <= k < |Added(nals)| ==> Good(codec, Added(nals)[k])
  {
    hide StatesHeader, Header;
    if |nals| > 0 {
      AddedGood(codec, nals[..|nals| - 1]);
      var last := nals[|nals| - 1];
      if |StripZeros(last.data)| > 0 {
        HeaderOfStripped(codec, last.data);
        HeaderIff(codec, last.data, last.kind, last.layer);
        HeaderIff(codec, StripZeros(last.data), last.kind, last.layer);
      }
    }
  }

  /** Assembling and splitting gives back exactly the same units if and only if every
      unit has a valid base layer header saying its type and a last byte that is not zero. */
  lemma {:induction false} AssembleSplitIff(codec: Codec, units: seq<Unit>)
    ensures SplitFragment(codec, Stream(codec, units, 0)) == Some(units)
      <==> forall k :: 0 <= k < |units| ==> Good(codec, units[k])
  {
    var s := Stream(codec, units, 0);
    if SplitFragment(codec, s) == Some(units) && |s| > 0 {
      SplitHeaders(codec, s, []);
      AddedGood(codec, Split(codec, s, []).value);
    } else if forall k :: 0 <= k < |units| ==> Good(codec, units[k]) {
      StreamRoundTrip(codec, units);
    }
  }
}
