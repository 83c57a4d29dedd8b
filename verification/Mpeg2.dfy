// MPEG-2 start codes: the skip-ahead scanner of cbs_mpeg2.c, and splitting and
// assembling a fragment.

module Mpeg2 {
  import opened Wrappers
  import opened Bits
  import opened Buffers

  /** A uint32_t as its four bytes, most significant first. */
  datatype Word = Word(b3: byte, b2: byte, b1: byte, b0: byte)

  /** state << 8 | b */
  function Shift(state: Word, b: byte): Word {
    Word(state.b2, state.b1, state.b0, b)
  }

  /** (state << 8) == 0x100: the last three bytes are a start code prefix. */
  predicate PrefixSeen(state: Word) {
    state.b2 == 0 && state.b1 == 0 && state.b0 == 1
  }

  /** (state >> 8) == 0x000001: the last four bytes are a start code. */
  predicate CodeSeen(state: Word) {
    state.b3 == 0 && state.b2 == 0 && state.b1 == 1
  }

  /** AV_RB32(p - 4) */
  function WordBefore(data: seq<byte>, p: nat): Word
    requires 4 <= p <= |data|
  {
    Word(data[p - 4], data[p - 3], data[p - 2], data[p - 1])
  }

  /** The simple search: take byte after byte, and stop after the byte that follows a
      prefix in the carried state and the bytes taken so far. */
  function Naive(data: seq<byte>, p: nat, end: nat, state: Word): (r: (nat, Word))
    requires p <= end <= |data|
    ensures p <= r.0 <= end
    decreases end - p
  {
    if p == end then (p, state)
    else if PrefixSeen(state) then (p + 1, Shift(state, data[p]))
    else Naive(data, p + 1, end, Shift(state, data[p]))
  }

  /** A start code prefix ends just before p. */
  predicate PrefixBefore(data: seq<byte>, p: nat)
    requires 3 <= p <= |data|
  {
    data[p - 3] == 0 && data[p - 2] == 0 && data[p - 1] == 1
  }

  /** The state agrees with the three bytes before p. */
  predicate Follows(data: seq<byte>, p: nat, state: Word)
    requires 3 <= p <= |data|
  {
    state.b2 == data[p - 3] && state.b1 == data[p - 2] && state.b0 == data[p - 1]
  }

  /** Bytes before which no prefix ends can be skipped. */
  lemma {:induction false} SkipTo(data: seq<byte>, p: nat, q: nat, end: nat, state: Word)
    requires 3 <= p < q <= end <= |data| && Follows(data, p, state)
    requires forall j :: p <= j < q ==> !PrefixBefore(data, j)
    ensures Naive(data, p, end, state) == Naive(data, q, end, WordBefore(data, q))
    decreases q - p
  {
    assert !PrefixBefore(data, p);
    if p + 1 < q {
      SkipTo(data, p + 1, q, end, Shift(state, data[p]));
    }
  }

  /** The scanner's result is that of the simple search, from any state, and it reads no
      byte before p0. */
  method FindStartCode(data: seq<byte>, p0: nat, end: nat, state0: Word) returns (r: nat, state: Word)
    requires p0 <= end <= |data|
    ensures (r, state) == Naive(data, p0, end, state0)
  {
    var p := p0;
    state := state0;
    if p >= end {
      return end, state;
    }
    for i := 0 to 3
      invariant p == p0 + i && p < end
      invariant Naive(data, p0, end, state0) == Naive(data, p, end, state)
      invariant i >= 1 ==> state.b0 == data[p - 1]
      invariant i >= 2 ==> state.b1 == data[p - 2]
      invariant i >= 3 ==> state.b2 == data[p - 3]
    {
      var found := PrefixSeen(state);
      state := Shift(state, data[p]);
      p := p + 1;
      if found || p == end {
        return p, state;
      }
    }
    // From here on `carried` is what the simple search would hold at min(p, end).
    ghost var carried := state;
    while p < end
      invariant p0 + 3 <= p <= end + 2
      invariant p <= end ==> Follows(data, p, carried) && Naive(data, p0, end, state0) == Naive(data, p, end, carried)
      invariant p > p0 + 3 && p <= end ==> carried == WordBefore(data, p)
      invariant p > end ==> Naive(data, p0, end, state0) == (end, WordBefore(data, end))
      invariant p > p0 + 3 || p < end
    {
      assert p - 3 >= p0;
      ghost var q := p;
      if data[p - 1] > 1 {
        p := p + 3;
      } else if data[p - 2] != 0 {
        p := p + 2;
      } else if data[p - 3] != 0 || data[p - 1] != 1 {
        p := p + 1;
      } else {
        assert PrefixSeen(carried);
        p := p + 1;
        break;
      }
      ghost var next := if p <= end then p else end;
      SkipTo(data, q, next, end, carried);
      carried := WordBefore(data, next);
    }
    r := if p < end then p else end;
    state := WordBefore(data, r);
  }

  // ---- Splitting and assembling ----

  datatype Unit = Unit(kind: byte, data: seq<byte>)

  /** A prefix with a byte after it. */
  predicate CodeAt(data: seq<byte>, k: nat) {
    k + 3 < |data| && data[k] == 0 && data[k + 1] == 0 && data[k + 2] == 1
  }

  /** The first start code at or after k. */
  function FirstCode(data: seq<byte>, k: nat): (r: Option<nat>)
    ensures r.Some? ==> k <= r.value && CodeAt(data, r.value) && forall j :: k <= j < r.value ==> !CodeAt(data, j)
    ensures r.None? ==> forall j :: k <= j ==> !CodeAt(data, j)
    decreases |data| - k
  {
    if k + 3 >= |data| then None
    else if CodeAt(data, k) then Some(k)
    else FirstCode(data, k + 1)
  }

  /** The units from the start code at k on: each runs from the byte after its prefix to
      the next start code, or to the end. */
  function UnitsFrom(data: seq<byte>, k: nat): seq<Unit>
    requires CodeAt(data, k)
    decreases |data| - k
  {
    match FirstCode(data, k + 3)
    case None => [Unit(data[k + 3], data[k + 3..])]
    case Some(next) => [Unit(data[k + 3], data[k + 3..next])] + UnitsFrom(data, next)
  }

  /** cbs_mpeg2_assemble_fragment on values. */
  function Assembled(units: seq<Unit>): seq<byte> {
    if |units| == 0 then [] else [0, 0, 1] + units[0].data + Assembled(units[1..])
  }

  /** Splitting and assembling reproduces the input from a start code on, byte for byte. */
  lemma {:induction false} AssembleUnits(data: seq<byte>, k: nat)
    requires CodeAt(data, k)
    ensures Assembled(UnitsFrom(data, k)) == data[k..]
    decreases |data| - k
  {
    assert data[k..] == [0, 0, 1] + data[k + 3..];
    match FirstCode(data, k + 3) {
      case None =>
        assert UnitsFrom(data, k)[1..] == [];
      case Some(next) =>
        AssembleUnits(data, next);
        assert UnitsFrom(data, k)[1..] == UnitsFrom(data, next);
        assert data[k + 3..] == data[k + 3..next] + data[next..];
    }
  }

  /** What the simple search finds from p on, when the state agrees with the bytes before p. */
  lemma {:induction false} NaiveFinds(data: seq<byte>, p: nat, state: Word)
    requires 3 <= p <= |data| && Follows(data, p, state)
    ensures var (q, s) := Naive(data, p, |data|, state);
      match FirstCode(data, p - 3)
      case Some(t) => q == t + 4 && s == WordBefore(data, q)
      case None => q == |data| && (p < |data| ==> !CodeSeen(s))
    decreases |data| - p
  {
    if p < |data| && !PrefixSeen(state) {
      NaiveFinds(data, p + 1, Shift(state, data[p]));
    }
  }

  /** Just after a start code the next one cannot begin before the byte after its prefix. */
  lemma {:induction false} NextCode(data: seq<byte>, k: nat)
    requires CodeAt(data, k)
    ensures FirstCode(data, k + 1) == FirstCode(data, k + 3)
  {
  }

  const NO_CODE := Word(255, 255, 255, 255)

  /** The search from the start of the fragment. */
  lemma {:induction false} NaiveFromStart(data: seq<byte>)
    ensures var (q, s) := Naive(data, 0, |data|, NO_CODE);
      match FirstCode(data, 0)
      case Some(t) => q == t + 4 && s == WordBefore(data, q)
      case None => !CodeSeen(s)
  {
    if |data| > 0 {
      var s1 := Shift(NO_CODE, data[0]);
      assert Naive(data, 0, |data|, NO_CODE) == Naive(data, 1, |data|, s1);
      if |data| > 1 {
        var s2 := Shift(s1, data[1]);
        assert Naive(data, 1, |data|, s1) == Naive(data, 2, |data|, s2);
        if |data| > 2 {
          var s3 := Shift(s2, data[2]);
          assert Naive(data, 2, |data|, s2) == Naive(data, 3, |data|, s3);
          NaiveFinds(data, 3, s3);
        }
      }
    }
  }

  /** One search of the split loop. When the fragment ends in a start code the search
      leaves the state alone, and the code clears it first. */
  lemma {:induction false} NextSearch(data: seq<byte>, start: nat)
    requires 4 <= start <= |data| && CodeAt(data, start - 4)
    ensures var (end, s) := Naive(data, start, |data|, CarriedInto(data, start));
      match FirstCode(data, start - 1)
      case Some(t) => end == t + 4 && s == WordBefore(data, end) && CodeSeen(s)
      case None => end == |data| && !CodeSeen(s)
  {
    NextCode(data, start - 4);
    if start < |data| {
      NaiveFinds(data, start, WordBefore(data, start));
    }
  }

  function CarriedInto(data: seq<byte>, start: nat): Word
    requires 4 <= start <= |data|
  {
    if start == |data| then Word(0, 0, 0, 0) else WordBefore(data, start)
  }

  /** The step of UnitsFrom at a start code that another one follows. */
  lemma {:induction false} UnitsStep(data: seq<byte>, first: nat, acc: seq<Unit>, k: nat, next: nat)
    requires CodeAt(data, first) && CodeAt(data, k) && FirstCode(data, k + 3) == Some(next)
    requires UnitsFrom(data, first) == acc + UnitsFrom(data, k)
    ensures UnitsFrom(data, first) == acc + [Unit(data[k + 3], data[k + 3..next])] + UnitsFrom(data, next)
  {
  }

  /** cbs_mpeg2_split_fragment: an error without a start code, and otherwise the units
      from the first one on. Every pass advances, so the loop ends. */
  method SplitFragment(data: seq<byte>) returns (units: Option<seq<Unit>>)
    ensures units == match FirstCode(data, 0)
      case None => None
      case Some(k) => Some(UnitsFrom(data, k))
  {
    hide UnitsFrom, Naive;
    var startCode := NO_CODE;
    var start: nat;
    NaiveFromStart(data);
    start, startCode := FindStartCode(data, 0, |data|, startCode);
    if !CodeSeen(startCode) {
      return None;
    }
    ghost var first := start - 4;
    units := SplitLoop(data, first, start, startCode);
  }

  /** The last unit. */
  lemma {:induction false} LastUnit(data: seq<byte>, k: nat, acc: seq<Unit>)
    requires CodeAt(data, k) && FirstCode(data, k + 3).None?
    ensures acc + UnitsFrom(data, k) == acc + [Unit(data[k + 3], data[k + 3..|data|])]
  {
    assert data[k + 3..|data|] == data[k + 3..];
  }

  /** The split loop, from the first start code on. */
  method SplitLoop(data: seq<byte>, ghost first: nat, start0: nat, startCode0: Word) returns (units: Option<seq<Unit>>)
    requires 4 <= start0 <= |data| && first == start0 - 4 && CodeAt(data, first)
    requires startCode0 == WordBefore(data, start0)
    ensures units == Some(UnitsFrom(data, first))
  {
    hide FirstCode, Naive, UnitsFrom;
    var start, startCode := start0, startCode0;
    var acc: seq<Unit> := [];
    while true
      invariant 4 <= start <= |data| && CodeAt(data, start - 4) && startCode == WordBefore(data, start)
      invariant UnitsFrom(data, first) == acc + UnitsFrom(data, start - 4)
      decreases |data| - start
    {
      ghost var k := start - 4;
      NextSearch(data, start);
      var kind := startCode.b0;
      if start == |data| {
        startCode := Word(0, 0, 0, 0);
      }
      var end: nat;
      end, startCode := FindStartCode(data, start, |data|, startCode);
      start := start - 1;
      if !CodeSeen(startCode) {
        LastUnit(data, k, acc);
        acc := acc + [Unit(kind, data[start..end])];
        return Some(acc);
      }
      UnitsStep(data, first, acc, k, end - 4);
      acc := acc + [Unit(kind, data[start..end - 4])];
      start := end;
    }
  }

  lemma {:induction false} NothingAssembled(units: seq<Unit>)
    requires |units| == 0
    ensures Assembled(units) == []
  {
  }

  lemma {:induction false} AssembledStep(before: seq<byte>, units: seq<Unit>, i: nat)
    requires i < |units|
    ensures before + Assembled(units[i..]) == before + [0, 0, 1] + units[i].data + Assembled(units[i + 1..])
    ensures |Assembled(units[i..])| == 3 + |units[i].data| + |Assembled(units[i + 1..])|
  {
  }

  /** cbs_mpeg2_assemble_fragment */
  method AssembleFragment(units: seq<Unit>) returns (data: array<byte>)
    ensures data[..] == Assembled(units)
  {
    hide Assembled;
    var size := 0;
    assert units[0..] == units;
    for i := 0 to |units|
      invariant size + |Assembled(units[i..])| == |Assembled(units)|
    {
      AssembledStep([], units, i);
      size := size + 3 + |units[i].data|;
    }
    assert Assembled(units[|units|..]) == [] by { NothingAssembled(units[|units|..]); }
    data := new byte[size];
    var dp: nat := 0;
    for i := 0 to |units|
      invariant dp <= data.Length == size
      invariant data[..dp] + Assembled(units[i..]) == Assembled(units)
    {
      ghost var before := data[..dp];
      AssembledStep(before, units, i);
      data[dp], data[dp + 1], data[dp + 2] := 0, 0, 1;
      dp := dp + 3;
      assert data[..dp] == before + [0, 0, 1];
      dp := CopyTo(data, dp, units[i].data);
    }
    assert data[..] == data[..dp];
  }
}
