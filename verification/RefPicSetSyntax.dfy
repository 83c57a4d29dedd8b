// Reading and writing st_ref_pic_set, and the SPS loop over the sets.

module RefPicSetSyntax {
  import opened Wrappers
  import opened Bits
  import opened Golomb
  import opened RefPicSet

  /** The elements sent for a set: its delta steps, or how to predict them. */
  datatype Coded =
    | Explicit(rps: Rps)
    | Inter(deltaIdxMinus1: nat, sign: bool, absMinus1: nat, f: Flags)

  // ---- The syntax (section 7.3.7 of ITU-T H.265) ----

  function EncodeFlags(f: Flags): seq<bool>
    requires |f.used| == |f.useDelta|
    decreases |f.used|
  {
    if |f.used| == 0 then []
    else
      [f.used[0]] + (if f.used[0] then [] else [f.useDelta[0]])
        + EncodeFlags(Flags(f.used[1..], f.useDelta[1..]))
  }

  predicate Codable(steps: seq<Step>) {
    forall i :: 0 <= i < |steps| ==> steps[i].minus1 >= 0
  }

  function EncodeSteps(steps: seq<Step>): seq<bool>
    requires Codable(steps)
  {
    if |steps| == 0 then [] else EncodeUe(steps[0].minus1) + [steps[0].used] + EncodeSteps(steps[1..])
  }

  /** The fields have a code: the flags are in pairs, and no step is negative. */
  predicate Encodable(c: Coded) {
    match c
    case Explicit(rps) => Codable(rps.s0) && Codable(rps.s1)
    case Inter(_, _, _, f) => |f.used| == |f.useDelta|
  }

  /** Everything after inter_ref_pic_set_prediction_flag. */
  function Body(c: Coded, sendIdx: bool): seq<bool>
    requires Encodable(c)
  {
    match c
    case Inter(deltaIdxMinus1, sign, absMinus1, f) =>
      (if sendIdx then EncodeUe(deltaIdxMinus1) else []) + [sign] + EncodeUe(absMinus1) + EncodeFlags(f)
    case Explicit(rps) =>
      EncodeUe(|rps.s0|) + EncodeUe(|rps.s1|) + EncodeSteps(rps.s0) + EncodeSteps(rps.s1)
  }

  function EncodeSet(c: Coded, idx: nat, numSets: nat): seq<bool>
    requires Encodable(c)
  {
    (if idx != 0 then [c.Inter?] else []) + Body(c, idx == numSets)
  }

  ghost predicate StepsInRange(steps: seq<Step>) {
    forall i :: 0 <= i < |steps| ==> 0 <= steps[i].minus1 <= INT16_MAX
  }

  /** Of every pair of flags only the first is sent when it is set. */
  ghost predicate Inferred(f: Flags) {
    |f.used| == |f.useDelta| && forall j :: 0 <= j < |f.used| && f.used[j] ==> f.useDelta[j]
  }

  /** The fields are in the ranges the syntax allows for set `idx`, where `sizes` are
      the numbers of pictures of the sets before it. */
  ghost predicate InRange(c: Coded, idx: nat, sizes: seq<nat>, numSets: nat)
    requires idx <= |sizes|
  {
    match c
    case Explicit(rps) => |rps.s0| + |rps.s1| <= 15 && StepsInRange(rps.s0) && StepsInRange(rps.s1)
    case Inter(deltaIdxMinus1, sign, absMinus1, f) =>
      && deltaIdxMinus1 < idx
      && (idx != numSets ==> deltaIdxMinus1 == 0)
      && absMinus1 <= INT16_MAX
      && Inferred(f) && |f.used| == sizes[idx - (deltaIdxMinus1 + 1)] + 1
  }

  // ---- The syntax read at a position; the second result is the position after it ----

  type Read<T> = Option<(T, nat)>

  function UeAt(data: seq<bool>, pos: nat, rangeMin: nat, rangeMax: nat): (r: Read<nat>)
    requires pos <= |data|
    ensures r.Some? ==> pos < r.value.1 <= |data| && rangeMin <= r.value.0 <= rangeMax
  {
    var p := DecodeUe(data, pos);
    var value :- UeResult(p, rangeMin, rangeMax);
    Some((value, pos + p.used))
  }

  function BitAt(data: seq<bool>, pos: nat): (r: Read<bool>)
    ensures r.Some? ==> pos < r.value.1 <= |data|
  {
    if pos < |data| then Some((data[pos], pos + 1)) else None
  }

  function FlagsAt(data: seq<bool>, pos: nat, f: Flags, n: nat): (r: Read<Flags>)
    requires pos <= |data|
    ensures r.Some? ==> pos <= r.value.1 <= |data|
    decreases n
  {
    if n == 0 then Some((f, pos))
    else
      var (used, p0) :- BitAt(data, pos);
      var (use, p1) :- if used then Some((true, p0)) else BitAt(data, p0);
      FlagsAt(data, p1, Flags(f.used + [used], f.useDelta + [use]), n - 1)
  }

  function StepsAt(data: seq<bool>, pos: nat, steps: seq<Step>, n: nat): (r: Read<seq<Step>>)
    requires pos <= |data|
    ensures r.Some? ==> pos <= r.value.1 <= |data|
    decreases n
  {
    if n == 0 then Some((steps, pos))
    else
      var (minus1, p0) :- UeAt(data, pos, 0, INT16_MAX);
      var (used, p1) :- BitAt(data, p0);
      StepsAt(data, p1, steps + [Step(minus1, used)], n - 1)
  }

  function ExplicitAt(data: seq<bool>, pos: nat): (r: Read<Coded>)
    requires pos <= |data|
    ensures r.Some? ==> pos <= r.value.1 <= |data|
  {
    var (negatives, p0) :- UeAt(data, pos, 0, 15);
    var (positives, p1) :- UeAt(data, p0, 0, 15 - negatives);
    var (s0, p2) :- StepsAt(data, p1, [], negatives);
    var (s1, p3) :- StepsAt(data, p2, [], positives);
    Some((Explicit(Rps(s0, s1)), p3))
  }

  function DeltaIdxAt(data: seq<bool>, pos: nat, sent: bool, idx: nat): (r: Read<nat>)
    requires 0 < idx && pos <= |data|
    ensures r.Some? ==> r.value.0 <= idx - 1 && pos <= r.value.1 <= |data|
  {
    if sent then UeAt(data, pos, 0, idx - 1) else Some((0, pos))
  }

  function InterAt(data: seq<bool>, pos: nat, idx: nat, sizes: seq<nat>, numSets: nat): (r: Read<Coded>)
    requires 0 < idx <= |sizes| && pos <= |data|
    ensures r.Some? ==> pos <= r.value.1 <= |data|
  {
    var (deltaIdxMinus1, p0) :- DeltaIdxAt(data, pos, idx == numSets, idx);
    var (sign, p1) :- BitAt(data, p0);
    var (absMinus1, p2) :- UeAt(data, p1, 0, INT16_MAX);
    var (f, p3) :- FlagsAt(data, p2, Flags([], []), sizes[idx - (deltaIdxMinus1 + 1)] + 1);
    Some((Inter(deltaIdxMinus1, sign, absMinus1, f), p3))
  }

  function SetAt(data: seq<bool>, pos: nat, idx: nat, sizes: seq<nat>, numSets: nat): (r: Read<Coded>)
    requires idx <= |sizes| && pos <= |data|
    ensures r.Some? ==> pos <= r.value.1 <= |data|
  {
    if idx == 0 then ExplicitAt(data, pos)
    else
      var (inter, p0) :- BitAt(data, pos);
      if inter then InterAt(data, p0, idx, sizes, numSets) else ExplicitAt(data, p0)
  }

  // ---- Writing and then reading ----

  lemma {:induction false} AtConcat4(data: seq<bool>, pos: nat, a: seq<bool>, b: seq<bool>, c: seq<bool>, d: seq<bool>)
    ensures At(data, pos, a + b + c + d) <==>
      && At(data, pos, a) && At(data, pos + |a|, b)
      && At(data, pos + |a| + |b|, c) && At(data, pos + |a| + |b| + |c|, d)
  {
    AtConcat(data, pos, a + b + c, d);
    AtConcat(data, pos, a + b, c);
    AtConcat(data, pos, a, b);
  }

  lemma {:induction false} AtEmpty(data: seq<bool>, pos: nat)
    requires pos <= |data|
    ensures At(data, pos, [])
  {
  }

  lemma {:induction false} AtWithin(data: seq<bool>, pos: nat, code: seq<bool>)
    requires At(data, pos, code)
    ensures pos + |code| <= |data|
  {
  }

  lemma {:induction false} BitAtEncoded(data: seq<bool>, pos: nat, bit: bool)
    ensures At(data, pos, [bit]) <==> BitAt(data, pos) == Some((bit, pos + 1))
  {
  }

  lemma {:induction false} UeAtEncoded(data: seq<bool>, pos: nat, value: nat, rangeMin: nat, rangeMax: nat)
    requires value < UINT32_MAX && rangeMin <= value <= rangeMax && At(data, pos, EncodeUe(value))
    ensures UeAt(data, pos, rangeMin, rangeMax) == Some((value, pos + |EncodeUe(value)|))
  {
    UeRoundTrip(data, pos, value);
  }

  function Joined(a: Flags, b: Flags): Flags {
    Flags(a.used + b.used, a.useDelta + b.useDelta)
  }

  lemma {:induction false} JoinedHead(before: Flags, f: Flags)
    requires |f.used| == |f.useDelta| > 0
    ensures Joined(Flags(before.used + [f.used[0]], before.useDelta + [f.useDelta[0]]),
                   Flags(f.used[1..], f.useDelta[1..])) == Joined(before, f)
  {
    assert f.used == [f.used[0]] + f.used[1..] && f.useDelta == [f.useDelta[0]] + f.useDelta[1..];
  }

  /** The bits of one pair of flags. */
  function PairBits(used: bool, use: bool): seq<bool> {
    [used] + if used then [] else [use]
  }

  lemma {:induction false} EncodeFlagsStep(f: Flags)
    requires |f.used| == |f.useDelta| > 0
    ensures EncodeFlags(f) == PairBits(f.used[0], f.useDelta[0]) + EncodeFlags(Flags(f.used[1..], f.useDelta[1..]))
  {
  }

  lemma {:induction false} NoFlags(data: seq<bool>, pos: nat, before: Flags, f: Flags)
    requires pos <= |data| && |f.used| == |f.useDelta| == 0
    ensures EncodeFlags(f) == [] && Joined(before, f) == before && FlagsAt(data, pos, before, 0) == Some((before, pos))
  {
  }

  /** Reading a pair of flags whose bits stand at the position. */
  lemma {:induction false} PairAtEncoded(data: seq<bool>, pos: nat, before: Flags, n: nat, used: bool, use: bool)
    requires n > 0 && (used ==> use) && At(data, pos, PairBits(used, use))
    ensures pos + |PairBits(used, use)| <= |data|
    ensures FlagsAt(data, pos, before, n)
      == FlagsAt(data, pos + |PairBits(used, use)|, Flags(before.used + [used], before.useDelta + [use]), n - 1)
  {
    AtConcat(data, pos, [used], if used then [] else [use]);
    BitAtEncoded(data, pos, used);
    BitAtEncoded(data, pos + 1, use);
  }

  lemma {:induction false} FlagsAtEncoded(data: seq<bool>, pos: nat, before: Flags, f: Flags)
    requires pos <= |data| && Inferred(f) && At(data, pos, EncodeFlags(f))
    ensures FlagsAt(data, pos, before, |f.used|) == Some((Joined(before, f), pos + |EncodeFlags(f)|))
    decreases |f.used|
  {
    hide EncodeFlags, At, FlagsAt, PairBits, Joined;
    if |f.used| == 0 {
      NoFlags(data, pos, before, f);
    } else {
      var tail, pair := Flags(f.used[1..], f.useDelta[1..]), PairBits(f.used[0], f.useDelta[0]);
      EncodeFlagsStep(f);
      AtConcat(data, pos, pair, EncodeFlags(tail));
      PairAtEncoded(data, pos, before, |f.used|, f.used[0], f.useDelta[0]);
      var next := Flags(before.used + [f.used[0]], before.useDelta + [f.useDelta[0]]);
      FlagsAtEncoded(data, pos + |pair|, next, tail);
      JoinedHead(before, f);
    }
  }

  lemma {:induction false} StepsAtEncoded(data: seq<bool>, pos: nat, before: seq<Step>, steps: seq<Step>)
    requires StepsInRange(steps) && At(data, pos, EncodeSteps(steps))
    ensures StepsAt(data, pos, before, |steps|) == Some((before + steps, pos + |EncodeSteps(steps)|))
    decreases |steps|
  {
    hide EncodeUe, DecodeUe, UeAt, At;
    if |steps| == 0 {
      assert before + steps == before;
    } else {
      var ue := EncodeUe(steps[0].minus1);
      AtConcat(data, pos, ue + [steps[0].used], EncodeSteps(steps[1..]));
      AtConcat(data, pos, ue, [steps[0].used]);
      UeAtEncoded(data, pos, steps[0].minus1, 0, INT16_MAX);
      BitAtEncoded(data, pos + |ue|, steps[0].used);
      StepsAtEncoded(data, pos + |ue| + 1, before + [steps[0]], steps[1..]);
      assert before + [steps[0]] + steps[1..] == before + steps;
    }
  }

  lemma {:induction false} ExplicitAtEncoded(data: seq<bool>, pos: nat, rps: Rps)
    requires |rps.s0| + |rps.s1| <= 15 && StepsInRange(rps.s0) && StepsInRange(rps.s1)
    requires At(data, pos, Body(Explicit(rps), false))
    ensures ExplicitAt(data, pos) == Some((Explicit(rps), pos + |Body(Explicit(rps), false)|))
  {
    hide EncodeUe, DecodeUe, UeAt, At, EncodeSteps, StepsAt;
    var c0, c1, c2, c3 := EncodeUe(|rps.s0|), EncodeUe(|rps.s1|), EncodeSteps(rps.s0), EncodeSteps(rps.s1);
    AtConcat4(data, pos, c0, c1, c2, c3);
    UeAtEncoded(data, pos, |rps.s0|, 0, 15);
    UeAtEncoded(data, pos + |c0|, |rps.s1|, 0, 15 - |rps.s0|);
    StepsAtEncoded(data, pos + |c0| + |c1|, [], rps.s0);
    StepsAtEncoded(data, pos + |c0| + |c1| + |c2|, [], rps.s1);
    assert [] + rps.s0 == rps.s0 && [] + rps.s1 == rps.s1;
  }

  lemma {:induction false} InterAtEncoded(data: seq<bool>, pos: nat, c: Coded, idx: nat, sizes: seq<nat>, numSets: nat)
    requires 0 < idx <= |sizes| && idx <= HEVC_MAX_SHORT_TERM_REF_PIC_SETS
    requires c.Inter? && InRange(c, idx, sizes, numSets) && At(data, pos, Body(c, idx == numSets))
    ensures InterAt(data, pos, idx, sizes, numSets) == Some((c, pos + |Body(c, idx == numSets)|))
  {
    hide EncodeUe, DecodeUe, UeAt, At, EncodeFlags, FlagsAt, Joined, DeltaIdxAt, BitAt;
    var c0 := if idx == numSets then EncodeUe(c.deltaIdxMinus1) else [];
    var c2, c3 := EncodeUe(c.absMinus1), EncodeFlags(c.f);
    AtConcat4(data, pos, c0, [c.sign], c2, c3);
    AtWithin(data, pos, c0);
    DeltaIdxAtEncoded(data, pos, c.deltaIdxMinus1, idx == numSets, idx);
    BitAtEncoded(data, pos + |c0|, c.sign);
    UeAtEncoded(data, pos + |c0| + 1, c.absMinus1, 0, INT16_MAX);
    FlagsAtEncoded(data, pos + |c0| + 1 + |c2|, Flags([], []), c.f);
    JoinedNone(c.f);
  }

  lemma {:induction false} JoinedNone(f: Flags)
    ensures Joined(Flags([], []), f) == f
  {
  }

  lemma {:induction false} DeltaIdxAtEncoded(data: seq<bool>, pos: nat, value: nat, sent: bool, idx: nat)
    requires pos <= |data| && value < idx <= HEVC_MAX_SHORT_TERM_REF_PIC_SETS && (!sent ==> value == 0)
    requires At(data, pos, if sent then EncodeUe(value) else [])
    ensures DeltaIdxAt(data, pos, sent, idx) == Some((value, pos + if sent then |EncodeUe(value)| else 0))
  {
    hide EncodeUe, UeAt, At;
    if sent {
      UeAtEncoded(data, pos, value, 0, idx - 1);
    }
  }

  /** A set in range is read back as it was, wherever it stands and whatever follows it. */
  lemma {:induction false} SetRoundTrip(data: seq<bool>, pos: nat, c: Coded, idx: nat, sizes: seq<nat>, numSets: nat)
    requires idx <= |sizes| && idx <= HEVC_MAX_SHORT_TERM_REF_PIC_SETS
    requires InRange(c, idx, sizes, numSets) && At(data, pos, EncodeSet(c, idx, numSets))
    ensures SetAt(data, pos, idx, sizes, numSets) == Some((c, pos + |EncodeSet(c, idx, numSets)|))
  {
    hide EncodeUe, DecodeUe, UeAt, At, InterAt, ExplicitAt, EncodeFlags, EncodeSteps, Body;
    var flag := if idx != 0 then [c.Inter?] else [];
    AtConcat(data, pos, flag, Body(c, idx == numSets));
    BitAtEncoded(data, pos, c.Inter?);
    if c.Inter? {
      InterAtEncoded(data, pos + 1, c, idx, sizes, numSets);
    } else {
      ExplicitBody(c, idx == numSets);
      ExplicitAtEncoded(data, pos + |flag|, c.rps);
    }
  }

  /** An explicit set has no index to send. */
  lemma {:induction false} ExplicitBody(c: Coded, sendIdx: bool)
    requires c.Explicit? && Codable(c.rps.s0) && Codable(c.rps.s1)
    ensures Body(c, sendIdx) == Body(Explicit(c.rps), false)
  {
  }

  // ---- Reading and then writing ----

  /** The code stands at the position and ends at `end`. */
  ghost predicate Spans(data: seq<bool>, pos: nat, code: seq<bool>, end: nat) {
    At(data, pos, code) && end == pos + |code|
  }

  lemma {:induction false} UeAtCanonical(data: seq<bool>, pos: nat, rangeMin: nat, rangeMax: nat, value: nat, end: nat)
    requires pos <= |data| && UeAt(data, pos, rangeMin, rangeMax) == Some((value, end))
    ensures value < UINT32_MAX && Spans(data, pos, EncodeUe(value), end)
  {
    UeCanonical(data, pos);
  }

  /** The first pair of flags that is read. */
  lemma {:induction false} PairAtCanonical(data: seq<bool>, pos: nat, before: Flags, n: nat)
      returns (used: bool, use: bool)
    requires pos <= |data| && n > 0 && FlagsAt(data, pos, before, n).Some?
    ensures (used ==> use) && At(data, pos, PairBits(used, use)) && pos + |PairBits(used, use)| <= |data|
  {
    used := data[pos];
    use := used || data[pos + 1];
    BitAtEncoded(data, pos, used);
    BitAtEncoded(data, pos + 1, use);
    AtConcat(data, pos, [used], if used then [] else [use]);
    AtEmpty(data, pos + 1);
  }

  lemma {:induction false} InferredCons(f: Flags, used: bool, use: bool, tail: Flags)
    requires Inferred(tail) && (used ==> use) && f == Flags([used] + tail.used, [use] + tail.useDelta)
    ensures Inferred(f)
  {
  }

  lemma {:induction false} FlagsAtCanonical(data: seq<bool>, pos: nat, before: Flags, n: nat, r: Flags, end: nat)
    returns (f: Flags)
    requires pos <= |data| && FlagsAt(data, pos, before, n) == Some((r, end))
    ensures Inferred(f) && |f.used| == n && r == Joined(before, f) && Spans(data, pos, EncodeFlags(f), end)
    decreases n
  {
    hide EncodeFlags, At, FlagsAt, PairBits, Joined;
    if n == 0 {
      f := Flags([], []);
      NoFlags(data, pos, before, f);
      AtEmpty(data, pos);
    } else {
      var used, use := PairAtCanonical(data, pos, before, n);
      PairAtEncoded(data, pos, before, n, used, use);
      var next := Flags(before.used + [used], before.useDelta + [use]);
      var tail := FlagsAtCanonical(data, pos + |PairBits(used, use)|, next, n - 1, r, end);
      f := Flags([used] + tail.used, [use] + tail.useDelta);
      assert Flags(f.used[1..], f.useDelta[1..]) == tail;
      JoinedHead(before, f);
      EncodeFlagsStep(f);
      InferredCons(f, used, use, tail);
      AtConcat(data, pos, PairBits(used, use), EncodeFlags(tail));
    }
  }

  lemma {:induction false} StepsAtCanonical(data: seq<bool>, pos: nat, before: seq<Step>, n: nat, r: seq<Step>,
                                            end: nat)
    returns (steps: seq<Step>)
    requires pos <= |data| && StepsAt(data, pos, before, n) == Some((r, end))
    ensures StepsInRange(steps) && |steps| == n && r == before + steps && Spans(data, pos, EncodeSteps(steps), end)
    decreases n
  {
    hide EncodeUe, DecodeUe, UeAt, At;
    if n == 0 {
      steps := [];
      AtEmpty(data, pos);
      assert before + steps == before;
    } else {
      var (minus1, p0) := UeAt(data, pos, 0, INT16_MAX).value;
      UeAtCanonical(data, pos, 0, INT16_MAX, minus1, p0);
      var step := Step(minus1, data[p0]);
      var tail := StepsAtCanonical(data, p0 + 1, before + [step], n - 1, r, end);
      steps := [step] + tail;
      assert before + [step] + tail == before + steps && steps[1..] == tail;
      BitAtEncoded(data, p0, step.used);
      AtConcat(data, pos, EncodeUe(minus1), [step.used]);
      AtConcat(data, pos, EncodeUe(minus1) + [step.used], EncodeSteps(tail));
    }
  }

  lemma {:induction false} ExplicitAtCanonical(data: seq<bool>, pos: nat, c: Coded, end: nat)
    requires pos <= |data| && ExplicitAt(data, pos) == Some((c, end))
    ensures c.Explicit? && |c.rps.s0| + |c.rps.s1| <= 15 && StepsInRange(c.rps.s0) && StepsInRange(c.rps.s1)
    ensures Spans(data, pos, Body(c, false), end)
  {
    hide EncodeUe, DecodeUe, UeAt, At, EncodeSteps, StepsAt;
    var (negatives, p0) := UeAt(data, pos, 0, 15).value;
    UeAtCanonical(data, pos, 0, 15, negatives, p0);
    var (positives, p1) := UeAt(data, p0, 0, 15 - negatives).value;
    UeAtCanonical(data, p0, 0, 15 - negatives, positives, p1);
    var (r0, p2) := StepsAt(data, p1, [], negatives).value;
    var s0 := StepsAtCanonical(data, p1, [], negatives, r0, p2);
    var s1 := StepsAtCanonical(data, p2, [], positives, c.rps.s1, end);
    assert [] + s0 == s0 && [] + s1 == s1;
    AtConcat4(data, pos, EncodeUe(negatives), EncodeUe(positives), EncodeSteps(s0), EncodeSteps(s1));
  }

  lemma {:induction false} InterAtCanonical(data: seq<bool>, pos: nat, idx: nat, sizes: seq<nat>, numSets: nat,
                                            c: Coded, end: nat)
    requires 0 < idx <= |sizes| && pos <= |data| && InterAt(data, pos, idx, sizes, numSets) == Some((c, end))
    ensures c.Inter? && InRange(c, idx, sizes, numSets) && Spans(data, pos, Body(c, idx == numSets), end)
  {
    hide EncodeUe, DecodeUe, UeAt, At, EncodeFlags, FlagsAt;
    var (deltaIdxMinus1, p0) := DeltaIdxAt(data, pos, idx == numSets, idx).value;
    var c0 := if idx == numSets then EncodeUe(deltaIdxMinus1) else [];
    if idx == numSets {
      UeAtCanonical(data, pos, 0, idx - 1, deltaIdxMinus1, p0);
    }
    BitAtEncoded(data, p0, c.sign);
    var (absMinus1, p2) := UeAt(data, p0 + 1, 0, INT16_MAX).value;
    UeAtCanonical(data, p0 + 1, 0, INT16_MAX, absMinus1, p2);
    var f := FlagsAtCanonical(data, p2, Flags([], []), sizes[idx - (deltaIdxMinus1 + 1)] + 1, c.f, end);
    assert Joined(Flags([], []), f) == f;
    AtEmpty(data, pos);
    AtConcat4(data, pos, c0, [c.sign], EncodeUe(absMinus1), EncodeFlags(f));
  }

  /** The reader accepts exactly the writer's output: whatever is read is in range, and
      writing it again gives the bits that were read. */
  lemma {:induction false} SetCanonical(data: seq<bool>, pos: nat, idx: nat, sizes: seq<nat>, numSets: nat, c: Coded,
                                        end: nat)
    requires idx <= |sizes| && pos <= |data| && SetAt(data, pos, idx, sizes, numSets) == Some((c, end))
    ensures InRange(c, idx, sizes, numSets) && Spans(data, pos, EncodeSet(c, idx, numSets), end)
  {
    hide EncodeUe, DecodeUe, UeAt, At;
    if idx == 0 {
      ExplicitAtCanonical(data, pos, c, end);
      assert EncodeSet(c, idx, numSets) == Body(c, false);
    } else {
      if data[pos] {
        InterAtCanonical(data, pos + 1, idx, sizes, numSets, c, end);
      } else {
        ExplicitAtCanonical(data, pos + 1, c, end);
      }
      BitAtEncoded(data, pos, c.Inter?);
      AtConcat(data, pos, [c.Inter?], Body(c, idx == numSets));
    }
  }
}
