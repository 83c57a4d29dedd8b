// The READ and WRITE expansions of st_ref_pic_set, and the SPS loop that calls them.

module RefPicSetCodec {
  import opened Wrappers
  import opened Bits
  import opened Golomb
  import opened RefPicSet
  import opened RefPicSetSyntax

  /** H265RawSTRefPicSet: what is sent, and the delta-step form kept for later sets. */
  datatype Stored = Stored(coded: Coded, rps: Rps)

  ghost predicate AllWellFormed(sets: seq<Rps>) {
    forall i :: 0 <= i < |sets| ==> sets[i].WellFormed()
  }

  function Sizes(sets: seq<Rps>): (sizes: seq<nat>)
    ensures |sizes| == |sets| && forall i :: 0 <= i < |sets| ==> sizes[i] == sets[i].Size()
  {
    seq(|sets|, i requires 0 <= i < |sets| => sets[i].Size())
  }

  function DeltaRps(sign: bool, absMinus1: nat): int {
    (1 - 2 * (if sign then 1 else 0)) * (absMinus1 + 1)
  }

  /** The delta-step form of what was sent; a prediction from too many pictures is an
      invalid stream. */
  function Resolve(c: Coded, idx: nat, sets: seq<Rps>): Option<Rps>
    requires idx <= |sets|
    requires c.Inter? ==> c.deltaIdxMinus1 < idx
    requires c.Inter? ==> |c.f.used| == |c.f.useDelta| == sets[idx - (c.deltaIdxMinus1 + 1)].Size() + 1
  {
    match c
    case Explicit(rps) => Some(rps)
    case Inter(deltaIdxMinus1, sign, absMinus1, f) =>
      if CountTrue(f.useDelta) >= HEVC_MAX_DPB_SIZE then None
      else Some(Predict(sets[idx - (deltaIdxMinus1 + 1)], DeltaRps(sign, absMinus1), f))
  }

  /** A set can be referred to by later ones: fewer pictures than the decoded picture
      buffer holds, and steps of at least one. */
  lemma {:induction false} ResolveWellFormed(c: Coded, idx: nat, sets: seq<Rps>, numSets: nat)
    requires idx <= |sets| && AllWellFormed(sets) && InRange(c, idx, Sizes(sets), numSets)
    ensures Resolve(c, idx, sets).Some? ==> Resolve(c, idx, sets).value.WellFormed()
  {
    if c.Inter? {
      var ref := sets[idx - (c.deltaIdxMinus1 + 1)];
      PredictSize(ref, DeltaRps(c.sign, c.absMinus1), c.f);
      PredictSides(ref, DeltaRps(c.sign, c.absMinus1), c.f);
    }
  }

  /** The form the READ expansion keeps: a predicted step loses what its field cannot hold.
      The steps of an explicit set are in range. */
  function Kept(c: Coded, idx: nat, sets: seq<Rps>): Option<Rps>
    requires idx <= |sets|
    requires c.Inter? ==> c.deltaIdxMinus1 < idx
    requires c.Inter? ==> |c.f.used| == |c.f.useDelta| == sets[idx - (c.deltaIdxMinus1 + 1)].Size() + 1
  {
    var rps :- Resolve(c, idx, sets);
    Some(if c.Inter? then Narrowed(rps) else rps)
  }

  lemma {:induction false} KeptWellFormed(c: Coded, idx: nat, sets: seq<Rps>, numSets: nat)
    requires idx <= |sets| && AllWellFormed(sets) && InRange(c, idx, Sizes(sets), numSets)
    ensures Kept(c, idx, sets).Some? ==> Kept(c, idx, sets).value.WellFormed()
  {
    hide Resolve, InRange;
    InRangeRefers(c, idx, sets, numSets);
    ResolveWellFormed(c, idx, sets, numSets);
  }

  /** What is kept is what was meant exactly when the pictures of a predicted set are close. */
  lemma {:induction false} KeptIff(c: Coded, idx: nat, sets: seq<Rps>, numSets: nat)
    requires idx <= |sets| && AllWellFormed(sets) && InRange(c, idx, Sizes(sets), numSets)
    requires Refers(c, idx, sets)
    requires Resolve(c, idx, sets).Some?
    ensures Kept(c, idx, sets) == Resolve(c, idx, sets)
      <==> c.Inter? ==> var rps := Resolve(c, idx, sets).value; Close(Negatives(rps)) && Close(Positives(rps))
  {
    hide InRange, Predict, Walk, Negatives, Positives, Narrowed;
    if c.Inter? {
      NarrowedIff(sets[idx - (c.deltaIdxMinus1 + 1)], DeltaRps(c.sign, c.absMinus1), c.f);
    }
  }

  /** A predicted set refers to an earlier one and has flags for it. */
  ghost predicate Refers(c: Coded, idx: nat, sets: seq<Rps>)
    requires idx <= |sets|
  {
    c.Inter? ==> c.deltaIdxMinus1 < idx && FlagsFor(sets[idx - (c.deltaIdxMinus1 + 1)], c.f)
  }

  lemma {:induction false} InRangeRefers(c: Coded, idx: nat, sets: seq<Rps>, numSets: nat)
    requires idx <= |sets| && InRange(c, idx, Sizes(sets), numSets)
    ensures Refers(c, idx, sets)
  {
  }

  // ---- What the fields of a predicted set mean ----

  /** A nonzero delta, moved by abs_delta_rps_minus1 + 1 in the direction of the sign from 0
      or from a delta of the reference set, where the flag of that delta is set. */
  ghost predicate MovedPic(ref: Rps, c: Coded, pic: Pic)
    requires c.Inter? && FlagsFor(ref, c.f)
  {
    exists j :: 0 <= j <= ref.Size()
      && MovedFrom(RefDelta(ref, j), c.sign, c.absMinus1, c.f.useDelta[j], c.f.used[j], pic)
  }

  ghost predicate MovedFrom(d: int, sign: bool, absMinus1: nat, useDelta: bool, used: bool, pic: Pic) {
    && useDelta && pic.used == used && pic.delta != 0
    && pic.delta == if sign then d - (absMinus1 + 1) else d + (absMinus1 + 1)
  }

  /** The meaning of a set: an explicit one is what was sent; a predicted one needs fewer
      flags set than the picture buffer holds, and has exactly the moved pictures. */
  ghost predicate Means(c: Coded, idx: nat, sets: seq<Rps>, rps: Option<Rps>)
    requires idx <= |sets|
    requires Refers(c, idx, sets)
  {
    match c
    case Explicit(sent) => rps == Some(sent)
    case Inter(deltaIdxMinus1, _, _, f) =>
      var ref := sets[idx - (deltaIdxMinus1 + 1)];
      && (rps.Some? <==> |TrueAt(f.useDelta)| < 16)
      && (rps.Some? ==> forall pic: Pic ::
          pic in Negatives(rps.value) || pic in Positives(rps.value) <==> MovedPic(ref, c, pic))
  }

  lemma {:induction false} PredictsMoved(ref: Rps, c: Coded, j: nat, pic: Pic)
    requires c.Inter? && FlagsFor(ref, c.f) && j <= ref.Size()
    ensures Predicts(ref, DeltaRps(c.sign, c.absMinus1), c.f, j)
        && pic == PicAt(ref, DeltaRps(c.sign, c.absMinus1), c.f, j)
      <==> MovedFrom(RefDelta(ref, j), c.sign, c.absMinus1, c.f.useDelta[j], c.f.used[j], pic)
  {
    hide RefDelta;
  }

  /** What is resolved is what the fields mean. */
  lemma {:induction false} ResolveMeaning(c: Coded, idx: nat, sets: seq<Rps>)
    requires idx <= |sets|
    requires Refers(c, idx, sets)
    ensures Means(c, idx, sets, Resolve(c, idx, sets))
  {
    hide Predict, Negatives, Positives, RefDelta, Predicts, PicAt, MovedFrom, CountTrue, TrueAt, DeltaRps;
    if c.Inter? {
      var ref := sets[idx - (c.deltaIdxMinus1 + 1)];
      CountTrueIsCard(c.f.useDelta);
      forall pic: Pic
        ensures PredictedPic(ref, DeltaRps(c.sign, c.absMinus1), c.f, pic) <==> MovedPic(ref, c, pic)
      {
        forall j | 0 <= j <= ref.Size()
          ensures Predicts(ref, DeltaRps(c.sign, c.absMinus1), c.f, j)
              && pic == PicAt(ref, DeltaRps(c.sign, c.absMinus1), c.f, j)
            <==> MovedFrom(RefDelta(ref, j), c.sign, c.absMinus1, c.f.useDelta[j], c.f.used[j], pic)
        {
          PredictsMoved(ref, c, j, pic);
        }
      }
      forall pic: Pic
        ensures var p := Predict(ref, DeltaRps(c.sign, c.absMinus1), c.f);
          pic in Negatives(p) || pic in Positives(p) <==> MovedPic(ref, c, pic)
      {
        PredictMeaning(ref, DeltaRps(c.sign, c.absMinus1), c.f, pic);
      }
    }
  }

  /** What the writer accepts as set `idx`: fields in range and the very delta steps
      that the prediction gives. */
  ghost predicate Accepted(s: Stored, idx: nat, sets: seq<Rps>, numSets: nat)
    requires idx <= |sets|
  {
    InRange(s.coded, idx, Sizes(sets), numSets) && Resolve(s.coded, idx, sets) == Some(s.rps)
  }

  /** A predicted set that is read refers to an earlier one. */
  lemma {:induction false} ReadRefers(data: seq<bool>, pos: nat, idx: nat, sets: seq<Rps>, numSets: nat, c: Coded,
                                      end: nat)
    requires idx <= |sets| && pos <= |data| && SetAt(data, pos, idx, Sizes(sets), numSets) == Some((c, end))
    ensures InRange(c, idx, Sizes(sets), numSets)
    ensures Refers(c, idx, sets)
  {
    hide SetAt, InRange;
    SetCanonical(data, pos, idx, Sizes(sets), numSets, c, end);
    InRangeRefers(c, idx, sets, numSets);
  }

  ghost function StoredAt(data: seq<bool>, pos: nat, idx: nat, sets: seq<Rps>, numSets: nat): Read<Stored>
    requires idx <= |sets| && pos <= |data|
  {
    var (c, end) :- SetAt(data, pos, idx, Sizes(sets), numSets);
    ReadRefers(data, pos, idx, sets, numSets, c, end);
    var rps :- Kept(c, idx, sets);
    Some((Stored(c, rps), end))
  }

  /** What the reader can give back as set `idx`: fields in range and the steps it keeps. */
  ghost predicate Readable(s: Stored, idx: nat, sets: seq<Rps>, numSets: nat)
    requires idx <= |sets|
  {
    InRange(s.coded, idx, Sizes(sets), numSets) && Kept(s.coded, idx, sets) == Some(s.rps)
  }

  /** A set read is a set the writer accepts exactly when the pictures of its prediction are
      close. */
  lemma {:induction false} ReadableAccepted(s: Stored, idx: nat, sets: seq<Rps>, numSets: nat)
    requires idx <= |sets| && AllWellFormed(sets) && Readable(s, idx, sets, numSets)
    requires Refers(s.coded, idx, sets)
    ensures Accepted(s, idx, sets, numSets) <==>
      s.coded.Inter? ==> var rps := Resolve(s.coded, idx, sets).value; Close(Negatives(rps)) && Close(Positives(rps))
  {
    hide InRange, Resolve, Close, Negatives, Positives;
    KeptIff(s.coded, idx, sets, numSets);
  }

  /** The writer accepts exactly the sets in range whose steps are at least one and whose
      pictures are those the fields mean. */
  lemma {:induction false} AcceptedIff(s: Stored, idx: nat, sets: seq<Rps>, numSets: nat)
    requires idx <= |sets| && AllWellFormed(sets)
    requires Refers(s.coded, idx, sets)
    ensures Accepted(s, idx, sets, numSets) <==>
      && InRange(s.coded, idx, Sizes(sets), numSets)
      && s.rps.StepsForward() && Means(s.coded, idx, sets, Some(s.rps))
  {
    hide Resolve, Negatives, Positives, MovedPic, RefDelta;
    var c := s.coded;
    ResolveMeaning(c, idx, sets);
    if InRange(c, idx, Sizes(sets), numSets) {
      ResolveWellFormed(c, idx, sets, numSets);
      if Means(c, idx, sets, Some(s.rps)) && s.rps.StepsForward() {
        MeansOne(c, idx, sets, s.rps, Resolve(c, idx, sets));
      }
    }
  }

  /** The fields mean one set at most. */
  lemma {:induction false} MeansOne(c: Coded, idx: nat, sets: seq<Rps>, a: Rps, b: Option<Rps>)
    requires idx <= |sets|
    requires Refers(c, idx, sets)
    requires Means(c, idx, sets, Some(a)) && Means(c, idx, sets, b)
    requires a.StepsForward() && (b.Some? ==> b.value.StepsForward())
    ensures b == Some(a)
  {
    hide Negatives, Positives, MovedPic, TrueAt, Rps.StepsForward;
    if c.Inter? {
      PicturesDetermine(a, b.value);
    }
  }

  /** The steps that 16-bit fields keep of others. */
  ghost predicate StepsKept(kept: seq<Step>, meant: seq<Step>) {
    && |kept| == |meant|
    && forall i :: 0 <= i < |kept| ==>
      && kept[i].used == meant[i].used
      && 0 <= kept[i].minus1 < 0x1_0000 && (meant[i].minus1 - kept[i].minus1) % 0x1_0000 == 0
  }

  ghost predicate KeptFrom(rps: Rps, meant: Rps) {
    meant.StepsForward() && StepsKept(rps.s0, meant.s0) && StepsKept(rps.s1, meant.s1)
  }

  /** What a set that was read is: the set its fields mean, in steps of 16 bits. */
  ghost predicate ReadMeans(s: Stored, idx: nat, sets: seq<Rps>)
    requires idx <= |sets|
  {
    Refers(s.coded, idx, sets) && exists meant: Rps :: KeptFrom(s.rps, meant) && Means(s.coded, idx, sets, Some(meant))
  }

  lemma {:induction false} KeptMeaning(s: Stored, idx: nat, sets: seq<Rps>, numSets: nat)
    requires idx <= |sets| && AllWellFormed(sets) && Readable(s, idx, sets, numSets)
    requires Refers(s.coded, idx, sets)
    ensures ReadMeans(s, idx, sets)
  {
    hide Resolve, Means;
    var meant := Resolve(s.coded, idx, sets).value;
    ResolveMeaning(s.coded, idx, sets);
    ResolveWellFormed(s.coded, idx, sets, numSets);
    assert s.rps == if s.coded.Inter? then Narrowed(meant) else meant;
    if s.coded.Explicit? {
      SentInRange(s.coded, idx, sets, numSets);
    }
    assert KeptFrom(s.rps, meant);
  }

  /** A set read means what its fields say. */
  lemma {:induction false} StoredMeaning(data: seq<bool>, pos: nat, s: Stored, idx: nat, sets: seq<Rps>, numSets: nat,
                                         end: nat)
    requires idx <= |sets| && pos <= |data| && AllWellFormed(sets)
    requires StoredAt(data, pos, idx, sets, numSets) == Some((s, end))
    ensures ReadMeans(s, idx, sets)
  {
    hide SetAt, Kept, ReadMeans;
    ReadRefers(data, pos, idx, sets, numSets, s.coded, end);
    KeptMeaning(s, idx, sets, numSets);
  }

  lemma {:induction false} SentInRange(c: Coded, idx: nat, sets: seq<Rps>, numSets: nat)
    requires idx <= |sets| && c.Explicit? && InRange(c, idx, Sizes(sets), numSets)
    ensures Resolve(c, idx, sets) == Some(c.rps) && StepsKept(c.rps.s0, c.rps.s0) && StepsKept(c.rps.s1, c.rps.s1)
  {
  }

  /** Reading gives back a set exactly when its encoding stands there and the reader keeps
      it so; the writer accepts such a set under the condition of ReadableAccepted. */
  lemma {:induction false} StoredRoundTrip(data: seq<bool>, pos: nat, s: Stored, idx: nat, sets: seq<Rps>, numSets: nat,
                                           end: nat)
    requires idx <= |sets| && idx <= HEVC_MAX_SHORT_TERM_REF_PIC_SETS && pos <= |data|
    ensures StoredAt(data, pos, idx, sets, numSets) == Some((s, end))
      <==> Readable(s, idx, sets, numSets) && Spans(data, pos, EncodeSet(s.coded, idx, numSets), end)
  {
    hide SetAt, At, EncodeSet, Predict, Narrowed;
    if Readable(s, idx, sets, numSets) && Spans(data, pos, EncodeSet(s.coded, idx, numSets), end) {
      SetRoundTrip(data, pos, s.coded, idx, Sizes(sets), numSets);
    }
    if StoredAt(data, pos, idx, sets, numSets) == Some((s, end)) {
      SetCanonical(data, pos, idx, Sizes(sets), numSets, s.coded, end);
    }
  }

  // ---- READ ----

  /** A result and the reader's position agree with a spec-side read. */
  ghost predicate Agrees<T>(r: BitReader, result: Option<T>, spec: Read<T>)
    reads r
  {
    r.Valid() && match spec case None => result == None case Some((v, end)) => result == Some(v) && r.pos == end
  }

  method ReadValue(r: BitReader, rangeMin: nat, rangeMax: nat) returns (value: Option<nat>)
    requires r.Valid()
    modifies r
    ensures Agrees(r, value, UeAt(r.data, old(r.pos), rangeMin, rangeMax))
  {
    value := ReadUe(r, rangeMin, rangeMax);
  }

  method ReadBit(r: BitReader) returns (bit: Option<bool>)
    requires r.Valid()
    modifies r
    ensures Agrees(r, bit, BitAt(r.data, old(r.pos)))
  {
    if r.Left() < 1 {
      return None;
    }
    var b := r.Get1();
    return Some(b);
  }

  method ReadFlags(r: BitReader, n: nat) returns (f: Option<Flags>)
    requires r.Valid()
    modifies r
    ensures Agrees(r, f, FlagsAt(r.data, old(r.pos), Flags([], []), n))
  {
    var used: seq<bool>, useDelta: seq<bool> := [], [];
    ghost var spec := FlagsAt(r.data, r.pos, Flags([], []), n);
    for j := 0 to n
      invariant r.Valid()
      invariant spec == FlagsAt(r.data, r.pos, Flags(used, useDelta), n - j)
    {
      var u :- ReadBit(r);
      var d := true;
      if !u {
        d :- ReadBit(r);
      }
      used, useDelta := used + [u], useDelta + [d];
    }
    return Some(Flags(used, useDelta));
  }

  method ReadSteps(r: BitReader, n: nat) returns (steps: Option<seq<Step>>)
    requires r.Valid()
    modifies r
    ensures Agrees(r, steps, StepsAt(r.data, old(r.pos), [], n))
  {
    var acc: seq<Step> := [];
    ghost var spec := StepsAt(r.data, r.pos, [], n);
    for i := 0 to n
      invariant r.Valid()
      invariant spec == StepsAt(r.data, r.pos, acc, n - i)
    {
      var minus1 :- ReadValue(r, 0, INT16_MAX);
      var used :- ReadBit(r);
      acc := acc + [Step(minus1, used)];
    }
    return Some(acc);
  }

  method ReadExplicit(r: BitReader) returns (c: Option<Coded>)
    requires r.Valid()
    modifies r
    ensures Agrees(r, c, ExplicitAt(r.data, old(r.pos)))
  {
    hide UeAt, StepsAt;
    var negatives :- ReadValue(r, 0, 15);
    var positives :- ReadValue(r, 0, 15 - negatives);
    var s0 :- ReadSteps(r, negatives);
    var s1 :- ReadSteps(r, positives);
    return Some(Explicit(Rps(s0, s1)));
  }

  /** The elements of a predicted set. */
  method ReadInter(r: BitReader, idx: nat, sets: seq<Rps>, numSets: nat) returns (c: Option<Coded>)
    requires r.Valid() && 0 < idx <= |sets| && AllWellFormed(sets)
    modifies r
    ensures Agrees(r, c, InterAt(r.data, old(r.pos), idx, Sizes(sets), numSets))
  {
    hide UeAt, FlagsAt;
    var deltaIdxMinus1 := 0;
    if idx == numSets {
      deltaIdxMinus1 :- ReadValue(r, 0, idx - 1);
    }
    var ref := sets[idx - (deltaIdxMinus1 + 1)];
    // av_assert0(num_delta_pocs < HEVC_MAX_DPB_SIZE)
    assert ref.Size() < HEVC_MAX_DPB_SIZE;
    var sign :- ReadBit(r);
    var absMinus1 :- ReadValue(r, 0, INT16_MAX);
    var f :- ReadFlags(r, ref.Size() + 1);
    return Some(Inter(deltaIdxMinus1, sign, absMinus1, f));
  }

  /** num_ref_pics */
  method CountFlags(useDelta: seq<bool>) returns (n: nat)
    ensures n == CountTrue(useDelta)
  {
    n := 0;
    for j := 0 to |useDelta|
      invariant n == CountTrue(useDelta[..j])
    {
      assert useDelta[..j + 1][..j] == useDelta[..j];
      if useDelta[j] {
        n := n + 1;
      }
    }
    assert useDelta[..|useDelta|] == useDelta;
  }

  /** The check on the number of pictures, and the prediction. */
  method Derive(c: Coded, idx: nat, sets: seq<Rps>) returns (rps: Option<Rps>)
    requires idx <= |sets| && AllWellFormed(sets)
    requires Refers(c, idx, sets)
    ensures rps == Resolve(c, idx, sets)
  {
    if c.Explicit? {
      return Some(c.rps);
    }
    var n := CountFlags(c.f.useDelta);
    if n >= HEVC_MAX_DPB_SIZE {
      return None;
    }
    var ref := sets[idx - (c.deltaIdxMinus1 + 1)];
    var derived := PredictSet(ref, DeltaRps(c.sign, c.absMinus1), c.f);
    return Some(derived);
  }

  method ReadCoded(r: BitReader, idx: nat, sets: seq<Rps>, numSets: nat) returns (c: Option<Coded>)
    requires r.Valid() && idx <= |sets| && AllWellFormed(sets)
    modifies r
    ensures Agrees(r, c, SetAt(r.data, old(r.pos), idx, Sizes(sets), numSets))
  {
    hide InterAt, ExplicitAt;
    var inter := false;
    if idx != 0 {
      inter :- ReadBit(r);
    }
    if inter {
      c := ReadInter(r, idx, sets, numSets);
    } else {
      c := ReadExplicit(r);
    }
  }

  /** The READ expansion of st_ref_pic_set. */
  method ReadSet(r: BitReader, idx: nat, sets: seq<Rps>, numSets: nat) returns (s: Option<Stored>)
    requires r.Valid() && idx <= |sets| && AllWellFormed(sets)
    modifies r
    ensures Agrees(r, s, StoredAt(r.data, old(r.pos), idx, sets, numSets))
    ensures s.Some? ==> s.value.rps.WellFormed()
    ensures s.Some? ==> ReadMeans(s.value, idx, sets)
  {
    hide SetAt, Resolve, InRange, Narrowed, ReadMeans;
    ghost var start := r.pos;
    var c :- ReadCoded(r, idx, sets, numSets);
    SetCanonical(r.data, start, idx, Sizes(sets), numSets, c, r.pos);
    InRangeRefers(c, idx, sets, numSets);
    KeptWellFormed(c, idx, sets, numSets);
    var rps :- Derive(c, idx, sets);
    s := Some(Stored(c, if c.Inter? then Narrowed(rps) else rps));
    StoredMeaning(r.data, start, s.value, idx, sets, numSets, r.pos);
  }

  // ---- The SPS loop ----

  function RpsOf(stored: seq<Stored>): (sets: seq<Rps>)
    ensures |sets| == |stored| && forall i :: 0 <= i < |stored| ==> sets[i] == stored[i].rps
  {
    seq(|stored|, i requires 0 <= i < |stored| => stored[i].rps)
  }

  /** The loop over the sets, with `done` of `numSets` already read. */
  ghost function SetsAt(data: seq<bool>, pos: nat, done: seq<Stored>, numSets: nat): Read<seq<Stored>>
    requires |done| <= numSets && pos <= |data|
    decreases numSets - |done|
  {
    if |done| == numSets then Some((done, pos))
    else
      var (s, p0) :- StoredAt(data, pos, |done|, RpsOf(done), numSets);
      assert p0 <= |data| by { StoredEnd(data, pos, |done|, RpsOf(done), numSets); }
      SetsAt(data, p0, done + [s], numSets)
  }

  lemma {:induction false} StoredEnd(data: seq<bool>, pos: nat, idx: nat, sets: seq<Rps>, numSets: nat)
    requires idx <= |sets| && pos <= |data| && StoredAt(data, pos, idx, sets, numSets).Some?
    ensures pos <= StoredAt(data, pos, idx, sets, numSets).value.1 <= |data|
  {
    hide Resolve, Narrowed;
  }

  ghost function SpsAt(data: seq<bool>, pos: nat): Read<seq<Stored>>
    requires pos <= |data|
  {
    var (numSets, p0) :- UeAt(data, pos, 0, HEVC_MAX_SHORT_TERM_REF_PIC_SETS);
    SetsAt(data, p0, [], numSets)
  }

  /** Every set of the SPS can be referred to, so the assertion on num_delta_pocs holds
      in every pass of the loop and in slice headers after it. */
  method ReadSets(r: BitReader) returns (stored: Option<seq<Stored>>)
    requires r.Valid()
    modifies r
    ensures Agrees(r, stored, SpsAt(r.data, old(r.pos)))
    ensures stored.Some? ==> AllWellFormed(RpsOf(stored.value)) && |stored.value| <= 64
    ensures stored.Some? ==> forall i :: 0 <= i < |stored.value| ==> stored.value[i].rps.Size() < 16
  {
    hide UeAt, StoredAt;
    var numSets :- ReadValue(r, 0, HEVC_MAX_SHORT_TERM_REF_PIC_SETS);
    var done: seq<Stored> := [];
    ghost var spec := SetsAt(r.data, r.pos, [], numSets);
    for i := 0 to numSets
      invariant r.Valid() && |done| == i && AllWellFormed(RpsOf(done))
      invariant spec == SetsAt(r.data, r.pos, done, numSets)
    {
      var s :- ReadSet(r, i, RpsOf(done), numSets);
      done := done + [s];
    }
    return Some(done);
  }

  // ---- WRITE ----

  /** A writing step succeeds exactly when its checks hold and its code fits, and then
      appends the code. */
  twostate predicate Writes(w: BitWriter, ok: bool, checks: bool, code: seq<bool>)
    reads w
    requires old(w.Valid())
  {
    && w.Valid()
    && (ok <==> checks && |code| <= old(w.Left()))
    && (ok ==> w.bits == old(w.bits) + code)
  }

  method WriteBit(w: BitWriter, bit: bool) returns (ok: bool)
    requires w.Valid()
    modifies w
    ensures Writes(w, ok, true, [bit])
  {
    if w.Left() < 1 {
      return false;
    }
    assert ToBits(1, if bit then 1 else 0) == [bit] by { assert ToBits(0, 0) == []; }
    w.Put(1, if bit then 1 else 0);
    return true;
  }

  method WriteValue(w: BitWriter, value: nat, rangeMax: nat) returns (ok: bool)
    requires w.Valid() && rangeMax < UINT32_MAX
    modifies w
    ensures Writes(w, ok, value <= rangeMax, EncodeUe(value))
  {
    hide EncodeUe;
    var status := WriteUe(w, value, 0, rangeMax);
    ok := status.Written?;
  }

  function Suffix(f: Flags, j: nat): Flags
    requires j <= |f.used| == |f.useDelta|
  {
    Flags(f.used[j..], f.useDelta[j..])
  }

  lemma {:induction false} EncodeSuffix(f: Flags, j: nat)
    requires j < |f.used| == |f.useDelta|
    ensures EncodeFlags(Suffix(f, j))
      == [f.used[j]] + (if f.used[j] then [] else [f.useDelta[j]]) + EncodeFlags(Suffix(f, j + 1))
  {
    assert f.used[j..][1..] == f.used[j + 1..] && f.useDelta[j..][1..] == f.useDelta[j + 1..];
  }

  lemma {:induction false} EncodeNone(f: Flags)
    requires |f.used| == |f.useDelta| == 0
    ensures EncodeFlags(f) == []
  {
  }

  /** One pass of the flag loop; the second flag is inferred when the first is set. */
  method WriteFlag(w: BitWriter, used: bool, useDelta: bool) returns (ok: bool)
    requires w.Valid()
    modifies w
    ensures Writes(w, ok, used ==> useDelta, [used] + if used then [] else [useDelta])
  {
    ok := WriteBit(w, used);
    if !ok {
      return;
    }
    if used {
      return useDelta;
    }
    ok := WriteBit(w, useDelta);
  }

  method WriteFlags(w: BitWriter, f: Flags) returns (ok: bool)
    requires w.Valid() && |f.used| == |f.useDelta|
    modifies w
    ensures Writes(w, ok, Inferred(f), EncodeFlags(f))
  {
    hide EncodeFlags;
    ghost var whole := w.bits + EncodeFlags(f);
    assert Suffix(f, 0) == f;
    for j := 0 to |f.used|
      invariant w.Valid() && whole == w.bits + EncodeFlags(Suffix(f, j))
      invariant forall k :: 0 <= k < j && f.used[k] ==> f.useDelta[k]
    {
      EncodeSuffix(f, j);
      ghost var code := [f.used[j]] + if f.used[j] then [] else [f.useDelta[j]];
      assert w.bits + (code + EncodeFlags(Suffix(f, j + 1))) == w.bits + code + EncodeFlags(Suffix(f, j + 1));
      ok := WriteFlag(w, f.used[j], f.useDelta[j]);
      if !ok {
        return;
      }
    }
    EncodeNone(Suffix(f, |f.used|));
    return true;
  }

  lemma {:induction false} EncodeStepsSuffix(steps: seq<Step>, j: nat)
    requires Codable(steps) && j < |steps|
    ensures EncodeSteps(steps[j..]) == EncodeUe(steps[j].minus1) + [steps[j].used] + EncodeSteps(steps[j + 1..])
  {
    assert steps[j..][1..] == steps[j + 1..];
  }

  method WriteStep(w: BitWriter, step: Step) returns (ok: bool)
    requires w.Valid() && step.minus1 >= 0
    modifies w
    ensures Writes(w, ok, step.minus1 <= INT16_MAX, EncodeUe(step.minus1) + [step.used])
  {
    hide EncodeUe;
    ok := WriteValue(w, step.minus1, INT16_MAX);
    if !ok {
      return;
    }
    ok := WriteBit(w, step.used);
  }

  method WriteSteps(w: BitWriter, steps: seq<Step>) returns (ok: bool)
    requires w.Valid() && Codable(steps)
    modifies w
    ensures Writes(w, ok, StepsInRange(steps), EncodeSteps(steps))
  {
    hide EncodeUe;
    ghost var whole := w.bits + EncodeSteps(steps);
    assert steps[0..] == steps;
    for j := 0 to |steps|
      invariant w.Valid() && whole == w.bits + EncodeSteps(steps[j..])
      invariant forall k :: 0 <= k < j ==> steps[k].minus1 <= INT16_MAX
    {
      EncodeStepsSuffix(steps, j);
      ghost var code := EncodeUe(steps[j].minus1) + [steps[j].used];
      assert w.bits + (code + EncodeSteps(steps[j + 1..])) == w.bits + code + EncodeSteps(steps[j + 1..]);
      ok := WriteStep(w, steps[j]);
      if !ok {
        return;
      }
    }
    return true;
  }

  method WriteCounts(w: BitWriter, negatives: nat, positives: nat) returns (ok: bool)
    requires w.Valid()
    modifies w
    ensures Writes(w, ok, negatives + positives <= 15, EncodeUe(negatives) + EncodeUe(positives))
  {
    hide EncodeUe;
    ok := WriteValue(w, negatives, 15);
    if !ok {
      return;
    }
    ok := WriteValue(w, positives, 15 - negatives);
  }

  method WriteBothSteps(w: BitWriter, s0: seq<Step>, s1: seq<Step>) returns (ok: bool)
    requires w.Valid() && Codable(s0) && Codable(s1)
    modifies w
    ensures Writes(w, ok, StepsInRange(s0) && StepsInRange(s1), EncodeSteps(s0) + EncodeSteps(s1))
  {
    hide EncodeSteps, StepsInRange;
    ok := WriteSteps(w, s0);
    if !ok {
      return;
    }
    ok := WriteSteps(w, s1);
  }

  method WriteExplicit(w: BitWriter, rps: Rps) returns (ok: bool)
    requires w.Valid() && Codable(rps.s0) && Codable(rps.s1)
    modifies w
    ensures Writes(w, ok, |rps.s0| + |rps.s1| <= 15 && StepsInRange(rps.s0) && StepsInRange(rps.s1),
      Body(Explicit(rps), false))
  {
    hide EncodeUe, EncodeSteps, StepsInRange;
    ghost var counts, steps := EncodeUe(|rps.s0|) + EncodeUe(|rps.s1|), EncodeSteps(rps.s0) + EncodeSteps(rps.s1);
    Regroup([], counts, EncodeSteps(rps.s0), EncodeSteps(rps.s1));
    assert Body(Explicit(rps), false) == counts + steps;
    ok := WriteCounts(w, |rps.s0|, |rps.s1|);
    if !ok {
      return;
    }
    ok := WriteBothSteps(w, rps.s0, rps.s1);
  }

  /** delta_idx_minus1 is sent behind the sets of an SPS only, and inferred to be 0 in it. */
  method WriteDeltaIdx(w: BitWriter, deltaIdxMinus1: nat, idx: nat, numSets: nat) returns (ok: bool)
    requires w.Valid() && 0 < idx <= HEVC_MAX_SHORT_TERM_REF_PIC_SETS
    modifies w
    ensures Writes(w, ok, deltaIdxMinus1 < idx && (idx != numSets ==> deltaIdxMinus1 == 0),
      if idx == numSets then EncodeUe(deltaIdxMinus1) else [])
  {
    hide EncodeUe;
    if idx != numSets {
      return deltaIdxMinus1 == 0;
    }
    ok := WriteValue(w, deltaIdxMinus1, idx - 1);
  }

  /** delta_rps_sign and abs_delta_rps_minus1 */
  method WriteDelta(w: BitWriter, sign: bool, absMinus1: nat) returns (ok: bool)
    requires w.Valid()
    modifies w
    ensures Writes(w, ok, absMinus1 <= INT16_MAX, [sign] + EncodeUe(absMinus1))
  {
    hide EncodeUe;
    ok := WriteBit(w, sign);
    if !ok {
      return;
    }
    ok := WriteValue(w, absMinus1, INT16_MAX);
  }

  method WriteInter(w: BitWriter, c: Coded, idx: nat, sets: seq<Rps>, numSets: nat) returns (ok: bool)
    requires w.Valid() && 0 < idx <= |sets| && idx <= HEVC_MAX_SHORT_TERM_REF_PIC_SETS && c.Inter?
    requires |c.f.used| == |c.f.useDelta|
    requires c.deltaIdxMinus1 < idx ==> FlagsFor(sets[idx - (c.deltaIdxMinus1 + 1)], c.f)
    modifies w
    ensures Writes(w, ok, InRange(c, idx, Sizes(sets), numSets), Body(c, idx == numSets))
  {
    hide EncodeUe, EncodeFlags, Inferred;
    ghost var start, delta := w.bits, [c.sign] + EncodeUe(c.absMinus1);
    ghost var sent := if idx == numSets then EncodeUe(c.deltaIdxMinus1) else [];
    assert Body(c, idx == numSets) == sent + delta + EncodeFlags(c.f);
    Regroup(start, sent, delta, EncodeFlags(c.f));
    ok := WriteDeltaIdx(w, c.deltaIdxMinus1, idx, numSets);
    if !ok {
      return;
    }
    ok := WriteDelta(w, c.sign, c.absMinus1);
    if !ok {
      return;
    }
    ok := WriteFlags(w, c.f);
  }

  /** The WRITE expansion of st_ref_pic_set. The set's flag arrays are as long as the
      reference set needs, and an explicit set is stored in the very fields sent. */
  method WriteSet(w: BitWriter, s: Stored, idx: nat, sets: seq<Rps>, numSets: nat) returns (ok: bool)
    requires w.Valid() && idx <= |sets| && idx <= HEVC_MAX_SHORT_TERM_REF_PIC_SETS && AllWellFormed(sets)
    requires s.coded.Explicit? ==> s.rps == s.coded.rps && Codable(s.rps.s0) && Codable(s.rps.s1)
    requires s.coded.Inter? ==> |s.coded.f.used| == |s.coded.f.useDelta|
    requires s.coded.Inter? && s.coded.deltaIdxMinus1 < idx
      ==> FlagsFor(sets[idx - (s.coded.deltaIdxMinus1 + 1)], s.coded.f)
    modifies w
    ensures Writes(w, ok, Accepted(s, idx, sets, numSets), EncodeSet(s.coded, idx, numSets))
  {
    hide Body, Predict;
    if idx != 0 {
      ok := WriteBit(w, s.coded.Inter?);
      if !ok {
        return;
      }
    } else if s.coded.Inter? {
      return false;
    }
    if s.coded.Explicit? {
      ExplicitBody(s.coded, idx == numSets);
      ok := WriteExplicit(w, s.coded.rps);
      return;
    }
    ok := WriteInter(w, s.coded, idx, sets, numSets);
    if !ok {
      return;
    }
    var rps := Derive(s.coded, idx, sets);
    ok := rps == Some(s.rps);
  }

  // ---- The SPS loop, writing ----

  ghost predicate AllAccepted(stored: seq<Stored>, i: nat)
    requires i <= |stored|
  {
    forall k :: 0 <= k < i ==> Accepted(stored[k], k, RpsOf(stored[..k]), |stored|)
  }

  lemma {:induction false} AcceptedWellFormed(stored: seq<Stored>, i: nat)
    requires i <= |stored| && AllAccepted(stored, i)
    ensures AllWellFormed(RpsOf(stored[..i]))
    decreases i
  {
    hide Accepted, Rps.WellFormed;
    if i > 0 {
      AcceptedWellFormed(stored, i - 1);
      NextWellFormed(stored, i - 1);
      assert forall k :: 0 <= k < i - 1 ==> RpsOf(stored[..i])[k] == RpsOf(stored[..i - 1])[k];
    }
  }

  lemma {:induction false} NextWellFormed(stored: seq<Stored>, i: nat)
    requires i < |stored| && AllWellFormed(RpsOf(stored[..i]))
    requires Accepted(stored[i], i, RpsOf(stored[..i]), |stored|)
    ensures stored[i].rps.WellFormed()
  {
    hide InRange, Resolve, Rps.WellFormed;
    ResolveWellFormed(stored[i].coded, i, RpsOf(stored[..i]), |stored|);
  }

  ghost predicate AllEncodable(stored: seq<Stored>, i: nat) {
    forall k :: i <= k < |stored| ==> Encodable(stored[k].coded)
  }

  /** The codes of the sets from the i-th on. */
  ghost function EncodeSets(stored: seq<Stored>, i: nat): seq<bool>
    requires i <= |stored| && AllEncodable(stored, i)
    decreases |stored| - i
  {
    if i == |stored| then [] else EncodeSet(stored[i].coded, i, |stored|) + EncodeSets(stored, i + 1)
  }

  ghost function EncodeSps(stored: seq<Stored>): seq<bool>
    requires AllEncodable(stored, 0)
  {
    EncodeUe(|stored|) + EncodeSets(stored, 0)
  }

  /** What WriteSet asks for, of every set. */
  ghost predicate Writable(stored: seq<Stored>) {
    AllEncodable(stored, 0) && forall k :: 0 <= k < |stored| ==> WritableAt(stored, k)
  }

  ghost predicate WritableAt(stored: seq<Stored>, k: nat)
    requires k < |stored|
  {
    var c := stored[k].coded;
    && Encodable(c)
    && (c.Explicit? ==> stored[k].rps == c.rps)
    && (c.Inter? && c.deltaIdxMinus1 < k ==> FlagsFor(stored[k - (c.deltaIdxMinus1 + 1)].rps, c.f))
  }

  /** One pass of the loop. */
  method WriteNext(w: BitWriter, stored: seq<Stored>, i: nat) returns (ok: bool)
    requires w.Valid() && i < |stored| <= HEVC_MAX_SHORT_TERM_REF_PIC_SETS
    requires WritableAt(stored, i) && AllAccepted(stored, i)
    modifies w
    ensures Writes(w, ok, Accepted(stored[i], i, RpsOf(stored[..i]), |stored|),
      EncodeSet(stored[i].coded, i, |stored|))
  {
    hide Accepted, EncodeSet, Rps.WellFormed;
    AcceptedWellFormed(stored, i);
    ok := WriteSet(w, stored[i], i, RpsOf(stored[..i]), |stored|);
  }

  method WriteAll(w: BitWriter, stored: seq<Stored>) returns (ok: bool)
    requires w.Valid() && Writable(stored) && |stored| <= HEVC_MAX_SHORT_TERM_REF_PIC_SETS
    modifies w
    ensures Writes(w, ok, AllAccepted(stored, |stored|), EncodeSets(stored, 0))
  {
    hide Accepted, EncodeSet, Rps.WellFormed;
    ghost var whole := w.bits + EncodeSets(stored, 0);
    for i := 0 to |stored|
      invariant w.Valid() && whole == w.bits + EncodeSets(stored, i)
      invariant AllAccepted(stored, i)
    {
      ghost var code := EncodeSet(stored[i].coded, i, |stored|);
      Regroup([], w.bits, code, EncodeSets(stored, i + 1));
      ok := WriteNext(w, stored, i);
      if !ok {
        return;
      }
    }
    return true;
  }

  /** The WRITE expansion of the loop: everything is appended exactly when the count is in
      range, every set is accepted after those before it, and all codes fit. */
  method WriteSets(w: BitWriter, stored: seq<Stored>) returns (ok: bool)
    requires w.Valid() && Writable(stored)
    modifies w
    ensures Writes(w, ok, |stored| <= 64 && AllAccepted(stored, |stored|),
      EncodeSps(stored))
  {
    hide Accepted, EncodeSets, EncodeUe;
    ok := WriteValue(w, |stored|, HEVC_MAX_SHORT_TERM_REF_PIC_SETS);
    if !ok {
      return;
    }
    ok := WriteAll(w, stored);
  }

  // ---- The SPS loop, back and forth ----

  ghost predicate AllReadable(stored: seq<Stored>, i: nat) {
    forall k :: i <= k < |stored| ==> Readable(stored[k], k, RpsOf(stored[..k]), |stored|)
  }

  /** The loop keeps what is done. */
  lemma {:induction false} SetsExtend(data: seq<bool>, pos: nat, done: seq<Stored>, numSets: nat)
    requires |done| <= numSets && pos <= |data| && SetsAt(data, pos, done, numSets).Some?
    ensures var all := SetsAt(data, pos, done, numSets).value.0; |all| == numSets && all[..|done|] == done
    decreases numSets - |done|
  {
    hide StoredAt;
    if |done| < numSets {
      var (s, p0) := StoredAt(data, pos, |done|, RpsOf(done), numSets).value;
      StoredEnd(data, pos, |done|, RpsOf(done), numSets);
      SetsExtend(data, p0, done + [s], numSets);
      assert (done + [s])[..|done|] == done;
    }
  }

  /** The codes of the sets from the i-th on stand at a position, and reading keeps them. */
  ghost predicate SetsStand(data: seq<bool>, pos: nat, all: seq<Stored>, i: nat, end: nat)
    requires i <= |all|
  {
    AllReadable(all, i) && AllEncodable(all, i) && Spans(data, pos, EncodeSets(all, i), end)
  }

  lemma {:induction false} SpansJoin(data: seq<bool>, pos: nat, a: seq<bool>, b: seq<bool>, mid: nat, end: nat)
    requires pos <= |data| && mid == pos + |a|
    ensures Spans(data, pos, a + b, end) <==> Spans(data, pos, a, mid) && Spans(data, mid, b, end)
  {
    if Spans(data, pos, a + b, end) {
      AtConcat(data, pos, a, b);
    } else if Spans(data, pos, a, mid) && Spans(data, mid, b, end) {
      AtConcat(data, pos, a, b);
    }
  }

  lemma {:induction false} NoneStand(data: seq<bool>, pos: nat, all: seq<Stored>, end: nat)
    requires pos <= |data|
    ensures SetsStand(data, pos, all, |all|, end) <==> end == pos
    ensures SetsAt(data, pos, all[..|all|], |all|) == Some((all, end)) <==> end == pos
  {
    assert all[..|all|] == all;
  }

  /** The sets stand there exactly when the next one does and the others stand behind it. */
  lemma {:induction false} StandStep(data: seq<bool>, pos: nat, all: seq<Stored>, i: nat, mid: nat, end: nat)
    requires i < |all| && pos <= |data| && Encodable(all[i].coded)
    requires mid == pos + |EncodeSet(all[i].coded, i, |all|)|
    ensures SetsStand(data, pos, all, i, end) <==>
      && Readable(all[i], i, RpsOf(all[..i]), |all|) && Spans(data, pos, EncodeSet(all[i].coded, i, |all|), mid)
      && SetsStand(data, mid, all, i + 1, end)
  {
    hide Encodable, Readable, EncodeSet, Spans;
    if AllEncodable(all, i + 1) {
      SpansJoin(data, pos, EncodeSet(all[i].coded, i, |all|), EncodeSets(all, i + 1), mid, end);
    }
  }

  lemma {:induction false} LoopStep(data: seq<bool>, pos: nat, all: seq<Stored>, i: nat, mid: nat)
    requires i < |all| && pos <= |data| && StoredAt(data, pos, i, RpsOf(all[..i]), |all|) == Some((all[i], mid))
    ensures pos <= mid <= |data| && SetsAt(data, pos, all[..i], |all|) == SetsAt(data, mid, all[..i + 1], |all|)
  {
    hide StoredAt;
    StoredEnd(data, pos, i, RpsOf(all[..i]), |all|);
    assert all[..i + 1] == all[..i] + [all[i]];
  }

  /** A loop that yields `all` begins with its next set. */
  lemma {:induction false} LoopNext(data: seq<bool>, pos: nat, all: seq<Stored>, i: nat, end: nat) returns (mid: nat)
    requires i < |all| && pos <= |data| && SetsAt(data, pos, all[..i], |all|) == Some((all, end))
    ensures StoredAt(data, pos, i, RpsOf(all[..i]), |all|) == Some((all[i], mid))
  {
    hide StoredAt;
    var (s, p0) := StoredAt(data, pos, i, RpsOf(all[..i]), |all|).value;
    StoredEnd(data, pos, i, RpsOf(all[..i]), |all|);
    SetsExtend(data, p0, all[..i] + [s], |all|);
    assert (all[..i] + [s])[i] == s && all[..i + 1][i] == all[i];
    mid := p0;
  }

  lemma {:induction false} ReadableCode(s: Stored, idx: nat, sets: seq<Rps>, numSets: nat)
    requires idx <= |sets| && Readable(s, idx, sets, numSets)
    ensures Encodable(s.coded)
  {
    hide Kept;
  }

  /** The loop reads the remaining sets exactly when their codes stand there one after the
      other and each is kept as it is. */
  lemma {:induction false} SetsRoundTrip(data: seq<bool>, pos: nat, all: seq<Stored>, i: nat, end: nat)
    requires i <= |all| <= HEVC_MAX_SHORT_TERM_REF_PIC_SETS && pos <= |data|
    ensures SetsAt(data, pos, all[..i], |all|) == Some((all, end)) <==> SetsStand(data, pos, all, i, end)
    decreases |all| - i
  {
    hide StoredAt, SetsAt, Readable, Encodable, EncodeSet, Spans;
    if i == |all| {
      NoneStand(data, pos, all, end);
    } else {
      if SetsAt(data, pos, all[..i], |all|) == Some((all, end)) {
        var mid := LoopNext(data, pos, all, i, end);
        LoopStep(data, pos, all, i, mid);
        SetsRoundTrip(data, mid, all, i + 1, end);
        SetStands(data, pos, all, i, mid);
        StandStep(data, pos, all, i, mid, end);
      }
      if SetsStand(data, pos, all, i, end) {
        var mid := pos + |EncodeSet(all[i].coded, i, |all|)|;
        StandStep(data, pos, all, i, mid, end);
        StoredRoundTrip(data, pos, all[i], i, RpsOf(all[..i]), |all|, mid);
        LoopStep(data, pos, all, i, mid);
        SetsRoundTrip(data, mid, all, i + 1, end);
      }
    }
  }

  lemma {:induction false} SetStands(data: seq<bool>, pos: nat, all: seq<Stored>, i: nat, mid: nat)
    requires i < |all| <= HEVC_MAX_SHORT_TERM_REF_PIC_SETS && pos <= |data|
    requires StoredAt(data, pos, i, RpsOf(all[..i]), |all|) == Some((all[i], mid))
    ensures Readable(all[i], i, RpsOf(all[..i]), |all|) && Encodable(all[i].coded)
    ensures Spans(data, pos, EncodeSet(all[i].coded, i, |all|), mid)
    ensures mid == pos + |EncodeSet(all[i].coded, i, |all|)|
  {
    hide StoredAt, Readable, Encodable, EncodeSet, At;
    StoredRoundTrip(data, pos, all[i], i, RpsOf(all[..i]), |all|, mid);
    ReadableCode(all[i], i, RpsOf(all[..i]), |all|);
  }

  /** Reading gives back the sets of an SPS exactly when their encoding stands there, with
      their number in front, and each set is kept as it is. */
  lemma {:induction false} SpsRoundTrip(data: seq<bool>, pos: nat, stored: seq<Stored>, end: nat)
    requires pos <= |data|
    ensures SpsAt(data, pos) == Some((stored, end)) <==>
      && |stored| <= 64 && AllReadable(stored, 0)
      && AllEncodable(stored, 0) && Spans(data, pos, EncodeSps(stored), end)
  {
    hide SetsAt, AllReadable, AllEncodable, EncodeSets, EncodeUe, UeAt, At;
    var n := |stored|;
    var mid := pos + |EncodeUe(n)|;
    assert stored[..0] == [];
    if SpsAt(data, pos) == Some((stored, end)) {
      var (numSets, p0) := UeAt(data, pos, 0, HEVC_MAX_SHORT_TERM_REF_PIC_SETS).value;
      SetsExtend(data, p0, [], numSets);
      UeAtCanonical(data, pos, 0, HEVC_MAX_SHORT_TERM_REF_PIC_SETS, n, p0);
      SetsRoundTrip(data, p0, stored, 0, end);
      SpansJoin(data, pos, EncodeUe(n), EncodeSets(stored, 0), mid, end);
    } else if n <= HEVC_MAX_SHORT_TERM_REF_PIC_SETS && AllEncodable(stored, 0) {
      SpansJoin(data, pos, EncodeUe(n), EncodeSets(stored, 0), mid, end);
      if Spans(data, pos, EncodeUe(n), mid) {
        UeAtEncoded(data, pos, n, 0, HEVC_MAX_SHORT_TERM_REF_PIC_SETS);
        SetsRoundTrip(data, mid, stored, 0, end);
      }
    }
  }

  /** The pictures of a predicted set are close. */
  ghost predicate KeptClose(s: Stored) {
    s.coded.Inter? ==> Close(Negatives(s.rps)) && Close(Positives(s.rps))
  }

  /** What WriteSets writes is read back as it was exactly when in every predicted set
      neighbouring pictures are close. */
  lemma {:induction false} WrittenSetsRead(data: seq<bool>, pos: nat, stored: seq<Stored>, end: nat)
    requires |stored| <= 64 && AllAccepted(stored, |stored|) && AllEncodable(stored, 0)
    requires pos <= |data| && Spans(data, pos, EncodeSps(stored), end)
    ensures SpsAt(data, pos) == Some((stored, end)) <==> forall k :: 0 <= k < |stored| ==> KeptClose(stored[k])
  {
    hide SpsAt, Spans, Accepted, Readable, EncodeSps, KeptClose, AllEncodable;
    SpsRoundTrip(data, pos, stored, end);
    forall k | 0 <= k < |stored|
      ensures Readable(stored[k], k, RpsOf(stored[..k]), |stored|) <==> KeptClose(stored[k])
    {
      AcceptedWellFormed(stored, k);
      AcceptedReadable(stored[k], k, RpsOf(stored[..k]), |stored|);
    }
  }

  /** A set the writer accepts is one the reader can give back exactly when its pictures
      are close. */
  lemma {:induction false} AcceptedReadable(s: Stored, idx: nat, sets: seq<Rps>, numSets: nat)
    requires idx <= |sets| && AllWellFormed(sets) && Accepted(s, idx, sets, numSets)
    ensures Readable(s, idx, sets, numSets) <==> KeptClose(s)
  {
    hide InRange, Resolve, Close, Negatives, Positives;
    InRangeRefers(s.coded, idx, sets, numSets);
    KeptIff(s.coded, idx, sets, numSets);
  }
}
