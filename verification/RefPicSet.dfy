// H.265 short-term reference picture sets: st_ref_pic_set of cbs_h265_syntax_template.c
// and the SPS loop that builds the sets.

module RefPicSet {
  // As third-party/cbs/include/cbs/hevc.h:117-122 defines them.
  const HEVC_MAX_DPB_SIZE: nat := 16
  const HEVC_MAX_REFS: nat := HEVC_MAX_DPB_SIZE
  const HEVC_MAX_SHORT_TERM_REF_PIC_SETS: nat := 64
  const INT16_MAX: nat := 0x7FFF

  /** One stored entry: the distance to the previous entry minus one, and its used flag. */
  datatype Step = Step(minus1: int, used: bool)

  /** The delta-step form in which a set is stored: its negative and positive pictures. */
  datatype Rps = Rps(s0: seq<Step>, s1: seq<Step>) {
    function Size(): nat { |s0| + |s1| }

    /** Every step is at least one. */
    ghost predicate StepsForward() {
      && (forall i :: 0 <= i < |s0| ==> s0[i].minus1 >= 0)
      && (forall i :: 0 <= i < |s1| ==> s1[i].minus1 >= 0)
    }

    ghost predicate WellFormed() {
      Size() < HEVC_MAX_DPB_SIZE && StepsForward()
    }
  }

  /** An entry in delta-array form: its picture order count delta and its used flag. */
  datatype Pic = Pic(delta: int, used: bool)

  // ---- The two forms of a set ----

  function Toward(up: bool, distance: int): int {
    if up then distance else -distance
  }

  /** The deltas of a list of steps, walking away from 0 upwards or downwards. */
  function Walk(steps: seq<Step>, up: bool): (pics: seq<Pic>)
    ensures |pics| == |steps|
  {
    if |steps| == 0 then []
    else
      var front := Walk(steps[..|steps| - 1], up);
      var from := if |front| == 0 then 0 else front[|front| - 1].delta;
      var last := steps[|steps| - 1];
      front + [Pic(from + Toward(up, last.minus1 + 1), last.used)]
  }

  function Negatives(rps: Rps): (pics: seq<Pic>)
    ensures |pics| == |rps.s0|
  {
    Walk(rps.s0, false)
  }

  function Positives(rps: Rps): (pics: seq<Pic>)
    ensures |pics| == |rps.s1|
  {
    Walk(rps.s1, true)
  }

  /** The step from the entry before the i-th to the i-th. */
  function StepAt(pics: seq<Pic>, i: nat, up: bool): Step
    requires i < |pics|
  {
    Step(Toward(up, pics[i].delta - (if i == 0 then 0 else pics[i - 1].delta)) - 1, pics[i].used)
  }

  /** The steps between consecutive entries of a delta array. */
  function Steps(pics: seq<Pic>, up: bool): (steps: seq<Step>)
    ensures |steps| == |pics|
    ensures forall i :: 0 <= i < |pics| ==> steps[i] == StepAt(pics, i, up)
  {
    if |pics| == 0 then []
    else Steps(pics[..|pics| - 1], up) + [StepAt(pics, |pics| - 1, up)]
  }

  predicate Decreasing(pics: seq<Pic>) {
    forall i, j :: 0 <= i < j < |pics| ==> pics[i].delta > pics[j].delta
  }

  predicate Increasing(pics: seq<Pic>) {
    forall i, j :: 0 <= i < j < |pics| ==> pics[i].delta < pics[j].delta
  }

  lemma {:induction false} TowardTwice(up: bool, d: int)
    ensures Toward(up, Toward(up, d) - 1 + 1) == d
  {
  }

  /** The last delta of an array, or 0. */
  function LastDelta(pics: seq<Pic>): int {
    if |pics| == 0 then 0 else pics[|pics| - 1].delta
  }

  lemma {:induction false} WalkSnoc(steps: seq<Step>, last: Step, up: bool)
    ensures Walk(steps + [last], up)
      == Walk(steps, up) + [Pic(LastDelta(Walk(steps, up)) + Toward(up, last.minus1 + 1), last.used)]
  {
    assert (steps + [last])[..|steps|] == steps;
  }

  lemma {:induction false} StepsSnoc(pics: seq<Pic>, last: Pic, up: bool)
    ensures Steps(pics + [last], up)
      == Steps(pics, up) + [Step(Toward(up, last.delta - LastDelta(pics)) - 1, last.used)]
  {
    assert (pics + [last])[..|pics|] == pics;
  }

  lemma {:induction false} WalkOfSteps(pics: seq<Pic>, up: bool)
    ensures Walk(Steps(pics, up), up) == pics
  {
    hide Walk, Steps, Toward, LastDelta;
    if |pics| == 0 {
      NoSteps(pics, up);
    } else {
      var front, last := pics[..|pics| - 1], pics[|pics| - 1];
      assert pics == front + [last];
      WalkOfSteps(front, up);
      StepsSnoc(front, last, up);
      WalkSnoc(Steps(front, up), Step(Toward(up, last.delta - LastDelta(front)) - 1, last.used), up);
      TowardTwice(up, last.delta - LastDelta(front));
    }
  }

  lemma {:induction false} NoSteps(pics: seq<Pic>, up: bool)
    requires |pics| == 0
    ensures Steps(pics, up) == [] && Walk([], up) == []
  {
  }

  lemma {:induction false} WalkDown(steps: seq<Step>)
    requires forall i :: 0 <= i < |steps| ==> steps[i].minus1 >= 0
    ensures Decreasing(Walk(steps, false))
    ensures forall i :: 0 <= i < |steps| ==> Walk(steps, false)[i].delta < 0
  {
    if |steps| > 0 {
      WalkDown(steps[..|steps| - 1]);
    }
  }

  lemma {:induction false} WalkUp(steps: seq<Step>)
    requires forall i :: 0 <= i < |steps| ==> steps[i].minus1 >= 0
    ensures Increasing(Walk(steps, true))
    ensures forall i :: 0 <= i < |steps| ==> Walk(steps, true)[i].delta > 0
  {
    if |steps| > 0 {
      WalkUp(steps[..|steps| - 1]);
    }
  }

  /** The walk down or up: each picture is its step further from 0 than the one before it. */
  lemma {:induction false} WalkAt(steps: seq<Step>, up: bool, i: nat)
    requires i < |steps|
    ensures var pics := Walk(steps, up);
      var from := if i == 0 then 0 else pics[i - 1].delta;
      pics[i] == Pic(if up then from + steps[i].minus1 + 1 else from - steps[i].minus1 - 1, steps[i].used)
    decreases |steps|
  {
    if i < |steps| - 1 {
      WalkAt(steps[..|steps| - 1], up, i);
    }
  }

  /** What the steps of a set stand for. */
  lemma {:induction false} PicturesAt(rps: Rps, i: nat)
    ensures i < |rps.s0| ==>
      var from := if i == 0 then 0 else Negatives(rps)[i - 1].delta;
      Negatives(rps)[i] == Pic(from - rps.s0[i].minus1 - 1, rps.s0[i].used)
    ensures i < |rps.s1| ==>
      var from := if i == 0 then 0 else Positives(rps)[i - 1].delta;
      Positives(rps)[i] == Pic(from + rps.s1[i].minus1 + 1, rps.s1[i].used)
  {
    hide Walk;
    if i < |rps.s0| {
      WalkAt(rps.s0, false, i);
    }
    if i < |rps.s1| {
      WalkAt(rps.s1, true, i);
    }
  }

  lemma {:induction false} SameSteps(a: seq<Step>, b: seq<Step>, up: bool)
    requires Walk(a, up) == Walk(b, up)
    ensures a == b
  {
    hide Walk;
    forall i | 0 <= i < |a| ensures a[i] == b[i] {
      WalkAt(a, up, i);
      WalkAt(b, up, i);
    }
  }

  /** Pictures that run strictly in one direction are known by which they are. */
  lemma {:induction false} SamePics(a: seq<Pic>, b: seq<Pic>, up: bool)
    requires Monotone(a, up) && Monotone(b, up)
    requires forall pic: Pic :: pic in a <==> pic in b
    ensures a == b
    decreases |a|
  {
    if |a| == 0 {
      if |b| > 0 {
        SomePic(b);
      }
    } else {
      FarthestPic(a, b, up);
      var m, n := |a| - 1, |b| - 1;
      hide Monotone;
      forall pic: Pic ensures pic in a[..m] <==> pic in b[..n] {
        FrontPics(a, up, pic);
        FrontPics(b, up, pic);
      }
      FrontMonotone(a, up);
      FrontMonotone(b, up);
      SamePics(a[..m], b[..n], up);
      assert a == a[..m] + [a[m]] && b == b[..n] + [b[n]];
    }
  }

  lemma {:induction false} SomePic(b: seq<Pic>)
    requires |b| > 0
    ensures exists pic: Pic :: pic in b
  {
    assert b[0] in b;
  }

  lemma {:induction false} FrontMonotone(a: seq<Pic>, up: bool)
    requires |a| > 0 && Monotone(a, up)
    ensures Monotone(a[..|a| - 1], up)
  {
  }

  /** The picture farthest to a side is the last one. */
  lemma {:induction false} FarthestPic(a: seq<Pic>, b: seq<Pic>, up: bool)
    requires |a| > 0 && Monotone(a, up) && Monotone(b, up)
    requires forall pic: Pic :: pic in a <==> pic in b
    ensures |b| > 0 && a[|a| - 1] == b[|b| - 1]
  {
    var last := a[|a| - 1];
    assert last in b;
    NotBeyond(a, up, b[|b| - 1]);
    NotBeyond(b, up, last);
    if last != b[|b| - 1] {
      BeforeLast(a, up, b[|b| - 1]);
      BeforeLast(b, up, last);
    }
  }

  lemma {:induction false} NotBeyond(a: seq<Pic>, up: bool, pic: Pic)
    requires Monotone(a, up) && pic in a
    ensures Toward(up, pic.delta) <= Toward(up, a[|a| - 1].delta)
  {
  }

  lemma {:induction false} BeforeLast(a: seq<Pic>, up: bool, pic: Pic)
    requires Monotone(a, up) && pic in a && pic != a[|a| - 1]
    ensures Toward(up, pic.delta) < Toward(up, a[|a| - 1].delta)
  {
  }

  lemma {:induction false} FrontPics(a: seq<Pic>, up: bool, pic: Pic)
    requires |a| > 0 && Monotone(a, up)
    ensures pic in a[..|a| - 1] <==> pic in a && pic != a[|a| - 1]
  {
    if pic in a && pic != a[|a| - 1] {
      var i :| 0 <= i < |a| && a[i] == pic;
      assert a[..|a| - 1][i] == pic;
    }
  }

  /** The negative pictures of a set lie below zero and run down, the positive ones above
      and up. */
  lemma {:induction false} Sides(rps: Rps)
    requires rps.StepsForward()
    ensures Monotone(Negatives(rps), false) && forall pic :: pic in Negatives(rps) ==> pic.delta < 0
    ensures Monotone(Positives(rps), true) && forall pic :: pic in Positives(rps) ==> pic.delta > 0
  {
    hide Walk;
    WalkDown(rps.s0);
    WalkUp(rps.s1);
  }

  /** No two sets with steps of at least one have the same pictures. */
  lemma {:induction false} PicturesDetermine(a: Rps, b: Rps)
    requires a.StepsForward() && b.StepsForward()
    requires forall pic: Pic ::
      pic in Negatives(a) || pic in Positives(a) <==> pic in Negatives(b) || pic in Positives(b)
    ensures a == b
  {
    hide Walk, Monotone, Rps.StepsForward;
    Sides(a);
    Sides(b);
    forall pic: Pic
      ensures pic in Negatives(a) <==> pic in Negatives(b)
      ensures pic in Positives(a) <==> pic in Positives(b)
    {
    }
    SamePics(Negatives(a), Negatives(b), false);
    SamePics(Positives(a), Positives(b), true);
    SameSteps(a.s0, b.s0, false);
    SameSteps(a.s1, b.s1, true);
  }

  // ---- Inter prediction (section 7.4.8 of ITU-T H.265) ----

  /** The flags sent for each entry of the reference set and for the set itself. */
  datatype Flags = Flags(used: seq<bool>, useDelta: seq<bool>)

  ghost predicate FlagsFor(ref: Rps, f: Flags) {
    |f.used| == |f.useDelta| == ref.Size() + 1
  }

  /** The delta the j-th pair of flags speaks of; the last pair speaks of delta 0,
      the picture that holds the reference set. */
  function RefDelta(ref: Rps, j: nat): int
    requires j <= ref.Size()
  {
    if j < |ref.s0| then Negatives(ref)[j].delta
    else if j < ref.Size() then Positives(ref)[j - |ref.s0|].delta
    else 0
  }

  /** The j-th reference delta is predicted from: its flag is set and the sum is not 0. */
  ghost predicate Predicts(ref: Rps, deltaRps: int, f: Flags, j: nat)
    requires FlagsFor(ref, f) && j <= ref.Size()
  {
    f.useDelta[j] && RefDelta(ref, j) + deltaRps != 0
  }

  /** The order in which the negative half visits the flags: the positive entries
      backwards, the set itself, the negative entries forwards. */
  function DownOrder(ref: Rps): (order: seq<nat>)
    ensures |order| == ref.Size() + 1 && forall i :: 0 <= i < |order| ==> order[i] <= ref.Size()
  {
    seq(ref.Size() + 1, i requires 0 <= i <= ref.Size() =>
      if i < |ref.s1| then ref.Size() - 1 - i
      else if i == |ref.s1| then ref.Size()
      else i - |ref.s1| - 1)
  }

  /** The order of the positive half. */
  function UpOrder(ref: Rps): (order: seq<nat>)
    ensures |order| == ref.Size() + 1 && forall i :: 0 <= i < |order| ==> order[i] <= ref.Size()
  {
    seq(ref.Size() + 1, i requires 0 <= i <= ref.Size() =>
      if i < |ref.s0| then |ref.s0| - 1 - i
      else if i == |ref.s0| then ref.Size()
      else i - 1)
  }

  ghost predicate Visits(ref: Rps, order: seq<nat>) {
    forall i :: 0 <= i < |order| ==> order[i] <= ref.Size()
  }

  /** The visit of the j-th flags selects an entry on the given side of zero. */
  predicate Selects(ref: Rps, deltaRps: int, f: Flags, j: nat, up: bool)
    requires |f.used| == |f.useDelta| == ref.Size() + 1 && j <= ref.Size()
  {
    f.useDelta[j] && Toward(up, RefDelta(ref, j) + deltaRps) > 0
  }

  /** The entries an order of visits selects on one side of zero. */
  function Select(ref: Rps, deltaRps: int, f: Flags, order: seq<nat>, up: bool): (pics: seq<Pic>)
    requires |f.used| == |f.useDelta| == ref.Size() + 1
    requires forall i :: 0 <= i < |order| ==> order[i] <= ref.Size()
    ensures |pics| <= |order|
  {
    if |order| == 0 then []
    else
      var front := Select(ref, deltaRps, f, order[..|order| - 1], up);
      var j := order[|order| - 1];
      if Selects(ref, deltaRps, f, j, up) then front + [PicAt(ref, deltaRps, f, j)]
      else front
  }

  /** The derived set, in delta-step form again. */
  function Predict(ref: Rps, deltaRps: int, f: Flags): Rps
    requires |f.used| == |f.useDelta| == ref.Size() + 1
  {
    Rps(Steps(Select(ref, deltaRps, f, DownOrder(ref), false), false),
        Steps(Select(ref, deltaRps, f, UpOrder(ref), true), true))
  }

  // ---- What the derived set is ----

  /** The deltas along an order of visits run towards one side. */
  ghost predicate Runs(ref: Rps, order: seq<nat>, up: bool)
    requires Visits(ref, order)
  {
    forall i, k :: 0 <= i < k < |order| ==>
      Toward(up, RefDelta(ref, order[i])) < Toward(up, RefDelta(ref, order[k]))
  }

  lemma {:induction false} OrdersRun(ref: Rps)
    requires ref.WellFormed()
    ensures Runs(ref, DownOrder(ref), false) && Runs(ref, UpOrder(ref), true)
  {
    WalkDown(ref.s0);
    WalkUp(ref.s1);
  }

  ghost predicate Monotone(pics: seq<Pic>, up: bool) {
    forall i, k :: 0 <= i < k < |pics| ==> Toward(up, pics[i].delta) < Toward(up, pics[k].delta)
  }

  lemma {:induction false} SelectMonotone(ref: Rps, deltaRps: int, f: Flags, order: seq<nat>, up: bool)
    requires FlagsFor(ref, f) && Visits(ref, order) && Runs(ref, order, up)
    ensures Monotone(Select(ref, deltaRps, f, order, up), up)
    ensures forall k :: 0 <= k < |Select(ref, deltaRps, f, order, up)| ==>
      && Toward(up, Select(ref, deltaRps, f, order, up)[k].delta) > 0
      && Toward(up, Select(ref, deltaRps, f, order, up)[k].delta - deltaRps)
         <= Toward(up, RefDelta(ref, order[|order| - 1]))
  {
    if |order| > 0 {
      SelectMonotone(ref, deltaRps, f, order[..|order| - 1], up);
    }
  }

  lemma {:induction false} SelectMembers(ref: Rps, deltaRps: int, f: Flags, order: seq<nat>, up: bool, pic: Pic)
    requires FlagsFor(ref, f) && Visits(ref, order)
    ensures pic in Select(ref, deltaRps, f, order, up) <==>
      exists i :: 0 <= i < |order| && Selects(ref, deltaRps, f, order[i], up)
        && pic == PicAt(ref, deltaRps, f, order[i])
  {
    if |order| > 0 {
      SelectMembers(ref, deltaRps, f, order[..|order| - 1], up, pic);
    }
  }

  /** The flags an order of visits selects, as a set. */
  ghost function Selected(ref: Rps, deltaRps: int, f: Flags, order: seq<nat>, up: bool): set<nat>
    requires FlagsFor(ref, f) && Visits(ref, order)
  {
    set j | j in order && Selects(ref, deltaRps, f, j, up)
  }

  lemma {:induction false} SelectCount(ref: Rps, deltaRps: int, f: Flags, order: seq<nat>, up: bool)
    requires FlagsFor(ref, f) && Visits(ref, order)
    requires forall i, k :: 0 <= i < k < |order| ==> order[i] != order[k]
    ensures |Select(ref, deltaRps, f, order, up)| == |Selected(ref, deltaRps, f, order, up)|
  {
    if |order| > 0 {
      SelectCount(ref, deltaRps, f, order[..|order| - 1], up);
      SelectedSnoc(ref, deltaRps, f, order, up);
    }
  }

  lemma {:induction false} SelectedSnoc(ref: Rps, deltaRps: int, f: Flags, order: seq<nat>, up: bool)
    requires FlagsFor(ref, f) && Visits(ref, order) && |order| > 0
    ensures Selected(ref, deltaRps, f, order, up)
      == Selected(ref, deltaRps, f, order[..|order| - 1], up)
       + if Selects(ref, deltaRps, f, order[|order| - 1], up) then {order[|order| - 1]} else {}
  {
    assert order == order[..|order| - 1] + [order[|order| - 1]];
  }

  function CountTrue(b: seq<bool>): (n: nat)
    ensures n <= |b|
  {
    if |b| == 0 then 0 else CountTrue(b[..|b| - 1]) + if b[|b| - 1] then 1 else 0
  }

  ghost function TrueAt(b: seq<bool>): set<nat> {
    set j: nat | j < |b| && b[j]
  }

  lemma {:induction false} TrueAtSnoc(b: seq<bool>)
    requires |b| > 0
    ensures var n := |b| - 1; n !in TrueAt(b[..n]) && TrueAt(b) == if b[n] then TrueAt(b[..n]) + {n} else TrueAt(b[..n])
  {
    var n := |b| - 1;
    forall j: nat | j < n ensures j in TrueAt(b) <==> j in TrueAt(b[..n]) {
      assert b[..n][j] == b[j];
    }
  }

  lemma {:induction false} CountTrueIsCard(b: seq<bool>)
    ensures CountTrue(b) == |TrueAt(b)|
  {
    hide TrueAt;
    if |b| == 0 {
      NoneTrue(b);
    } else {
      TrueAtSnoc(b);
      CountTrueIsCard(b[..|b| - 1]);
    }
  }

  lemma {:induction false} NoneTrue(b: seq<bool>)
    requires |b| == 0
    ensures |TrueAt(b)| == 0
  {
  }

  lemma {:induction false} SubsetCard<T>(a: set<T>, b: set<T>)
    requires a <= b
    ensures |a| <= |b|
  {
    assert b == a + (b - a);
  }

  /** The derived set has no more pictures than use_delta flags that are set, so the
      check on num_ref_pics bounds what is stored. */
  lemma {:induction false} PredictSize(ref: Rps, deltaRps: int, f: Flags)
    requires FlagsFor(ref, f)
    ensures Predict(ref, deltaRps, f).Size() <= CountTrue(f.useDelta)
  {
    var down := Selected(ref, deltaRps, f, DownOrder(ref), false);
    var up := Selected(ref, deltaRps, f, UpOrder(ref), true);
    SelectCount(ref, deltaRps, f, DownOrder(ref), false);
    SelectCount(ref, deltaRps, f, UpOrder(ref), true);
    CountTrueIsCard(f.useDelta);
    SubsetCard(down + up, TrueAt(f.useDelta));
    assert down !! up;
  }

  /** The entry is a nonzero sum of deltaRps and a reference delta whose use_delta flag
      is set, with the flag that was sent for it. */
  ghost predicate PredictedPic(ref: Rps, deltaRps: int, f: Flags, pic: Pic)
    requires FlagsFor(ref, f)
  {
    exists j :: 0 <= j <= ref.Size() && Predicts(ref, deltaRps, f, j) && pic == PicAt(ref, deltaRps, f, j)
  }

  function PicAt(ref: Rps, deltaRps: int, f: Flags, j: nat): Pic
    requires |f.used| == ref.Size() + 1 && j <= ref.Size()
  {
    Pic(RefDelta(ref, j) + deltaRps, f.used[j])
  }

  lemma {:induction false} PredictForms(ref: Rps, deltaRps: int, f: Flags)
    requires FlagsFor(ref, f)
    ensures Negatives(Predict(ref, deltaRps, f)) == Select(ref, deltaRps, f, DownOrder(ref), false)
    ensures Positives(Predict(ref, deltaRps, f)) == Select(ref, deltaRps, f, UpOrder(ref), true)
  {
    WalkOfSteps(Select(ref, deltaRps, f, DownOrder(ref), false), false);
    WalkOfSteps(Select(ref, deltaRps, f, UpOrder(ref), true), true);
  }

  /** The steps of a delta array that runs away from zero are all at least one. */
  lemma {:induction false} MonotoneSteps(pics: seq<Pic>, up: bool)
    requires Monotone(pics, up) && forall k :: 0 <= k < |pics| ==> Toward(up, pics[k].delta) > 0
    ensures forall i :: 0 <= i < |pics| ==> Steps(pics, up)[i].minus1 >= 0
  {
  }

  lemma {:induction false} SelectRuns(ref: Rps, deltaRps: int, f: Flags, order: seq<nat>, up: bool)
    requires FlagsFor(ref, f) && Visits(ref, order) && Runs(ref, order, up)
    ensures var pics := Select(ref, deltaRps, f, order, up);
      && Monotone(pics, up)
      && (forall k :: 0 <= k < |pics| ==> Toward(up, pics[k].delta) > 0)
      && (forall i :: 0 <= i < |pics| ==> Steps(pics, up)[i].minus1 >= 0)
  {
    SelectMonotone(ref, deltaRps, f, order, up);
    MonotoneSteps(Select(ref, deltaRps, f, order, up), up);
  }

  /** Section 7.4.8: the derived negative pictures run strictly downwards below zero and
      the positive ones strictly upwards above it, so every re-stored step is >= 0. */
  lemma {:induction false} PredictSides(ref: Rps, deltaRps: int, f: Flags)
    requires ref.WellFormed() && FlagsFor(ref, f)
    ensures var p := Predict(ref, deltaRps, f);
      && Decreasing(Negatives(p)) && Increasing(Positives(p))
      && (forall i :: 0 <= i < |p.s0| ==> Negatives(p)[i].delta < 0 && p.s0[i].minus1 >= 0)
      && (forall i :: 0 <= i < |p.s1| ==> Positives(p)[i].delta > 0 && p.s1[i].minus1 >= 0)
  {
    PredictForms(ref, deltaRps, f);
    OrdersRun(ref);
    SelectRuns(ref, deltaRps, f, DownOrder(ref), false);
    SelectRuns(ref, deltaRps, f, UpOrder(ref), true);
    var down, up := Select(ref, deltaRps, f, DownOrder(ref), false), Select(ref, deltaRps, f, UpOrder(ref), true);
    RunsAway(down, up);
    hide Select, Walk, Monotone, Decreasing, Increasing, DownOrder, UpOrder, Runs;
  }

  lemma {:induction false} RunsAway(down: seq<Pic>, up: seq<Pic>)
    requires Monotone(down, false) && Monotone(up, true)
    requires forall k :: 0 <= k < |down| ==> Toward(false, down[k].delta) > 0
    requires forall k :: 0 <= k < |up| ==> Toward(true, up[k].delta) > 0
    ensures Decreasing(down) && forall i :: 0 <= i < |down| ==> down[i].delta < 0
    ensures Increasing(up) && forall i :: 0 <= i < |up| ==> up[i].delta > 0
  {
  }

  /** A predicted picture is on one side of zero. */
  lemma {:induction false} OneSide(ref: Rps, deltaRps: int, f: Flags, j: nat)
    requires FlagsFor(ref, f) && j <= ref.Size()
    ensures Predicts(ref, deltaRps, f, j) <==> Selects(ref, deltaRps, f, j, false) || Selects(ref, deltaRps, f, j, true)
  {
    hide RefDelta;
  }

  /** Together the two halves hold exactly the predicted pictures; by PredictSides
      each of them once. */
  lemma {:induction false} PredictMeaning(ref: Rps, deltaRps: int, f: Flags, pic: Pic)
    requires FlagsFor(ref, f)
    ensures var p := Predict(ref, deltaRps, f);
      pic in Negatives(p) || pic in Positives(p) <==> PredictedPic(ref, deltaRps, f, pic)
  {
    hide Predict, Select, Walk, DownOrder, UpOrder, RefDelta, Negatives, Positives, Selects, Predicts, PicAt;
    PredictForms(ref, deltaRps, f);
    SelectMembers(ref, deltaRps, f, DownOrder(ref), false, pic);
    SelectMembers(ref, deltaRps, f, UpOrder(ref), true, pic);
    forall j | 0 <= j <= ref.Size()
      ensures Predicts(ref, deltaRps, f, j)
        <==> Selects(ref, deltaRps, f, j, false) || Selects(ref, deltaRps, f, j, true)
    {
      OneSide(ref, deltaRps, f, j);
    }
    if PredictedPic(ref, deltaRps, f, pic) {
      var j :| 0 <= j <= ref.Size() && Predicts(ref, deltaRps, f, j) && pic == PicAt(ref, deltaRps, f, j);
      var i := OrderIndex(ref, j);
      var k := UpOrderIndex(ref, j);
    }
  }

  /** Every pair of flags is visited by either order. */
  lemma {:induction false} OrderIndex(ref: Rps, j: nat) returns (i: nat)
    requires j <= ref.Size()
    ensures i <= ref.Size() && DownOrder(ref)[i] == j
  {
    i := if j < |ref.s0| then j + |ref.s1| + 1 else if j < ref.Size() then ref.Size() - 1 - j else |ref.s1|;
  }

  lemma {:induction false} UpOrderIndex(ref: Rps, j: nat) returns (i: nat)
    requires j <= ref.Size()
    ensures i <= ref.Size() && UpOrder(ref)[i] == j
  {
    i := if j < |ref.s0| then |ref.s0| - 1 - j else if j < ref.Size() then j + 1 else |ref.s0|;
  }

  // ---- The width of the stored steps ----

  /** A step as an uint16_t keeps it. */
  function Narrow(step: Step): Step {
    Step(step.minus1 % 0x1_0000, step.used)
  }

  function NarrowAll(steps: seq<Step>): (r: seq<Step>)
    ensures |r| == |steps| && forall i :: 0 <= i < |steps| ==> r[i] == Narrow(steps[i])
  {
    seq(|steps|, i requires 0 <= i < |steps| => Narrow(steps[i]))
  }

  /** A set as its fields keep it. */
  function Narrowed(rps: Rps): Rps {
    Rps(NarrowAll(rps.s0), NarrowAll(rps.s1))
  }

  /** Neighbouring pictures, and the first one and the current picture, are at most 65536
      apart. */
  ghost predicate Close(pics: seq<Pic>) {
    forall i :: 0 <= i < |pics| ==> -0x1_0000 <= pics[i].delta - (if i == 0 then 0 else pics[i - 1].delta) <= 0x1_0000
  }

  /** The fields hold a predicted set as it is exactly when its pictures are close. */
  lemma {:induction false} NarrowedIff(ref: Rps, deltaRps: int, f: Flags)
    requires ref.WellFormed() && FlagsFor(ref, f)
    ensures var p := Predict(ref, deltaRps, f);
      Narrowed(p) == p <==> Close(Negatives(p)) && Close(Positives(p))
  {
    hide Select, Walk;
    var p := Predict(ref, deltaRps, f);
    PredictForms(ref, deltaRps, f);
    PredictSides(ref, deltaRps, f);
    assert p.s0 == Steps(Negatives(p), false) && p.s1 == Steps(Positives(p), true);
    NarrowedHalf(Negatives(p), false);
    NarrowedHalf(Positives(p), true);
  }

  lemma {:induction false} NarrowedHalf(pics: seq<Pic>, up: bool)
    requires forall i :: 0 <= i < |pics| ==> Steps(pics, up)[i].minus1 >= 0
    ensures NarrowAll(Steps(pics, up)) == Steps(pics, up) <==> Close(pics)
  {
    hide Steps;
    var steps := Steps(pics, up);
    forall i | 0 <= i < |pics|
      ensures Narrow(steps[i]) == steps[i]
        <==> -0x1_0000 <= pics[i].delta - (if i == 0 then 0 else pics[i - 1].delta) <= 0x1_0000
    {
      assert steps[i] == StepAt(pics, i, up);
    }
    assert NarrowAll(steps) == steps <==> forall i :: 0 <= i < |pics| ==> Narrow(steps[i]) == steps[i];
  }

  /** Three steps of 32768 are the longest that three entries can code. Predicting the last
      of them one further on needs a step of 98305, of which the field keeps 32769. */
  lemma {:induction false} FarPictureNarrowed(ref: Rps, f: Flags)
    requires |ref.s0| == 3 && |ref.s1| == 0 && forall i :: 0 <= i < 3 ==> ref.s0[i].minus1 == INT16_MAX
    requires FlagsFor(ref, f) && f.useDelta == [false, false, true, false]
    ensures ref.WellFormed()
    ensures Predict(ref, -1, f) == Rps([Step(98304, f.used[2])], [])
    ensures Narrowed(Predict(ref, -1, f)) == Rps([Step(32768, f.used[2])], [])
  {
    hide Select, Walk, Steps, NarrowAll, DownOrder, UpOrder;
    FarSelects(ref, f);
    StepsOne(Pic(-98305, f.used[2]));
    NarrowOne(Step(98304, f.used[2]));
  }

  lemma {:induction false} FarSelects(ref: Rps, f: Flags)
    requires |ref.s0| == 3 && |ref.s1| == 0 && forall i :: 0 <= i < 3 ==> ref.s0[i].minus1 == INT16_MAX
    requires FlagsFor(ref, f) && f.useDelta == [false, false, true, false]
    ensures Select(ref, -1, f, DownOrder(ref), false) == [Pic(-98305, f.used[2])]
    ensures Select(ref, -1, f, UpOrder(ref), true) == []
  {
    hide Select, Walk;
    WalkThree(ref.s0);
    SelectOnly(ref, -1, f, DownOrder(ref), false, 2, 3);
    SelectOnly(ref, -1, f, UpOrder(ref), true, 2, 0);
  }

  lemma {:induction false} StepsOne(pic: Pic)
    ensures Steps([pic], false) == [Step(-pic.delta - 1, pic.used)] && Steps([], true) == []
  {
  }

  lemma {:induction false} NarrowOne(step: Step)
    ensures NarrowAll([step]) == [Narrow(step)] && NarrowAll([]) == []
  {
  }

  lemma {:induction false} WalkThree(steps: seq<Step>)
    requires |steps| == 3 && forall i :: 0 <= i < 3 ==> steps[i].minus1 == INT16_MAX
    ensures Walk(steps, false)[2].delta == -98304
  {
    assert Walk(steps[..1], false)[0].delta == -32768;
    assert Walk(steps[..2], false)[1].delta == -65536 by { assert steps[..2][..1] == steps[..1]; }
    assert steps[..3][..2] == steps[..2];
  }

  /** With one flag set only its entry can be selected. */
  lemma {:induction false} SelectOnly(ref: Rps, deltaRps: int, f: Flags, order: seq<nat>, up: bool, j: nat, k: nat)
    requires FlagsFor(ref, f) && Visits(ref, order) && j <= ref.Size()
    requires forall i :: 0 <= i <= ref.Size() && i != j ==> !f.useDelta[i]
    requires forall i :: 0 <= i < |order| ==> (order[i] == j <==> i == k)
    ensures Select(ref, deltaRps, f, order, up)
      == if k < |order| && Selects(ref, deltaRps, f, j, up) then [PicAt(ref, deltaRps, f, j)] else []
  {
    if |order| > 0 {
      SelectOnly(ref, deltaRps, f, order[..|order| - 1], up, j, k);
    }
  }

  // ---- The prediction loops ----

  /** Two parallel arrays hold the first `i` entries of a delta array. */
  ghost predicate Holds(deltas: array<int>, used: array<bool>, i: nat, pics: seq<Pic>)
    reads deltas, used
  {
    && i == |pics| <= deltas.Length == used.Length
    && forall k :: 0 <= k < i ==> deltas[k] == pics[k].delta && used[k] == pics[k].used
  }

  /** The two loops that turn delta steps into a delta array. */
  method ToDeltas(steps: seq<Step>, up: bool, deltas: array<int>)
    requires |steps| <= deltas.Length
    modifies deltas
    ensures forall k :: 0 <= k < |steps| ==> deltas[k] == Walk(steps, up)[k].delta
  {
    var dPoc := 0;
    for i := 0 to |steps|
      invariant dPoc == if i == 0 then 0 else Walk(steps[..i], up)[i - 1].delta
      invariant forall k :: 0 <= k < i ==> deltas[k] == Walk(steps[..i], up)[k].delta
    {
      assert steps[..i + 1][..i] == steps[..i];
      dPoc := dPoc + if up then steps[i].minus1 + 1 else -(steps[i].minus1 + 1);
      deltas[i] := dPoc;
    }
    assert steps[..|steps|] == steps;
  }

  /** The steps stored back by the infer loop over a half. */
  method StoreSteps(deltas: array<int>, used: array<bool>, n: nat, up: bool, ghost pics: seq<Pic>)
    returns (steps: seq<Step>)
    requires Holds(deltas, used, n, pics)
    ensures steps == Steps(pics, up)
  {
    steps := [];
    for i := 0 to n
      invariant |steps| == i
      invariant forall k :: 0 <= k < i ==> steps[k] == StepAt(pics, k, up)
    {
      var previous := if i == 0 then 0 else deltas[i - 1];
      var distance := deltas[i] - previous;
      steps := steps + [Step((if up then distance else -distance) - 1, used[i])];
    }
  }

  /** Everything visited so far on one side. */
  ghost predicate Visited(ref: Rps, deltaRps: int, f: Flags, order: seq<nat>, v: nat, up: bool,
                          deltas: array<int>, used: array<bool>, i: nat)
    requires FlagsFor(ref, f) && Visits(ref, order) && v <= |order|
    reads deltas, used
  {
    Holds(deltas, used, i, Select(ref, deltaRps, f, order[..v], up))
  }

  lemma {:induction false} SelectNext(ref: Rps, deltaRps: int, f: Flags, order: seq<nat>, v: nat, up: bool)
    requires FlagsFor(ref, f) && Visits(ref, order) && v < |order|
    ensures var front := Select(ref, deltaRps, f, order[..v], up);
      Select(ref, deltaRps, f, order[..v + 1], up)
        == if Selects(ref, deltaRps, f, order[v], up) then front + [PicAt(ref, deltaRps, f, order[v])] else front
  {
    assert order[..v + 1][..v] == order[..v];
  }

  lemma {:induction false} VisitMeans(ref: Rps, deltaRps: int, f: Flags, d: int, j: nat, up: bool)
    requires FlagsFor(ref, f) && j <= ref.Size() && d == RefDelta(ref, j) + deltaRps
    ensures Selects(ref, deltaRps, f, j, up) <==> (if up then d > 0 else d < 0) && f.useDelta[j]
    ensures PicAt(ref, deltaRps, f, j) == Pic(d, f.used[j])
  {
  }

  /** One visit: `if(d_poc < 0 && use_delta_flag[j])` or its mirror image. */
  method Visit(ref: Rps, deltaRps: int, f: Flags, d: int, j: nat, up: bool,
               deltas: array<int>, used: array<bool>, i: nat, ghost order: seq<nat>, ghost v: nat) returns (n: nat)
    requires FlagsFor(ref, f) && Visits(ref, order) && v < |order| && order[v] == j
    requires d == RefDelta(ref, j) + deltaRps
    requires v < deltas.Length && deltas as object != used
    requires Visited(ref, deltaRps, f, order, v, up, deltas, used, i)
    modifies deltas, used
    ensures Visited(ref, deltaRps, f, order, v + 1, up, deltas, used, n)
  {
    hide Select, RefDelta, Selects, PicAt;
    SelectNext(ref, deltaRps, f, order, v, up);
    VisitMeans(ref, deltaRps, f, d, j, up);
    n := i;
    if (if up then d > 0 else d < 0) && f.useDelta[j] {
      deltas[n] := d;
      used[n] := f.used[j];
      n := n + 1;
    }
  }

  /** The array holds the deltas of the half whose flags start at `flag`. */
  ghost predicate Half(ref: Rps, deltas: array<int>, flag: nat, count: nat)
    reads deltas
  {
    && count <= deltas.Length && flag + count <= ref.Size()
    && forall k :: 0 <= k < count ==> deltas[k] == RefDelta(ref, flag + k)
  }

  ghost predicate VisitsHalves(ref: Rps, order: seq<nat>, farFlag: nat, farCount: nat, nearFlag: nat, nearCount: nat) {
    && |order| == ref.Size() + 1 == farCount + 1 + nearCount
    && farFlag + farCount <= ref.Size() && nearFlag + nearCount <= ref.Size()
    && (forall v :: 0 <= v < farCount ==> order[v] == farFlag + farCount - 1 - v)
    && order[farCount] == ref.Size()
    && (forall v :: farCount < v < |order| ==> order[v] == nearFlag + v - farCount - 1)
  }

  /** The entries of the opposite half, backwards. */
  method VisitFar(ref: Rps, deltaRps: int, f: Flags, up: bool, far: array<int>, count: nat, flag: nat,
                  deltas: array<int>, used: array<bool>, ghost order: seq<nat>) returns (i: nat)
    requires FlagsFor(ref, f) && Visits(ref, order) && Half(ref, far, flag, count)
    requires count <= |order| && forall v :: 0 <= v < count ==> order[v] == flag + count - 1 - v
    requires |order| <= deltas.Length == used.Length
    requires far != deltas && deltas as object != used && far as object != used
    modifies deltas, used
    ensures Visited(ref, deltaRps, f, order, count, up, deltas, used, i)
  {
    i := 0;
    var j := count - 1;
    while j >= 0
      invariant -1 <= j < count
      invariant Half(ref, far, flag, count)
      invariant Visited(ref, deltaRps, f, order, count - 1 - j, up, deltas, used, i)
    {
      i := Visit(ref, deltaRps, f, far[j] + deltaRps, flag + j, up, deltas, used, i, order, count - 1 - j);
      j := j - 1;
    }
  }

  /** The entries of this half, forwards, after `start` visits. */
  method VisitNear(ref: Rps, deltaRps: int, f: Flags, up: bool, near: array<int>, count: nat, flag: nat,
                   deltas: array<int>, used: array<bool>, i0: nat, ghost order: seq<nat>, ghost start: nat)
    returns (i: nat)
    requires FlagsFor(ref, f) && Visits(ref, order) && Half(ref, near, flag, count)
    requires start + count == |order| && forall v :: start <= v < |order| ==> order[v] == flag + v - start
    requires |order| <= deltas.Length && near != deltas && deltas as object != used && near as object != used
    requires Visited(ref, deltaRps, f, order, start, up, deltas, used, i0)
    modifies deltas, used
    ensures Visited(ref, deltaRps, f, order, start + count, up, deltas, used, i)
  {
    i := i0;
    for k := 0 to count
      invariant Half(ref, near, flag, count)
      invariant Visited(ref, deltaRps, f, order, start + k, up, deltas, used, i)
    {
      i := Visit(ref, deltaRps, f, near[k] + deltaRps, flag + k, up, deltas, used, i, order, start + k);
    }
  }

  /** One half: the opposite entries backwards, the set itself, the entries of this half
      forwards. `near` holds this half of the reference set, whose flags start at
      `nearFlag`; `far` holds the other half. */
  method PredictHalf(ref: Rps, deltaRps: int, f: Flags, up: bool,
                     near: array<int>, nearCount: nat, nearFlag: nat,
                     far: array<int>, farCount: nat, farFlag: nat, ghost order: seq<nat>)
    returns (steps: seq<Step>)
    requires FlagsFor(ref, f) && ref.Size() < HEVC_MAX_REFS && Visits(ref, order)
    requires Half(ref, near, nearFlag, nearCount) && Half(ref, far, farFlag, farCount)
    requires VisitsHalves(ref, order, farFlag, farCount, nearFlag, nearCount)
    ensures steps == Steps(Select(ref, deltaRps, f, order, up), up)
  {
    var deltas, used := new int[HEVC_MAX_REFS], new bool[HEVC_MAX_REFS];
    var i := VisitFar(ref, deltaRps, f, up, far, farCount, farFlag, deltas, used, order);
    i := Visit(ref, deltaRps, f, deltaRps, ref.Size(), up, deltas, used, i, order, farCount);
    i := VisitNear(ref, deltaRps, f, up, near, nearCount, nearFlag, deltas, used, i, order, farCount + 1);
    assert order[..|order|] == order;
    steps := StoreSteps(deltas, used, i, up, Select(ref, deltaRps, f, order, up));
  }

  /** The prediction process of st_ref_pic_set. */
  method PredictSet(ref: Rps, deltaRps: int, f: Flags) returns (derived: Rps)
    requires FlagsFor(ref, f) && ref.Size() < HEVC_MAX_DPB_SIZE
    ensures derived == Predict(ref, deltaRps, f)
  {
    var refS0, refS1 := ReferenceDeltas(ref);
    var s0 := PredictHalf(ref, deltaRps, f, false, refS0, |ref.s0|, 0, refS1, |ref.s1|, |ref.s0|, DownOrder(ref));
    var s1 := PredictHalf(ref, deltaRps, f, true, refS1, |ref.s1|, |ref.s0|, refS0, |ref.s0|, 0, UpOrder(ref));
    derived := Rps(s0, s1);
  }

  method ReferenceDeltas(ref: Rps) returns (refS0: array<int>, refS1: array<int>)
    requires ref.Size() < HEVC_MAX_REFS
    ensures fresh(refS0) && fresh(refS1)
    ensures Half(ref, refS0, 0, |ref.s0|) && Half(ref, refS1, |ref.s0|, |ref.s1|)
  {
    refS0 := new int[HEVC_MAX_REFS];
    ToDeltas(ref.s0, false, refS0);
    refS1 := new int[HEVC_MAX_REFS];
    ToDeltas(ref.s1, true, refS1);
  }
}
