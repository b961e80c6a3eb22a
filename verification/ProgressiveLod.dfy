/**
 The level-of-detail controller of the slice preview: which level a slice of a given size needs, and how repeated
 renders of one slice refine it from the coarsest level to that one, whatever time each render takes.
 Level 0 is full resolution; each level halves the resolution.
 */
module ProgressiveLod {
  import opened Bits

  const FAST_RENDER_THRESHOLD_MS := 50.0

  // ---------- sizes ----------

  /** n >> k. */
  function Halved(n: nat, k: nat): nat {
    if k == 0 then n else Halved(n / 2, k - 1)
  }

  lemma {:induction false} HalvedIsDivision(n: nat, k: nat)
    ensures Halved(n, k) * Pow2(k) <= n < (Halved(n, k) + 1) * Pow2(k)
  {
    if k > 0 {
      HalvedIsDivision(n / 2, k - 1);
      DoubledBounds(n, Halved(n / 2, k - 1), Pow2(k - 1));
    }
  }

  lemma DoubledBounds(n: nat, h: nat, p: nat)
    requires h * p <= n / 2 < (h + 1) * p
    ensures h * (2 * p) <= n < (h + 1) * (2 * p)
  {
    assert h * (2 * p) == 2 * (h * p);
    assert (h + 1) * (2 * p) == 2 * ((h + 1) * p);
  }

  /** The samples at a level of voxels from voxelMin up to voxelMax. */
  function GetLODSize(voxelMin: int, voxelMax: int, lod: nat): nat
    requires voxelMin < voxelMax
  {
    Halved(voxelMax - voxelMin - 1, lod) + 1
  }

  /** It is the least number of samples that covers the voxels, each sample standing for 2^lod of them. */
  lemma LODSizeCovers(voxelMin: int, voxelMax: int, lod: nat)
    requires voxelMin < voxelMax
    ensures var size := GetLODSize(voxelMin, voxelMax, lod);
            (size - 1) * Pow2(lod) < voxelMax - voxelMin <= size * Pow2(lod)
  {
    HalvedIsDivision(voxelMax - voxelMin - 1, lod);
  }

  // ---------- the levels of a dimension group ----------

  /** Whether a level is there and at least size samples wide. */
  predicate Suits(levels: seq<bool>, minSliceDim: nat, size: int, lod: nat) {
    lod < |levels| && levels[lod] && Halved(minSliceDim, lod) >= size
  }

  /** The coarsest suitable level below n, or 0. */
  function CoarsestBelow(levels: seq<bool>, minSliceDim: nat, size: int, n: nat): (lod: nat)
    requires n <= |levels|
    ensures lod == 0 || (lod < n && Suits(levels, minSliceDim, size, lod))
    ensures forall k :: lod < k < n ==> !Suits(levels, minSliceDim, size, k)
  {
    if n == 0 then 0 else if Suits(levels, minSliceDim, size, n - 1) then n - 1
    else CoarsestBelow(levels, minSliceDim, size, n - 1)
  }

  /** The level a slice of dim0 by dim1 samples is to be shown at in size pixels. */
  function OptimalLOD(levels: seq<bool>, dim0: nat, dim1: nat, size: int): nat {
    if |levels| <= 1 || Min(dim0, dim1) <= size then 0 else CoarsestBelow(levels, Min(dim0, dim1), size, |levels|)
  }

  /** The coarsest level there is below n, or 0. */
  function MaxBelow(levels: seq<bool>, n: nat): (lod: nat)
    requires n <= |levels|
    ensures lod == 0 || (lod < n && levels[lod])
    ensures forall k :: lod < k < n ==> !levels[k]
  {
    if n == 0 then 0 else if levels[n - 1] then n - 1 else MaxBelow(levels, n - 1)
  }

  function MaxLOD(levels: seq<bool>): nat { MaxBelow(levels, |levels|) }

  /** The level chosen by size is never coarser than the coarsest there is. */
  lemma OptimalIsAvailable(levels: seq<bool>, dim0: nat, dim1: nat, size: int)
    ensures OptimalLOD(levels, dim0, dim1, size) <= MaxLOD(levels)
  {
  }

  /** It is wide enough, or nothing but full resolution is. */
  lemma OptimalIsWideEnough(levels: seq<bool>, dim0: nat, dim1: nat, size: int)
    requires OptimalLOD(levels, dim0, dim1, size) > 0
    ensures Halved(Min(dim0, dim1), OptimalLOD(levels, dim0, dim1, size)) >= size
    ensures forall k :: OptimalLOD(levels, dim0, dim1, size) < k < |levels| && levels[k] ==>
            Halved(Min(dim0, dim1), k) < size
  {
    var lod := OptimalLOD(levels, dim0, dim1, size);
    forall k | lod < k < |levels| && levels[k] ensures Halved(Min(dim0, dim1), k) < size {
      assert !Suits(levels, Min(dim0, dim1), size, k);
    }
  }

  lemma {:induction false} HalvedIsLess(n: nat, k: nat, size: int)
    requires size >= 1 && n <= size && k >= 1
    ensures Halved(n, k) < size
    decreases k
  {
    if k > 1 {
      HalvedIsLess(n / 2, k - 1, size);
    } else {
      assert Halved(n, 1) == n / 2;
    }
  }

  /** Whatever level is chosen, no coarser one that is there is wide enough, but for no samples in no pixels. */
  lemma OptimalIsCoarsest(levels: seq<bool>, dim0: nat, dim1: nat, size: int, k: nat)
    requires (size != 0 || Min(dim0, dim1) > 0) && 0 < k < |levels| && levels[k] && Halved(Min(dim0, dim1), k) >= size
    ensures k <= OptimalLOD(levels, dim0, dim1, size)
  {
    var n := Min(dim0, dim1);
    if n <= size {
      HalvedIsLess(n, k, size);
    } else {
      assert Suits(levels, n, size, k);
    }
  }

  /** The example of the source: 1200 by 1200 samples in 400 pixels are shown at level 1. */
  lemma OptimalExample()
    ensures OptimalLOD([true, true, true], 1200, 1200, 400) == 1
  {
    var levels := [true, true, true];
    assert Halved(1200, 1) == 600 && Halved(1200, 2) == Halved(600, 1) == 300;
    OptimalIsCoarsest(levels, 1200, 1200, 400, 1);
    assert !Suits(levels, 1200, 400, 2);
  }

  method SelectOptimalLOD(levels: seq<bool>, dim0: nat, dim1: nat, size: int) returns (lod: nat)
    ensures lod == OptimalLOD(levels, dim0, dim1, size)
  {
    if |levels| <= 1 {
      return 0;
    }
    var minSliceDim := Min(dim0, dim1);
    if minSliceDim <= size {
      return 0;
    }
    var l: int := |levels| - 1;
    while l >= 0
      invariant -1 <= l < |levels|
      invariant CoarsestBelow(levels, minSliceDim, size, l + 1) == OptimalLOD(levels, dim0, dim1, size)
    {
      if levels[l] {
        var effectiveRes := Halved(minSliceDim, l);
        if effectiveRes >= size {
          return l;
        }
      }
      l := l - 1;
    }
    return 0;
  }

  method FindMaxLOD(levels: seq<bool>) returns (maxLOD: nat)
    ensures maxLOD == MaxLOD(levels)
  {
    maxLOD := 0;
    var lod: int := |levels| - 1;
    while lod >= 0
      invariant -1 <= lod < |levels| && maxLOD == 0 && MaxBelow(levels, lod + 1) == MaxLOD(levels)
    {
      if levels[lod] {
        maxLOD := lod;
        break;
      }
      lod := lod - 1;
    }
  }

  // ---------- the controller ----------

  datatype State = State(current: int, refining: bool, slice: int, dimension: int, lastMs: real)

  /** What a render is asked for: the slice, the level wanted and the coarsest level there is. */
  datatype View = View(slice: int, dimension: int, target: int, max: nat)

  predicate Pending(s: State) {
    s.refining && s.current > 0
  }

  /** The slice is not the last one rendered, or none has been rendered yet. */
  predicate SliceChanged(s: State, v: View) {
    v.slice != s.slice || v.dimension != s.dimension
  }

  /** Starting again at the coarsest level, for a new slice or if no level is set. */
  function Restarted(s: State, v: View): State {
    if SliceChanged(s, v) then State(v.max, true, v.slice, v.dimension, s.lastMs)
    else if s.current < 0 then s.(current := v.max, refining := true) else s
  }

  /** One level better after a fast render, straight to the target after a slow one. */
  function Refined(s: State, v: View): State {
    if !s.refining || s.current <= v.target then s
    else if s.lastMs < FAST_RENDER_THRESHOLD_MS then s.(current := s.current - 1) else s.(current := v.target)
  }

  function Settled(s: State, v: View): State {
    if s.current <= v.target then s.(current := v.target, refining := false) else s
  }

  /** One progressive render, up to its choice of level. */
  function Render(s: State, v: View): State {
    Settled(if SliceChanged(s, v) then Restarted(s, v) else Refined(Restarted(s, v), v), v)
  }

  /** The render is over: its time is kept, unless it was cancelled or failed. */
  function Timed(s: State, ms: Option<real>): State {
    match ms case None => s case Some(t) => s.(lastMs := t)
  }

  function Target(user: int, levels: seq<bool>, dim0: nat, dim1: nat, size: int): int {
    if user >= 0 then Min(user, |levels| - 1) else OptimalLOD(levels, dim0, dim1, size)
  }

  class LodController {
    var currentLOD: int
    var isRefining: bool
    var lastSliceIndex: int
    var lastDimension: int
    var lastRenderTimeMs: real
    var userTargetLOD: int
    var lastSelectedLOD: int

    function Now(): State
      reads this
    {
      State(currentLOD, isRefining, lastSliceIndex, lastDimension, lastRenderTimeMs)
    }

    constructor ()
      ensures Now() == State(-1, true, -1, -1, 0.0) && userTargetLOD == -1
    {
      currentLOD, isRefining, lastSliceIndex, lastDimension := -1, true, -1, -1;
      lastRenderTimeMs, userTargetLOD, lastSelectedLOD := 0.0, -1, 0;
    }

    /** A new file is opened. */
    method Reset()
      modifies this
      ensures Now() == State(-1, true, -1, -1, old(lastRenderTimeMs)) && userTargetLOD == old(userTargetLOD)
    {
      currentLOD := -1;
      lastSliceIndex := -1;
      lastDimension := -1;
      isRefining := true;
    }

    method SetUserTargetLOD(lod: int)
      modifies this`userTargetLOD
      ensures userTargetLOD == lod
    {
      userTargetLOD := lod;
    }

    predicate IsRefinementPending()
      reads this
      ensures IsRefinementPending() <==> Pending(Now())
    {
      isRefining && currentLOD > 0
    }

    /** The choice of level in a render; progressive is off for thumbnails. */
    method SelectLOD(slice: int, dimension: int, levels: seq<bool>, dim0: nat, dim1: nat, maxSize: int,
                     progressive: bool)
      returns (selectedLOD: int)
      modifies this
      ensures userTargetLOD == old(userTargetLOD) && selectedLOD == currentLOD == lastSelectedLOD
      ensures var v := View(slice, dimension, Target(userTargetLOD, levels, dim0, dim1, maxSize), MaxLOD(levels));
              Now() == if progressive || v.target < 0 then Render(old(Now()), v)
                       else State(v.target, false, slice, dimension, old(lastRenderTimeMs))
    {
      var targetLOD: int := SelectOptimalLOD(levels, dim0, dim1, maxSize);
      if userTargetLOD >= 0 {
        targetLOD := Min(userTargetLOD, |levels| - 1);
      }
      var maxLOD := FindMaxLOD(levels);
      selectedLOD := targetLOD;
      var sliceChanged := false;
      if progressive || selectedLOD < 0 {
        sliceChanged := slice != lastSliceIndex || dimension != lastDimension;
        if sliceChanged {
          currentLOD := maxLOD;
          isRefining := true;
          lastSliceIndex := slice;
          lastDimension := dimension;
        }
        if currentLOD < 0 {
          currentLOD := maxLOD;
          isRefining := true;
        }
        if isRefining && !sliceChanged && lastRenderTimeMs < FAST_RENDER_THRESHOLD_MS && currentLOD > targetLOD {
          currentLOD := currentLOD - 1;
        }
        if isRefining && !sliceChanged && lastRenderTimeMs >= FAST_RENDER_THRESHOLD_MS && currentLOD > targetLOD {
          currentLOD := targetLOD;
        }
        if currentLOD <= targetLOD {
          currentLOD := targetLOD;
          isRefining := false;
        }
        selectedLOD := currentLOD;
      } else {
        currentLOD := targetLOD;
        isRefining := false;
        lastSliceIndex := slice;
        lastDimension := dimension;
        selectedLOD := targetLOD;
      }
      lastSelectedLOD := selectedLOD;
    }

    method FinishRender(ms: Option<real>)
      modifies this`lastRenderTimeMs
      ensures Now() == Timed(old(Now()), ms)
    {
      if ms.Some? {
        lastRenderTimeMs := ms.value;
      }
    }
  }

  // ---------- renders of one slice converge ----------

  /** What an automatic choice gives: a level that is not coarser than the coarsest there is. */
  predicate InRange(v: View) {
    0 <= v.target <= v.max
  }

  lemma AutomaticInRange(levels: seq<bool>, dim0: nat, dim1: nat, size: int, slice: int, dimension: int)
    ensures InRange(View(slice, dimension, Target(-1, levels, dim0, dim1, size), MaxLOD(levels)))
  {
    OptimalIsAvailable(levels, dim0, dim1, size);
  }

  /** A level chosen by the user is in range exactly if some level as coarse is there. */
  lemma UserInRange(user: nat, levels: seq<bool>, dim0: nat, dim1: nat, size: int, slice: int, dimension: int)
    ensures InRange(View(slice, dimension, Target(user, levels, dim0, dim1, size), MaxLOD(levels))) <==>
            levels != [] &&
            (user == 0 || |levels| == 1 || exists k :: Min(user, |levels| - 1) <= k < |levels| && levels[k])
  {
    var t := Min(user, |levels| - 1);
    if t >= 1 {
      if k :| t <= k < |levels| && levels[k] {
        assert k <= MaxLOD(levels);
      } else {
        var m := MaxLOD(levels);
        assert m == 0 || levels[m];
      }
    }
  }

  /** The state after the i-th and before the next render of a view, from a first render in state s. */
  function After(s: State, v: View, ms: seq<Option<real>>, i: nat): State
    requires i <= |ms|
  {
    if i == 0 then Render(s, v) else Render(Timed(After(s, v, ms, i - 1), ms[i - 1]), v)
  }

  /** The time of the last render that was completed before the i-th, or the one known before. */
  function LastTime(ms: seq<Option<real>>, i: nat, before: real): real
    requires i <= |ms|
  {
    if i == 0 then before else match ms[i - 1] case Some(t) => t case None => LastTime(ms, i - 1, before)
  }

  lemma {:induction false} TimeIs(s: State, v: View, ms: seq<Option<real>>, i: nat)
    requires i <= |ms|
    ensures After(s, v, ms, i).lastMs == LastTime(ms, i, s.lastMs)
  {
    if i > 0 {
      TimeIs(s, v, ms, i - 1);
    }
  }

  predicate Good(s: State, v: View) {
    v.target <= s.current <= v.max && (s.refining <==> s.current > v.target) && !SliceChanged(s, v)
  }

  /** At every render the level is between the target and the coarsest, and refinement is on until it is the target. */
  lemma {:induction false} AlwaysGood(s: State, v: View, ms: seq<Option<real>>, i: nat)
    requires InRange(v) && SliceChanged(s, v) && i <= |ms|
    ensures Good(After(s, v, ms, i), v)
  {
    if i > 0 {
      AlwaysGood(s, v, ms, i - 1);
    }
  }

  /** While refining, each render shows a better level; once the target is reached it stays. */
  lemma StrictlyBetter(s: State, v: View, ms: seq<Option<real>>, i: nat)
    requires InRange(v) && SliceChanged(s, v) && i < |ms|
    ensures var before, after := After(s, v, ms, i), After(s, v, ms, i + 1);
            if before.refining then after.current < before.current
            else after == Timed(before, ms[i]) && after.current == v.target
  {
    AlwaysGood(s, v, ms, i);
    AlwaysGood(s, v, ms, i + 1);
  }

  /** After at most max - target + 1 renders the target is shown, and refinement is over; no caller is left waiting. */
  lemma {:induction false} Converges(s: State, v: View, ms: seq<Option<real>>, i: nat)
    requires InRange(v) && SliceChanged(s, v) && i <= |ms|
    ensures v.target <= After(s, v, ms, i).current <= if v.max - i < v.target then v.target else v.max - i
    ensures v.max - v.target <= i ==> After(s, v, ms, i).current == v.target
    ensures Pending(After(s, v, ms, i)) <==> After(s, v, ms, i).current != v.target
  {
    hide After, Render;
    AlwaysGood(s, v, ms, i);
    if i > 0 {
      Converges(s, v, ms, i - 1);
      StrictlyBetter(s, v, ms, i - 1);
    } else {
      assert After(s, v, ms, 0).current <= v.max;
    }
  }

  /** A slow render, from 50 milliseconds on, is the last but one; a cancelled one does not count. */
  lemma SlowJumps(s: State, v: View, ms: seq<Option<real>>, i: nat)
    requires InRange(v) && SliceChanged(s, v) && i < |ms| && LastTime(ms, i + 1, s.lastMs) >= 50.0
    ensures After(s, v, ms, i + 1).current == v.target && !Pending(After(s, v, ms, i + 1))
  {
    AlwaysGood(s, v, ms, i);
    TimeIs(s, v, ms, i);
  }

  /** With fast renders only, every level is shown in turn: the bound is reached. */
  lemma {:induction false} FastVisitsAll(s: State, v: View, ms: seq<Option<real>>, i: nat)
    requires InRange(v) && SliceChanged(s, v) && i <= |ms| && i <= v.max - v.target
    requires forall k :: 1 <= k <= |ms| ==> LastTime(ms, k, s.lastMs) < 50.0
    ensures After(s, v, ms, i).current == v.max - i
  {
    AlwaysGood(s, v, ms, i);
    if i > 0 {
      TimeIs(s, v, ms, i - 1);
      assert LastTime(ms, i, s.lastMs) < 50.0;
      FastVisitsAll(s, v, ms, i - 1);
      AlwaysGood(s, v, ms, i - 1);
    }
  }

  /** A slice shown already but with no level set starts at the coarsest, and is refined at once. */
  lemma UnsetStarts(s: State, v: View)
    requires !SliceChanged(s, v) && s.current < 0 && InRange(v)
    ensures var after := Render(s, v);
            after.current == (if s.lastMs < 50.0 then Max(v.target, v.max - 1) else v.target) &&
            (after.refining <==> after.current > v.target)
  {
  }

  // ---------- a target that changes ----------

  /**
   The target of a slice shown already changes, as when the window is resized. While refinement is on it goes on to the
   new target, one level a render at least. Once it has ended nothing starts it again.
   */
  lemma {:induction false} AfterNewTarget(s: State, v: View, ms: seq<Option<real>>, i: nat)
    requires !SliceChanged(s, v) && s.current >= 0 && v.target >= 0 && i <= |ms|
    ensures var after := After(s, v, ms, i);
            !SliceChanged(after, v) && v.target <= after.current &&
            if s.refining
            then after.current <= Max(v.target, s.current - 1 - i) && (after.refining <==> after.current > v.target)
            else after.current == Max(v.target, s.current) && !after.refining
  {
    if i > 0 {
      AfterNewTarget(s, v, ms, i - 1);
    }
  }

  /** So it is shown in the end if and only if refinement was on or it is no better than the level shown. */
  lemma NewTargetShown(s: State, v: View, ms: seq<Option<real>>, i: nat)
    requires !SliceChanged(s, v) && s.current >= 0 && v.target >= 0 && s.current <= i <= |ms|
    ensures After(s, v, ms, i).current == v.target <==> s.refining || s.current <= v.target
    ensures !Pending(After(s, v, ms, i))
  {
    AfterNewTarget(s, v, ms, i);
  }

  /** After any run that has converged, a better target is never shown, and no further render is asked for. */
  lemma BetterTargetIgnored(s: State, v: View, ms: seq<Option<real>>, better: nat, ms': seq<Option<real>>, i: nat)
    requires InRange(v) && SliceChanged(s, v) && |ms| >= v.max - v.target && better < v.target && i <= |ms'|
    ensures var converged := After(s, v, ms, |ms|);
            var after := After(converged, v.(target := better), ms', i);
            converged.current == v.target && after.current == v.target != better && !Pending(after)
  {
    AlwaysGood(s, v, ms, |ms|);
    Converges(s, v, ms, |ms|);
    AfterNewTarget(After(s, v, ms, |ms|), v.(target := better), ms', i);
  }

  // ---------- whether the level asked for is there ----------

  predicate There(levels: seq<bool>, lod: int) {
    0 <= lod < |levels| && levels[lod]
  }

  /** Every render of the slice, whatever the times, asks for a level that is there. */
  ghost predicate AlwaysThere(levels: seq<bool>, s: State, v: View) {
    forall ms: seq<Option<real>>, i: nat :: i <= |ms| ==> There(levels, After(s, v, ms, i).current)
  }

  /** Every level from the target to the coarsest is there. */
  predicate AllThere(levels: seq<bool>, v: View) {
    InRange(v) && forall k :: v.target <= k <= v.max ==> There(levels, k)
  }

  /** No level coarser than any there is, is asked for, if and only if the target is none; otherwise it always is. */
  lemma {:induction false} UserTargetTooCoarse(s: State, v: View, ms: seq<Option<real>>, i: nat)
    requires SliceChanged(s, v) && i <= |ms|
    ensures After(s, v, ms, i).current <= v.max <==> v.target <= v.max
    ensures v.target > v.max ==> After(s, v, ms, i).current == v.target
    ensures !SliceChanged(After(s, v, ms, i), v)
  {
    if i > 0 {
      UserTargetTooCoarse(s, v, ms, i - 1);
    }
  }

  /** A slow first render leads to the target, even if that is level -1. */
  lemma SlowReaches(s: State, v: View)
    requires SliceChanged(s, v) && v.target <= v.max
    ensures After(s, v, [Some(50.0)], 1).current == v.target
  {
    assert After(s, v, [Some(50.0)], 0) == Render(s, v);
  }

  /** Every level from the coarsest to the target is asked for under some times. */
  lemma LevelAskedFor(s: State, v: View, k: nat) returns (ms: seq<Option<real>>)
    requires SliceChanged(s, v) && InRange(v) && v.target <= k <= v.max
    ensures After(s, v, ms, |ms|).current == k
  {
    ms := seq(v.max - k, _ => Some(0.0));
    FastVisitsAll(s, v, ms, |ms|);
  }

  /**
   The level asked for is always there if and only if every level from the target to the coarsest is: intermediate
   levels are asked for without a look at whether they are there.
   */
  lemma AlwaysThereIff(levels: seq<bool>, s: State, v: View)
    requires SliceChanged(s, v) && v.max == MaxLOD(levels) && v.target >= -1
    ensures AlwaysThere(levels, s, v) <==> AllThere(levels, v)
  {
    hide After, There;
    if AllThere(levels, v) {
      forall ms: seq<Option<real>>, i: nat | i <= |ms| ensures There(levels, After(s, v, ms, i).current) {
        AlwaysGood(s, v, ms, i);
      }
    } else if v.target > v.max {
      UserTargetTooCoarse(s, v, [], 0);
      NotThere(levels, v.target);
    } else if v.target == -1 {
      SlowReaches(s, v);
      NotThere(levels, -1);
    } else {
      var k :| v.target <= k <= v.max && !There(levels, k);
      var ms := LevelAskedFor(s, v, k);
      assert !There(levels, After(s, v, ms, |ms|).current);
    }
  }

  /** With every level there, and a target among them, nothing is ever asked for that is not. */
  lemma AllLevelsThere(levels: seq<bool>, s: State, v: View)
    requires SliceChanged(s, v) && (forall k :: 0 <= k < |levels| ==> levels[k])
    requires v.max == MaxLOD(levels) && 0 <= v.target < |levels|
    ensures AlwaysThere(levels, s, v)
  {
    AlwaysThereIff(levels, s, v);
  }

  lemma NotThere(levels: seq<bool>, lod: int)
    requires lod == -1 || lod > MaxLOD(levels)
    ensures !There(levels, lod)
  {
  }

  /** Gaps are met by automatic targets too: full resolution is wanted, and level 1, which is missing, is asked for. */
  lemma GapAskedFor(s: State, slice: int)
    ensures var levels := [true, false, true];
            var v := View(slice, 0, Target(-1, levels, 100, 100, 60), MaxLOD(levels));
            v.target == 0 && v.max == 2 && !AllThere(levels, v) && (SliceChanged(s, v) ==> !AlwaysThere(levels, s, v))
  {
    var levels := [true, false, true];
    var v := View(slice, 0, Target(-1, levels, 100, 100, 60), MaxLOD(levels));
    GapTarget();
    assert !There(levels, 1);
    if SliceChanged(s, v) {
      AlwaysThereIff(levels, s, v);
    }
  }

  lemma GapTarget()
    ensures MaxLOD([true, false, true]) == 2 && OptimalLOD([true, false, true], 100, 100, 60) == 0
  {
    assert Halved(100, 2) == 25 && Halved(100, 1) == 50;
  }

  /** A level of the user that is coarser than any there is, is asked for although it is not there. */
  lemma MissingLevelAskedFor(s: State, slice: int, dim0: nat, dim1: nat, size: int)
    ensures var levels := [true, false];
            var v := View(slice, 0, Target(1, levels, dim0, dim1, size), MaxLOD(levels));
            v.max == 0 && (SliceChanged(s, v) ==> Render(s, v).current == 1 && !There(levels, 1))
  {
  }

  /** Level -1 is asked for from the second render on if the user set a level and there are none, and never else. */
  lemma MinusOneIff(user: int, levels: seq<bool>, dim0: nat, dim1: nat, size: int, s: State, v: View,
                    ms: seq<Option<real>>, i: nat)
    requires v.target == Target(user, levels, dim0, dim1, size) && v.max == MaxLOD(levels)
    requires SliceChanged(s, v) && i <= |ms|
    ensures After(s, v, ms, i).current == -1 <==> i >= 1 && user >= 0 && levels == []
  {
    if user >= 0 && levels == [] {
      NoLevels(s, v, ms, i);
    } else if v.target > v.max {
      UserTargetTooCoarse(s, v, ms, i);
    } else {
      AlwaysGood(s, v, ms, i);
    }
  }

  lemma {:induction false} NoLevels(s: State, v: View, ms: seq<Option<real>>, i: nat)
    requires SliceChanged(s, v) && v.target == -1 && v.max == 0 && i <= |ms|
    ensures var after := After(s, v, ms, i); !SliceChanged(after, v) && after.current == if i == 0 then 0 else -1
    ensures i == 0 ==> After(s, v, ms, i).refining
    ensures !Pending(After(s, v, ms, i))
  {
    if i > 0 {
      NoLevels(s, v, ms, i - 1);
    }
  }
}
