/**
 * The broken-part post-processing of the detector: repeatedly merging boxes
 * that overlap or lie close together, and keeping only the boxes whose area is
 * a large enough share of the largest one.
 */
module Merging {
  import opened Entity
  import opened Boxes

  /** The detector's merge test at a fixed distance, as a relation. */
  function Near(distance: int): (DefectArea, DefectArea) -> bool
  {
    (a: DefectArea, b: DefectArea) => ShouldMergeDefects(a, b, distance)
  }

  /**
   * One box joins the merged list: it is united with the first merged box it
   * should merge with, and appended when there is none.
   */
  function Absorb(merged: seq<DefectArea>, current: DefectArea, near: (DefectArea, DefectArea) -> bool): (r: seq<DefectArea>)
    ensures |r| == |merged| || |r| == |merged| + 1
    ensures |r| == |merged| + 1 <==> forall k :: 0 <= k < |merged| ==> !near(merged[k], current)
    ensures |r| == |merged| + 1 ==> r == merged + [current]
    decreases |merged|
  {
    if merged == [] then [current]
    else if near(merged[0], current) then
      [UnionDefectAreas(merged[0], current)] + merged[1..]
    else
      [merged[0]] + Absorb(merged[1..], current, near)
  }

  /** Each merged box stays inside its successor, and the absorbed box inside some box. */
  lemma {:induction false} AbsorbCovers(merged: seq<DefectArea>, current: DefectArea, near: (DefectArea, DefectArea) -> bool)
    ensures forall k :: 0 <= k < |merged| ==> Inside(merged[k], Absorb(merged, current, near)[k])
    ensures exists k :: 0 <= k < |Absorb(merged, current, near)| && Inside(current, Absorb(merged, current, near)[k])
    decreases |merged|
  {
    var r := Absorb(merged, current, near);
    if merged == [] {
      assert Inside(current, r[0]);
    } else if near(merged[0], current) {
      assert Inside(current, r[0]);
      forall k | 1 <= k < |merged|
        ensures Inside(merged[k], r[k])
      {
        assert r[k] == merged[k];
      }
    } else {
      var rest := Absorb(merged[1..], current, near);
      AbsorbCovers(merged[1..], current, near);
      assert r == [merged[0]] + rest;
      forall k | 1 <= k < |merged|
        ensures Inside(merged[k], r[k])
      {
        assert merged[k] == merged[1..][k - 1] && r[k] == rest[k - 1];
      }
      var k :| 0 <= k < |rest| && Inside(current, rest[k]);
      assert r[k + 1] == rest[k];
    }
  }

  /** Absorbing into the first box it should merge with, as the inner loop finds it. */
  lemma {:induction false} AbsorbAt(merged: seq<DefectArea>, current: DefectArea, near: (DefectArea, DefectArea) -> bool, i: nat)
    requires i < |merged|
    requires forall k :: 0 <= k < i ==> !near(merged[k], current)
    requires near(merged[i], current)
    ensures Absorb(merged, current, near) == merged[i := UnionDefectAreas(merged[i], current)]
    decreases i
  {
    if i > 0 {
      AbsorbAt(merged[1..], current, near, i - 1);
    }
  }

  /** One pass over the boxes, absorbing each in turn. */
  function MergePass(boxes: seq<DefectArea>, near: (DefectArea, DefectArea) -> bool): (r: seq<DefectArea>)
    ensures |r| <= |boxes|
    ensures |boxes| > 0 ==> |r| > 0
    decreases |boxes|
  {
    if boxes == [] then []
    else Absorb(MergePass(boxes[..|boxes| - 1], near), boxes[|boxes| - 1], near)
  }

  /**
   * Passes repeat until one merges nothing. A negative distance is treated as
   * zero; fewer than two boxes are returned as they are.
   */
  function MergeNearby(boxes: seq<DefectArea>, distance: int): seq<DefectArea>
    decreases |boxes|
  {
    if |boxes| < 2 then boxes
    else
      var d := Max(distance, 0);
      var m := MergePass(boxes, Near(d));
      if |m| == |boxes| then m else MergeNearby(m, d)
  }

  predicate Covers(outer: seq<DefectArea>, inner: seq<DefectArea>)
  {
    forall x :: x in inner ==> exists y :: y in outer && Inside(x, y)
  }

  /** No box of the list should merge with a box after it. */
  predicate NoLaterMerge(boxes: seq<DefectArea>, near: (DefectArea, DefectArea) -> bool)
  {
    forall i, j :: 0 <= i < j < |boxes| ==> !near(boxes[i], boxes[j])
  }

  /** Every input box lies inside some box of one pass's result. */
  lemma {:induction false} MergePassCovers(boxes: seq<DefectArea>, near: (DefectArea, DefectArea) -> bool)
    ensures Covers(MergePass(boxes, near), boxes)
    decreases |boxes|
  {
    if boxes != [] {
      var init := boxes[..|boxes| - 1];
      var last := boxes[|boxes| - 1];
      var prev := MergePass(init, near);
      var r := Absorb(prev, last, near);
      assert MergePass(boxes, near) == r;
      assert boxes == init + [last];
      MergePassCovers(init, near);
      AbsorbCovers(prev, last, near);
      forall x | x in boxes
        ensures exists y :: y in r && Inside(x, y)
      {
        if x in init {
          var y :| y in prev && Inside(x, y);
          var k :| 0 <= k < |prev| && prev[k] == y;
          InsideTransitive(x, y, r[k]);
          assert r[k] in r;
        } else {
          assert x == last;
          var k :| 0 <= k < |r| && Inside(last, r[k]);
          assert r[k] in r;
        }
      }
    }
  }

  /** A pass that merges nothing returns its input, which then has no mergeable pair. */
  lemma {:induction false} MergePassSameLength(boxes: seq<DefectArea>, near: (DefectArea, DefectArea) -> bool)
    requires |MergePass(boxes, near)| == |boxes|
    ensures MergePass(boxes, near) == boxes
    ensures NoLaterMerge(boxes, near)
    decreases |boxes|
  {
    if boxes != [] {
      var init := boxes[..|boxes| - 1];
      var last := boxes[|boxes| - 1];
      var prev := MergePass(init, near);
      assert |prev| == |init|;
      MergePassSameLength(init, near);
      assert prev == init;
      assert MergePass(boxes, near) == Absorb(init, last, near);
      assert |Absorb(init, last, near)| == |init| + 1;
      assert boxes == init + [last];
      forall i, j | 0 <= i < j < |boxes|
        ensures !near(boxes[i], boxes[j])
      {
        if j < |init| {
          assert boxes[i] == init[i] && boxes[j] == init[j];
        } else {
          assert boxes[i] == init[i] && boxes[j] == last;
        }
      }
    }
  }

  lemma CoversTransitive(a: seq<DefectArea>, b: seq<DefectArea>, c: seq<DefectArea>)
    requires Covers(a, b) && Covers(b, c)
    ensures Covers(a, c)
  {
    forall x | x in c
      ensures exists y :: y in a && Inside(x, y)
    {
      var z :| z in b && Inside(x, z);
      var y :| y in a && Inside(z, y);
      InsideTransitive(x, z, y);
    }
  }

  lemma CoversItself(a: seq<DefectArea>)
    ensures Covers(a, a)
  {
    forall x | x in a
      ensures Inside(x, x)
    {
    }
  }

  /**
   * The merged boxes cover every input box, there are no more of them than
   * inputs, and no two of them should merge at the (non-negative) distance.
   */
  lemma {:induction false} MergeNearbyProperties(boxes: seq<DefectArea>, distance: int)
    ensures |MergeNearby(boxes, distance)| <= |boxes|
    ensures |boxes| > 0 ==> |MergeNearby(boxes, distance)| > 0
    ensures Covers(MergeNearby(boxes, distance), boxes)
    ensures |boxes| >= 2 ==> NoLaterMerge(MergeNearby(boxes, distance), Near(Max(distance, 0)))
    decreases |boxes|
  {
    var r := MergeNearby(boxes, distance);
    if |boxes| < 2 {
      CoversItself(boxes);
    } else {
      var d := Max(distance, 0);
      var m := MergePass(boxes, Near(d));
      MergePassCovers(boxes, Near(d));
      if |m| == |boxes| {
        MergePassSameLength(boxes, Near(d));
      } else {
        MergeNearbyProperties(m, d);
        CoversTransitive(r, m, boxes);
        if |m| < 2 {
          assert r == m;
        }
      }
    }
  }

  /** Mergeability is symmetric, so no two output boxes should merge in either order. */
  lemma MergeNearbyPairwise(boxes: seq<DefectArea>, distance: int, merged: seq<DefectArea>)
    requires merged == MergeNearby(boxes, distance)
    ensures forall i, j :: 0 <= i < |merged| && 0 <= j < |merged| && i != j ==>
      !ShouldMergeDefects(merged[i], merged[j], Max(distance, 0))
  {
    if |boxes| >= 2 {
      MergeNearbyProperties(boxes, distance);
      forall i, j | 0 <= i < |merged| && 0 <= j < |merged| && i != j
        ensures !ShouldMergeDefects(merged[i], merged[j], Max(distance, 0))
      {
        if i < j {
          assert !Near(Max(distance, 0))(merged[i], merged[j]);
        } else {
          assert !Near(Max(distance, 0))(merged[j], merged[i]);
          ShouldMergeSymmetric(merged[i], merged[j], Max(distance, 0));
        }
      }
    }
  }

  /**
   * The inner loop: unites the box with the first merged box the merge test
   * accepts, or appends it.
   */
  method AbsorbBox(merged: seq<DefectArea>, current: DefectArea, near: (DefectArea, DefectArea) -> bool)
    returns (r: seq<DefectArea>)
    ensures r == Absorb(merged, current, near)
  {
    var i := 0;
    while i < |merged|
      invariant 0 <= i <= |merged|
      invariant forall k :: 0 <= k < i ==> !near(merged[k], current)
    {
      if near(merged[i], current) {
        AbsorbAt(merged, current, near, i);
        return merged[i := UnionDefectAreas(merged[i], current)];
      }
      i := i + 1;
    }
    r := merged + [current];
  }

  /** One pass of the outer loop over the boxes. */
  method MergeOnce(defects: seq<DefectArea>, near: (DefectArea, DefectArea) -> bool) returns (merged: seq<DefectArea>)
    ensures merged == MergePass(defects, near)
  {
    merged := [];
    for n := 0 to |defects|
      invariant merged == MergePass(defects[..n], near)
    {
      MergePassStep(defects, n, near);
      merged := AbsorbBox(merged, defects[n], near);
    }
    assert defects[..|defects|] == defects;
  }

  /** A pass over one more box absorbs that box into the pass over the earlier ones. */
  lemma MergePassStep(boxes: seq<DefectArea>, n: nat, near: (DefectArea, DefectArea) -> bool)
    requires n < |boxes|
    ensures MergePass(boxes[..n + 1], near) == Absorb(MergePass(boxes[..n], near), boxes[n], near)
  {
    assert boxes[..n + 1][..n] == boxes[..n];
  }

  /** The merging loop: passes over the boxes until one merges nothing. */
  method MergeNearbyDefects(defects: seq<DefectArea>, distance: int) returns (r: seq<DefectArea>)
    ensures r == MergeNearby(defects, distance)
    decreases |defects|
  {
    if |defects| < 2 {
      return defects;
    }
    var d := distance;
    if d < 0 {
      d := 0;
    }
    var merged := MergeOnce(defects, Near(d));
    if |merged| == |defects| {
      return merged;
    }
    r := MergeNearbyDefects(merged, d);
  }

  /** The largest area among the boxes, and 0 when none is positive. */
  function MaxArea(boxes: seq<DefectArea>): (m: int)
    ensures m >= 0
    ensures forall b :: b in boxes ==> b.Area <= m
    ensures m == 0 || exists b :: b in boxes && b.Area == m
    decreases |boxes|
  {
    if boxes == [] then 0
    else
      var m := MaxArea(boxes[..|boxes| - 1]);
      var last := boxes[|boxes| - 1];
      assert forall b :: b in boxes ==> b in boxes[..|boxes| - 1] || b == last;
      if last.Area > m then last.Area else m
  }

  /** The reason note a dominant box receives. */
  const DominantNote := "broken_dominant"

  function Dominant(d: DefectArea): DefectArea
  {
    d.(Reason := AppendReason(d.Reason, DominantNote))
  }

  /** The box's share of the largest area reaches `ratio`. */
  predicate Reaches(b: DefectArea, ratio: real, maxArea: int)
  {
    maxArea > 0 && b.Area as real / maxArea as real >= ratio
  }

  /** The boxes whose share of the largest area reaches `minRatio`, noted as dominant. */
  function DominantFilter(boxes: seq<DefectArea>, minRatio: real, maxArea: int): seq<DefectArea>
    requires maxArea > 0
    decreases |boxes|
  {
    if boxes == [] then []
    else
      var last := boxes[|boxes| - 1];
      DominantFilter(boxes[..|boxes| - 1], minRatio, maxArea) +
      if Reaches(last, minRatio, maxArea) then [Dominant(last)] else []
  }

  /**
   * Keeps the dominant boxes. Fewer than two boxes, a non-positive ratio or no
   * positive area leave the list unchanged; a ratio above 1 counts as 1.
   */
  function KeepDominant(boxes: seq<DefectArea>, minRatio: real): seq<DefectArea>
  {
    if |boxes| < 2 || minRatio <= 0.0 then boxes
    else
      var ratio := EffectiveRatio(minRatio);
      var maxArea := MaxArea(boxes);
      if maxArea <= 0 then boxes
      else
        var kept := DominantFilter(boxes, ratio, maxArea);
        if kept == [] then boxes else kept
  }

  /** Reaching a share is reaching the ratio times the largest area. */
  lemma ReachesMeans(b: DefectArea, ratio: real, maxArea: int)
    requires maxArea > 0
    ensures Reaches(b, ratio, maxArea) <==> b.Area as real >= ratio * maxArea as real
  {
    var m := maxArea as real;
    assert b.Area as real / m * m == b.Area as real;
  }

  /** A box is kept exactly when its area reaches the ratio times the largest area. */
  lemma {:induction false} DominantFilterMembers(boxes: seq<DefectArea>, ratio: real, maxArea: int)
    requires maxArea > 0
    ensures |DominantFilter(boxes, ratio, maxArea)| <= |boxes|
    ensures forall x :: x in DominantFilter(boxes, ratio, maxArea) ==>
      exists b :: b in boxes && x == Dominant(b) && Reaches(b, ratio, maxArea)
    ensures forall b :: b in boxes && Reaches(b, ratio, maxArea) ==>
      Dominant(b) in DominantFilter(boxes, ratio, maxArea)
    decreases |boxes|
  {
    if boxes != [] {
      var init := boxes[..|boxes| - 1];
      var last := boxes[|boxes| - 1];
      DominantFilterMembers(init, ratio, maxArea);
      assert forall b :: b in boxes ==> b in init || b == last;
      assert forall b :: b in init ==> b in boxes;
    }
  }

  /**
   * `idx` lists, in increasing order, exactly the positions of the boxes whose
   * share reaches `ratio`, and `kept` holds those boxes, noted as dominant, in
   * that order.
   */
  ghost predicate SelectsInOrder(idx: seq<int>, kept: seq<DefectArea>, boxes: seq<DefectArea>, ratio: real, maxArea: int)
  {
    && |idx| == |kept|
    && (forall i :: 0 <= i < |idx| ==>
          0 <= idx[i] < |boxes| && Reaches(boxes[idx[i]], ratio, maxArea) && kept[i] == Dominant(boxes[idx[i]]))
    && (forall i, j :: 0 <= i < j < |idx| ==> idx[i] < idx[j])
    && (forall j :: 0 <= j < |boxes| && Reaches(boxes[j], ratio, maxArea) ==> j in idx)
  }

  /** The filter keeps every reaching box, once each, in input order. */
  lemma {:induction false} DominantFilterInOrder(boxes: seq<DefectArea>, ratio: real, maxArea: int)
    requires maxArea > 0
    ensures exists idx :: SelectsInOrder(idx, DominantFilter(boxes, ratio, maxArea), boxes, ratio, maxArea)
    decreases |boxes|
  {
    if boxes == [] {
      assert DominantFilter(boxes, ratio, maxArea) == [];
      assert SelectsInOrder([], [], boxes, ratio, maxArea);
    } else {
      var n := |boxes| - 1;
      var init := boxes[..n];
      var last := boxes[n];
      DominantFilterInOrder(init, ratio, maxArea);
      var prev := DominantFilter(init, ratio, maxArea);
      var idx :| SelectsInOrder(idx, prev, init, ratio, maxArea);
      if Reaches(last, ratio, maxArea) {
        assert DominantFilter(boxes, ratio, maxArea) == prev + [Dominant(last)];
        SelectsAppend(idx, prev, boxes, ratio, maxArea);
        assert SelectsInOrder(idx + [n], DominantFilter(boxes, ratio, maxArea), boxes, ratio, maxArea);
      } else {
        assert DominantFilter(boxes, ratio, maxArea) == prev;
        SelectsSkip(idx, prev, boxes, ratio, maxArea);
      }
    }
  }

  /** Extends a selection of the first boxes by a last box that reaches the ratio. */
  lemma SelectsAppend(idx: seq<int>, prev: seq<DefectArea>, boxes: seq<DefectArea>, ratio: real, maxArea: int)
    requires |boxes| > 0 && Reaches(boxes[|boxes| - 1], ratio, maxArea)
    requires SelectsInOrder(idx, prev, boxes[..|boxes| - 1], ratio, maxArea)
    ensures SelectsInOrder(idx + [|boxes| - 1], prev + [Dominant(boxes[|boxes| - 1])], boxes, ratio, maxArea)
  {
    var n := |boxes| - 1;
    var sel, kept := idx + [n], prev + [Dominant(boxes[n])];
    forall i | 0 <= i < |idx|
      ensures 0 <= sel[i] < |boxes| && Reaches(boxes[sel[i]], ratio, maxArea) && kept[i] == Dominant(boxes[sel[i]])
    {
      assert sel[i] == idx[i] && kept[i] == prev[i] && boxes[..n][idx[i]] == boxes[idx[i]];
    }
    forall j | 0 <= j < n && Reaches(boxes[j], ratio, maxArea)
      ensures j in sel
    {
      assert boxes[..n][j] == boxes[j];
      var i :| 0 <= i < |idx| && idx[i] == j;
      assert sel[i] == j;
    }
    assert sel[n - n + |idx|] == n;
  }

  /** Extends a selection of the first boxes by a last box that does not reach the ratio. */
  lemma SelectsSkip(idx: seq<int>, prev: seq<DefectArea>, boxes: seq<DefectArea>, ratio: real, maxArea: int)
    requires |boxes| > 0 && !Reaches(boxes[|boxes| - 1], ratio, maxArea)
    requires SelectsInOrder(idx, prev, boxes[..|boxes| - 1], ratio, maxArea)
    ensures SelectsInOrder(idx, prev, boxes, ratio, maxArea)
  {
    var n := |boxes| - 1;
    forall i | 0 <= i < |idx|
      ensures 0 <= idx[i] < |boxes| && Reaches(boxes[idx[i]], ratio, maxArea) && prev[i] == Dominant(boxes[idx[i]])
    {
      assert boxes[..n][idx[i]] == boxes[idx[i]];
    }
    forall j | 0 <= j < |boxes| && Reaches(boxes[j], ratio, maxArea)
      ensures j in idx
    {
      assert j < n;
      assert boxes[..n][j] == boxes[j];
    }
  }

  /** The ratio the filter applies: a ratio above 1 counts as 1. */
  function EffectiveRatio(minRatio: real): (ratio: real)
    ensures ratio <= 1.0
    ensures minRatio <= 1.0 ==> ratio == minRatio
  {
    if minRatio > 1.0 then 1.0 else minRatio
  }

  /**
   * For two or more boxes with a positive ratio and a positive largest area:
   * the result is exactly the boxes whose area reaches the effective ratio
   * times the largest area, each with the dominant note, in input order and
   * once each, and it includes the largest box.
   */
  lemma KeepDominantProperties(boxes: seq<DefectArea>, minRatio: real, kept: seq<DefectArea>)
    requires |boxes| >= 2 && minRatio > 0.0 && MaxArea(boxes) > 0
    requires kept == KeepDominant(boxes, minRatio)
    ensures 0 < |kept| <= |boxes|
    ensures forall x :: x in kept ==>
      exists b :: b in boxes && x == Dominant(b) && Reaches(b, EffectiveRatio(minRatio), MaxArea(boxes))
    ensures forall b :: b in boxes && Reaches(b, EffectiveRatio(minRatio), MaxArea(boxes)) ==>
      Dominant(b) in kept
    ensures exists b :: b in boxes && b.Area == MaxArea(boxes) && Dominant(b) in kept
    ensures exists idx :: SelectsInOrder(idx, kept, boxes, EffectiveRatio(minRatio), MaxArea(boxes))
  {
    var ratio := EffectiveRatio(minRatio);
    var maxArea := MaxArea(boxes);
    DominantFilterMembers(boxes, ratio, maxArea);
    DominantFilterInOrder(boxes, ratio, maxArea);
    var b :| b in boxes && b.Area == maxArea;
    LargestReaches(b, ratio, maxArea);
    assert Dominant(b) in DominantFilter(boxes, ratio, maxArea);
    assert kept == DominantFilter(boxes, ratio, maxArea);
  }

  /** A box of the largest area has share 1, which reaches any ratio up to 1. */
  lemma LargestReaches(b: DefectArea, ratio: real, maxArea: int)
    requires maxArea > 0 && b.Area == maxArea && ratio <= 1.0
    ensures Reaches(b, ratio, maxArea)
  {
    assert b.Area as real / maxArea as real == 1.0;
  }

  /** Outside the active case the boxes come back unchanged. */
  lemma KeepDominantInactive(boxes: seq<DefectArea>, minRatio: real)
    requires |boxes| < 2 || minRatio <= 0.0 || MaxArea(boxes) == 0
    ensures KeepDominant(boxes, minRatio) == boxes
  {
  }

  /** The loop finding the largest area, starting from 0. */
  method LargestArea(defects: seq<DefectArea>) returns (maxArea: int)
    ensures maxArea == MaxArea(defects)
  {
    maxArea := 0;
    for n := 0 to |defects|
      invariant maxArea == MaxArea(defects[..n])
    {
      MaxAreaStep(defects, n);
      if defects[n].Area > maxArea {
        maxArea := defects[n].Area;
      }
    }
    assert defects[..|defects|] == defects;
  }

  lemma MaxAreaStep(boxes: seq<DefectArea>, n: nat)
    requires n < |boxes|
    ensures MaxArea(boxes[..n + 1]) == if boxes[n].Area > MaxArea(boxes[..n]) then boxes[n].Area else MaxArea(boxes[..n])
  {
    assert boxes[..n + 1][..n] == boxes[..n];
  }

  /** The filtering loop: keeps, with the dominant note, each box whose share reaches the ratio. */
  method FilterDominant(defects: seq<DefectArea>, ratio: real, maxArea: int) returns (kept: seq<DefectArea>)
    requires maxArea > 0
    ensures kept == DominantFilter(defects, ratio, maxArea)
  {
    kept := [];
    for n := 0 to |defects|
      invariant kept == DominantFilter(defects[..n], ratio, maxArea)
    {
      DominantFilterStep(defects, n, ratio, maxArea);
      var defect := defects[n];
      var share := defect.Area as real / maxArea as real;
      if share >= ratio {
        defect := defect.(Reason := AppendReason(defect.Reason, DominantNote));
        kept := kept + [defect];
        continue;
      }
    }
    assert defects[..|defects|] == defects;
  }

  lemma DominantFilterStep(boxes: seq<DefectArea>, n: nat, ratio: real, maxArea: int)
    requires n < |boxes| && maxArea > 0
    ensures DominantFilter(boxes[..n + 1], ratio, maxArea) ==
      DominantFilter(boxes[..n], ratio, maxArea) + if Reaches(boxes[n], ratio, maxArea) then [Dominant(boxes[n])] else []
  {
    assert boxes[..n + 1][..n] == boxes[..n];
  }

  /** The dominant-box loops: the largest area, then the filter. */
  method KeepDominantBrokenDefects(defects: seq<DefectArea>, minRatio: real) returns (r: seq<DefectArea>)
    ensures r == KeepDominant(defects, minRatio)
  {
    if |defects| < 2 {
      return defects;
    }
    if minRatio <= 0.0 {
      return defects;
    }
    var ratio := minRatio;
    if ratio > 1.0 {
      ratio := 1.0;
    }
    var maxArea := LargestArea(defects);
    if maxArea <= 0 {
      return defects;
    }
    var kept := FilterDominant(defects, ratio, maxArea);
    assert ratio == EffectiveRatio(minRatio);
    if |kept| == 0 {
      return defects;
    }
    return kept;
  }
}
