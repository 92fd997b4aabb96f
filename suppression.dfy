/**
 * Candidate extraction and duplicate suppression: the per-contour acceptance
 * filter and the greedy largest-first non-max suppression that follows it.
 */
module Suppression {
  import opened Wrappers
  import opened Entity
  import opened Boxes
  import opened Profile

  /** `candidate` duplicates `existing` when either overlap measure reaches its threshold. */
  predicate Suppresses(candidate: DefectArea, existing: DefectArea, iouThreshold: real, containmentRatio: real)
  {
    BoxIoU(candidate, existing) >= iouThreshold || BoxContainment(candidate, existing) >= containmentRatio
  }

  /** The suppression test at the profile's thresholds, as a relation. */
  function Duplicate(iouThreshold: real, containmentRatio: real): (DefectArea, DefectArea) -> bool
  {
    (candidate: DefectArea, existing: DefectArea) => Suppresses(candidate, existing, iouThreshold, containmentRatio)
  }

  predicate ConflictsWithKept(candidate: DefectArea, kept: seq<DefectArea>, dup: (DefectArea, DefectArea) -> bool)
  {
    exists k :: 0 <= k < |kept| && dup(candidate, kept[k])
  }

  predicate SortedByAreaDesc(s: seq<DefectArea>)
  {
    forall i, j :: 0 <= i < j < |s| ==> s[i].Area >= s[j].Area
  }

  /** `idx` picks the elements of `a` out of `b`, in increasing positions. */
  ghost predicate Embeds<T>(idx: seq<int>, a: seq<T>, b: seq<T>)
  {
    && |idx| == |a|
    && (forall i :: 0 <= i < |idx| ==> 0 <= idx[i] < |b| && a[i] == b[idx[i]])
    && (forall i, j :: 0 <= i < j < |idx| ==> idx[i] < idx[j])
  }

  /** `a` is `b` with some elements left out and the rest in their original order. */
  ghost predicate IsSubsequence<T>(a: seq<T>, b: seq<T>)
  {
    exists idx :: Embeds(idx, a, b)
  }

  /**
   * One greedy pass: each box, in order, is kept unless it duplicates (by
   * `dup`) a box kept before it.
   */
  function GreedyKeep(boxes: seq<DefectArea>, dup: (DefectArea, DefectArea) -> bool): seq<DefectArea>
    decreases |boxes|
  {
    if boxes == [] then []
    else
      var prev := GreedyKeep(boxes[..|boxes| - 1], dup);
      var candidate := boxes[|boxes| - 1];
      if ConflictsWithKept(candidate, prev, dup) then prev else prev + [candidate]
  }

  /** The kept boxes are a subsequence of the input. */
  lemma {:induction false} GreedyKeepIsSubsequence(boxes: seq<DefectArea>, dup: (DefectArea, DefectArea) -> bool)
    ensures IsSubsequence(GreedyKeep(boxes, dup), boxes)
    decreases |boxes|
  {
    if boxes == [] {
      assert Embeds([], [], boxes);
    } else {
      var init := boxes[..|boxes| - 1];
      GreedyKeepIsSubsequence(init, dup);
      var prev := GreedyKeep(init, dup);
      var idx :| Embeds(idx, prev, init);
      var candidate := boxes[|boxes| - 1];
      if ConflictsWithKept(candidate, prev, dup) {
        assert Embeds(idx, prev, boxes);
      } else {
        assert Embeds(idx + [|boxes| - 1], prev + [candidate], boxes);
      }
    }
  }

  /** A subsequence keeps the elements and the descending order of what it was taken from. */
  lemma SubsequenceOfSorted(a: seq<DefectArea>, b: seq<DefectArea>)
    requires IsSubsequence(a, b)
    ensures |a| <= |b|
    ensures forall x :: x in a ==> x in b
    ensures SortedByAreaDesc(b) ==> SortedByAreaDesc(a)
  {
    var idx :| Embeds(idx, a, b);
    EmbedsShorter(idx, a, b);
    forall x | x in a
      ensures x in b
    {
      var i :| 0 <= i < |a| && a[i] == x;
      assert b[idx[i]] == x;
    }
  }

  /** An increasing index sequence into `b` is no longer than `b`. */
  lemma EmbedsShorter<T>(idx: seq<int>, a: seq<T>, b: seq<T>)
    requires Embeds(idx, a, b)
    ensures |a| <= |b|
  {
    if |idx| > 0 {
      IndexAtLeastPosition(idx, a, b, |idx| - 1);
    }
  }

  lemma {:induction false} IndexAtLeastPosition<T>(idx: seq<int>, a: seq<T>, b: seq<T>, i: nat)
    requires Embeds(idx, a, b) && i < |idx|
    ensures idx[i] >= i
  {
    if i > 0 {
      IndexAtLeastPosition(idx, a, b, i - 1);
    }
  }

  /** Whether one box duplicates another does not depend on which of the two is the candidate. */
  lemma SuppressesSymmetric(a: DefectArea, b: DefectArea, iouThreshold: real, containmentRatio: real)
    ensures Suppresses(a, b, iouThreshold, containmentRatio) == Suppresses(b, a, iouThreshold, containmentRatio)
  {
    OverlapMeasuresSymmetric(a, b);
  }

  /** No kept box duplicates a box kept before it. */
  lemma {:induction false} GreedyKeepNoLaterDuplicate(boxes: seq<DefectArea>, dup: (DefectArea, DefectArea) -> bool)
    ensures forall i, j :: 0 <= j < i < |GreedyKeep(boxes, dup)| ==>
      !dup(GreedyKeep(boxes, dup)[i], GreedyKeep(boxes, dup)[j])
    decreases |boxes|
  {
    if boxes != [] {
      var init := boxes[..|boxes| - 1];
      GreedyKeepNoLaterDuplicate(init, dup);
      var prev := GreedyKeep(init, dup);
      var candidate := boxes[|boxes| - 1];
      if !ConflictsWithKept(candidate, prev, dup) {
        var kept := prev + [candidate];
        forall i, j | 0 <= j < i < |kept|
          ensures !dup(kept[i], kept[j])
        {
          assert kept[j] == prev[j];
          if i < |prev| {
            assert kept[i] == prev[i];
          } else {
            assert kept[i] == candidate;
            assert !(0 <= j < |prev| && dup(candidate, prev[j]));
          }
        }
        assert GreedyKeep(boxes, dup) == kept;
      }
    }
  }

  /** At the detector's test, no kept box duplicates another kept box, in either argument order. */
  lemma GreedyKeepPairwise(boxes: seq<DefectArea>, kept: seq<DefectArea>, iouThreshold: real, containmentRatio: real)
    requires kept == GreedyKeep(boxes, Duplicate(iouThreshold, containmentRatio))
    ensures forall i, j :: 0 <= i < |kept| && 0 <= j < |kept| && i != j ==>
      !Suppresses(kept[i], kept[j], iouThreshold, containmentRatio)
  {
    var dup := Duplicate(iouThreshold, containmentRatio);
    GreedyKeepNoLaterDuplicate(boxes, dup);
    forall i, j | 0 <= i < |kept| && 0 <= j < |kept| && i != j
      ensures !Suppresses(kept[i], kept[j], iouThreshold, containmentRatio)
    {
      if i < j {
        assert !dup(kept[j], kept[i]);
        SuppressesSymmetric(kept[i], kept[j], iouThreshold, containmentRatio);
      } else {
        assert !dup(kept[i], kept[j]);
      }
    }
  }

  /** The first box always survives, and it comes first. */
  lemma {:induction false} GreedyKeepKeepsFirst(boxes: seq<DefectArea>, dup: (DefectArea, DefectArea) -> bool)
    requires |boxes| > 0
    ensures |GreedyKeep(boxes, dup)| > 0
    ensures GreedyKeep(boxes, dup)[0] == boxes[0]
    decreases |boxes|
  {
    var init := boxes[..|boxes| - 1];
    if |boxes| > 1 {
      GreedyKeepKeepsFirst(init, dup);
    }
  }

  /** The pass over the first `n` boxes keeps a prefix of what the pass over all of them keeps. */
  lemma {:induction false} GreedyKeepPrefix(boxes: seq<DefectArea>, dup: (DefectArea, DefectArea) -> bool, n: nat)
    requires n <= |boxes|
    ensures |GreedyKeep(boxes[..n], dup)| <= |GreedyKeep(boxes, dup)|
    ensures GreedyKeep(boxes, dup)[..|GreedyKeep(boxes[..n], dup)|] == GreedyKeep(boxes[..n], dup)
    decreases |boxes| - n
  {
    if n == |boxes| {
      assert boxes[..n] == boxes;
    } else {
      GreedyKeepPrefix(boxes, dup, n + 1);
      var p := GreedyKeep(boxes[..n], dup);
      var q := GreedyKeep(boxes[..n + 1], dup);
      assert boxes[..n + 1][..n] == boxes[..n];
      assert |p| <= |q| && q[..|p|] == p;
    }
  }

  /** A box is dropped only when it duplicates a box kept before it. */
  lemma GreedyKeepDropsOnlyDuplicates(boxes: seq<DefectArea>, dup: (DefectArea, DefectArea) -> bool)
    ensures forall i :: 0 <= i < |boxes| ==>
      boxes[i] in GreedyKeep(boxes, dup) || ConflictsWithKept(boxes[i], GreedyKeep(boxes[..i], dup), dup)
  {
    forall i | 0 <= i < |boxes|
      ensures boxes[i] in GreedyKeep(boxes, dup) || ConflictsWithKept(boxes[i], GreedyKeep(boxes[..i], dup), dup)
    {
      GreedyKeepPrefix(boxes, dup, i + 1);
      assert boxes[..i + 1][..i] == boxes[..i];
      var q := GreedyKeep(boxes[..i + 1], dup);
      if !ConflictsWithKept(boxes[i], GreedyKeep(boxes[..i], dup), dup) {
        assert q[|q| - 1] == boxes[i];
        assert GreedyKeep(boxes, dup)[|q| - 1] == boxes[i];
      }
    }
  }

  /** Every input box is kept or duplicates a kept box. */
  lemma GreedyKeepAccountsForAll(boxes: seq<DefectArea>, dup: (DefectArea, DefectArea) -> bool)
    ensures forall d :: d in boxes ==>
      d in GreedyKeep(boxes, dup) || exists k :: k in GreedyKeep(boxes, dup) && dup(d, k)
  {
    GreedyKeepDropsOnlyDuplicates(boxes, dup);
    var kept := GreedyKeep(boxes, dup);
    forall d | d in boxes && d !in kept
      ensures exists k :: k in kept && dup(d, k)
    {
      var i :| 0 <= i < |boxes| && boxes[i] == d;
      GreedyKeepPrefix(boxes, dup, i);
      var prev := GreedyKeep(boxes[..i], dup);
      var t :| 0 <= t < |prev| && dup(d, prev[t]);
      assert kept[t] == prev[t];
    }
  }

  /** Insertion sort of the boxes by area, largest first, in place. */
  method SortByAreaDesc(a: array<DefectArea>)
    modifies a
    ensures SortedByAreaDesc(a[..])
    ensures multiset(a[..]) == multiset(old(a[..]))
  {
    var i := 0;
    while i < a.Length
      invariant 0 <= i <= a.Length
      invariant forall p, q :: 0 <= p < q < i ==> a[p].Area >= a[q].Area
      invariant multiset(a[..]) == multiset(old(a[..]))
    {
      InsertIntoSorted(a, i);
      i := i + 1;
    }
  }

  /** One step of the sort: moves `a[i]` down into the sorted prefix `a[..i]`. */
  method InsertIntoSorted(a: array<DefectArea>, i: int)
    requires 0 <= i < a.Length
    requires forall p, q :: 0 <= p < q < i ==> a[p].Area >= a[q].Area
    modifies a
    ensures forall p, q :: 0 <= p < q <= i ==> a[p].Area >= a[q].Area
    ensures multiset(a[..]) == multiset(old(a[..]))
  {
    var j := i;
    while j > 0 && a[j - 1].Area < a[j].Area
      invariant 0 <= j <= i
      invariant forall p, q :: 0 <= p < q <= i && q != j ==> a[p].Area >= a[q].Area
      invariant multiset(a[..]) == multiset(old(a[..]))
    {
      ghost var before := a[..];
      a[j - 1], a[j] := a[j], a[j - 1];
      assert a[..] == before[j - 1 := before[j]][j := before[j - 1]];
      j := j - 1;
    }
  }

  /**
   * Greedy largest-first non-max suppression. The caller's boxes are sorted in
   * place by area (ties in an unspecified order) and the survivors returned.
   */
  method SuppressDuplicateDefects(defects: array<DefectArea>, iouThreshold: real, containmentRatio: real)
    returns (kept: seq<DefectArea>)
    modifies defects
    ensures defects.Length < 2 ==> defects[..] == old(defects[..]) && kept == defects[..]
    ensures multiset(defects[..]) == multiset(old(defects[..]))
    ensures defects.Length >= 2 ==>
      SortedByAreaDesc(defects[..]) && kept == GreedyKeep(defects[..], Duplicate(iouThreshold, containmentRatio))
  {
    if defects.Length < 2 {
      return defects[..];
    }
    SortByAreaDesc(defects);
    kept := [];
    var i := 0;
    while i < defects.Length
      invariant 0 <= i <= defects.Length
      invariant kept == GreedyKeep(defects[..i], Duplicate(iouThreshold, containmentRatio))
    {
      var candidate := defects[i];
      var drop := false;
      var k := 0;
      while k < |kept|
        invariant 0 <= k <= |kept|
        invariant !drop
        invariant forall t :: 0 <= t < k ==> !Suppresses(candidate, kept[t], iouThreshold, containmentRatio)
      {
        var existing := kept[k];
        var iou := BoxIoU(candidate, existing);
        var containment := BoxContainment(candidate, existing);
        if iou >= iouThreshold || containment >= containmentRatio {
          drop := true;
          break;
        }
        k := k + 1;
      }
      assert drop == ConflictsWithKept(candidate, kept, Duplicate(iouThreshold, containmentRatio));
      if !drop {
        kept := kept + [candidate];
      }
      assert defects[..i + 1][..i] == defects[..i];
      i := i + 1;
    }
    assert defects[..i] == defects[..];
  }

  /** What the detector reads off one contour: its bounding box and its true (contour) area. */
  datatype Contour = Contour(X: int, Y: int, Width: nat, Height: nat, Area: real)

  /** The acceptance filter for one contour, test by test in the detector's order. */
  function CandidateOf(c: Contour, minRectArea: int, minContourArea: real, p: DetectionProfile, tag: string): Option<DefectArea>
  {
    var rectArea := c.Width * c.Height;
    if rectArea < minRectArea || rectArea <= 0 then None
    else if c.Height == 0 then None
    else if c.Area < minContourArea then None
    else
      var aspect := c.Width as real / c.Height as real;
      if aspect < p.MinAspectRatio || aspect > p.MaxAspectRatio then None
      else if c.Area / rectArea as real < p.MinFillRatio then None
      else Some(DefectArea(c.X, c.Y, c.Width, c.Height, rectArea, tag))
  }

  /** The filter's conditions as one conjunction, ratios cross-multiplied. */
  predicate Acceptable(c: Contour, minRectArea: int, minContourArea: real, p: DetectionProfile)
  {
    && c.Width > 0 && c.Height > 0
    && c.Width * c.Height >= minRectArea
    && c.Area >= minContourArea
    && p.MinAspectRatio * c.Height as real <= c.Width as real <= p.MaxAspectRatio * c.Height as real
    && c.Area >= p.MinFillRatio * (c.Width * c.Height) as real
  }

  function BoxOf(c: Contour, tag: string): DefectArea
  {
    DefectArea(c.X, c.Y, c.Width, c.Height, c.Width * c.Height, tag)
  }

  /** A contour yields a candidate exactly when it meets every condition, and the candidate is its bounding box. */
  lemma CandidateOfAccepts(c: Contour, minRectArea: int, minContourArea: real, p: DetectionProfile, tag: string)
    ensures CandidateOf(c, minRectArea, minContourArea, p, tag).Some? <==> Acceptable(c, minRectArea, minContourArea, p)
    ensures CandidateOf(c, minRectArea, minContourArea, p, tag).Some? ==>
      CandidateOf(c, minRectArea, minContourArea, p, tag).value == BoxOf(c, tag)
  {
    var rectArea := c.Width * c.Height;
    if c.Width > 0 && c.Height > 0 {
      MulPositive(c.Width, c.Height);
      var w, h, ra := c.Width as real, c.Height as real, rectArea as real;
      assert (w / h < p.MinAspectRatio) <==> (w < p.MinAspectRatio * h) by {
        assert w / h * h == w;
        RealScale(w / h, p.MinAspectRatio, h);
      }
      assert (w / h > p.MaxAspectRatio) <==> (w > p.MaxAspectRatio * h) by {
        assert w / h * h == w;
        RealScale(p.MaxAspectRatio, w / h, h);
      }
      assert (c.Area / ra < p.MinFillRatio) <==> (c.Area < p.MinFillRatio * ra) by {
        assert c.Area / ra * ra == c.Area;
        RealScale(c.Area / ra, p.MinFillRatio, ra);
      }
    } else {
      assert rectArea == 0;
    }
  }

  lemma RealScale(x: real, y: real, k: real)
    requires k > 0.0
    ensures x < y <==> x * k < y * k
  {
  }

  /** The candidates of a list of contours, in contour order. */
  function Candidates(cs: seq<Contour>, minRectArea: int, minContourArea: real, p: DetectionProfile, tag: string): seq<DefectArea>
    decreases |cs|
  {
    if cs == [] then []
    else
      Candidates(cs[..|cs| - 1], minRectArea, minContourArea, p, tag) +
      match CandidateOf(cs[|cs| - 1], minRectArea, minContourArea, p, tag)
      case Some(d) => [d]
      case None => []
  }

  /** Every candidate is the bounding box of an acceptable contour. */
  lemma {:induction false} CandidatesFromAcceptable(cs: seq<Contour>, minRectArea: int, minContourArea: real, p: DetectionProfile, tag: string)
    ensures forall d :: d in Candidates(cs, minRectArea, minContourArea, p, tag) ==>
      exists c :: c in cs && Acceptable(c, minRectArea, minContourArea, p) && d == BoxOf(c, tag)
    decreases |cs|
  {
    if cs != [] {
      var init := cs[..|cs| - 1];
      var last := cs[|cs| - 1];
      CandidatesFromAcceptable(init, minRectArea, minContourArea, p, tag);
      CandidateOfAccepts(last, minRectArea, minContourArea, p, tag);
      forall d | d in Candidates(cs, minRectArea, minContourArea, p, tag)
        ensures exists c :: c in cs && Acceptable(c, minRectArea, minContourArea, p) && d == BoxOf(c, tag)
      {
        if d in Candidates(init, minRectArea, minContourArea, p, tag) {
          var c :| c in init && Acceptable(c, minRectArea, minContourArea, p) && d == BoxOf(c, tag);
          assert c in cs;
        } else {
          assert last in cs;
        }
      }
    }
  }

  /** The box of an acceptable contour is well formed and has positive area. */
  lemma AcceptableBox(c: Contour, minRectArea: int, minContourArea: real, p: DetectionProfile, tag: string)
    requires Acceptable(c, minRectArea, minContourArea, p)
    ensures WellFormed(BoxOf(c, tag)) && BoxOf(c, tag).Area > 0 && BoxOf(c, tag).Area >= minRectArea
  {
    MulPositive(c.Width, c.Height);
  }

  /** The reason tag a candidate carries: the stage tag, "contour" when none is given. */
  function ReasonTag(reasonTag: string): (tag: string)
    ensures tag != ""
    ensures reasonTag != "" ==> tag == reasonTag
  {
    if reasonTag == "" then "contour" else reasonTag
  }

  /** The contour loop: applies the acceptance filter to each contour in turn. */
  method CollectCandidates(contours: seq<Contour>, minRectArea: int, minContourArea: real, p: DetectionProfile, tag: string)
    returns (candidates: seq<DefectArea>)
    ensures candidates == Candidates(contours, minRectArea, minContourArea, p, tag)
  {
    candidates := [];
    for i := 0 to |contours|
      invariant candidates == Candidates(contours[..i], minRectArea, minContourArea, p, tag)
    {
      assert contours[..i + 1][..i] == contours[..i];
      var c := contours[i];
      var rectArea := c.Width * c.Height;
      if rectArea < minRectArea || rectArea <= 0 {
        continue;
      }
      if c.Height == 0 {
        continue;
      }
      if c.Area < minContourArea {
        continue;
      }
      var aspect := c.Width as real / c.Height as real;
      if aspect < p.MinAspectRatio || aspect > p.MaxAspectRatio {
        continue;
      }
      var fillRatio := c.Area / rectArea as real;
      if fillRatio < p.MinFillRatio {
        continue;
      }
      candidates := candidates + [DefectArea(c.X, c.Y, c.Width, c.Height, rectArea, tag)];
    }
    assert contours[..|contours|] == contours;
  }

  /** What suppression guarantees about a list sorted by area. */
  lemma GreedyKeepOfSorted(sorted: seq<DefectArea>, kept: seq<DefectArea>, iouThreshold: real, containmentRatio: real)
    requires SortedByAreaDesc(sorted)
    requires kept == GreedyKeep(sorted, Duplicate(iouThreshold, containmentRatio))
    ensures |kept| <= |sorted|
    ensures forall d :: d in kept ==> d in sorted
    ensures SortedByAreaDesc(kept)
    ensures forall i, j :: 0 <= i < |kept| && 0 <= j < |kept| && i != j ==>
      !Suppresses(kept[i], kept[j], iouThreshold, containmentRatio)
    ensures |sorted| > 0 ==> |kept| > 0 && forall d :: d in sorted ==> d.Area <= kept[0].Area
  {
    var dup := Duplicate(iouThreshold, containmentRatio);
    GreedyKeepIsSubsequence(sorted, dup);
    SubsequenceOfSorted(kept, sorted);
    GreedyKeepPairwise(sorted, kept, iouThreshold, containmentRatio);
    if |sorted| > 0 {
      GreedyKeepKeepsFirst(sorted, dup);
    }
  }

  /** What suppression of the candidates, sorted in place, leaves. */
  lemma SuppressedCandidates(candidates: seq<DefectArea>, sorted: seq<DefectArea>, kept: seq<DefectArea>,
                             iouThreshold: real, containmentRatio: real)
    requires multiset(sorted) == multiset(candidates)
    requires |candidates| < 2 ==> sorted == candidates && kept == sorted
    requires |candidates| >= 2 ==>
      SortedByAreaDesc(sorted) && kept == GreedyKeep(sorted, Duplicate(iouThreshold, containmentRatio))
    ensures |kept| <= |candidates|
    ensures forall d :: d in kept ==> d in candidates
    ensures SortedByAreaDesc(kept)
    ensures forall i, j :: 0 <= i < |kept| && 0 <= j < |kept| && i != j ==>
      !Suppresses(kept[i], kept[j], iouThreshold, containmentRatio)
    ensures |candidates| > 0 ==> |kept| > 0 && forall d :: d in candidates ==> d.Area <= kept[0].Area
    ensures SortedByAreaDesc(sorted) && kept == GreedyKeep(sorted, Duplicate(iouThreshold, containmentRatio))
    ensures forall d :: d in candidates ==>
      d in kept || exists k :: k in kept && Suppresses(d, k, iouThreshold, containmentRatio)
  {
    var dup := Duplicate(iouThreshold, containmentRatio);
    if |candidates| == 1 {
      assert sorted[..0] == [];
      assert GreedyKeep(sorted, dup) == sorted;
    }
    GreedyKeepAccountsForAll(sorted, dup);
    assert |sorted| == |candidates| by {
      assert |multiset(sorted)| == |multiset(candidates)|;
    }
    assert forall d :: d in sorted <==> d in candidates by {
      assert forall d :: d in sorted <==> d in multiset(sorted);
      assert forall d :: d in candidates <==> d in multiset(candidates);
    }
    if |candidates| >= 2 {
      GreedyKeepOfSorted(sorted, kept, iouThreshold, containmentRatio);
    }
  }

  /** What the extraction promises, from the candidates and their suppression. */
  lemma ExtractedDefects(
    contours: seq<Contour>, imageWidth: int, imageHeight: int, minRectArea: int,
    reasonTag: string, p: DetectionProfile,
    candidates: seq<DefectArea>, sorted: seq<DefectArea>, defects: seq<DefectArea>)
    requires candidates == Candidates(contours, minRectArea, (imageWidth * imageHeight) as real * p.MinContourAreaRatio, p, ReasonTag(reasonTag))
    requires multiset(sorted) == multiset(candidates)
    requires |candidates| < 2 ==> sorted == candidates && defects == sorted
    requires |candidates| >= 2 ==>
      SortedByAreaDesc(sorted) && defects == GreedyKeep(sorted, Duplicate(p.NMSIoUThreshold, p.NMSContainmentRatio))
    ensures forall d :: d in defects ==>
      && WellFormed(d) && d.Area > 0 && d.Area >= minRectArea
      && exists c :: c in contours && d == BoxOf(c, ReasonTag(reasonTag))
           && Acceptable(c, minRectArea, (imageWidth * imageHeight) as real * p.MinContourAreaRatio, p)
    ensures SortedByAreaDesc(defects)
    ensures forall i, j :: 0 <= i < |defects| && 0 <= j < |defects| && i != j ==>
      !Suppresses(defects[i], defects[j], p.NMSIoUThreshold, p.NMSContainmentRatio)
    ensures var all := Candidates(contours, minRectArea, (imageWidth * imageHeight) as real * p.MinContourAreaRatio, p, ReasonTag(reasonTag));
      && |defects| <= |all|
      && (|all| > 0 ==> |defects| > 0 && forall d :: d in all ==> d.Area <= defects[0].Area)
      && (forall d :: d in all ==>
            d in defects || exists k :: k in defects && Suppresses(d, k, p.NMSIoUThreshold, p.NMSContainmentRatio))
      && (exists s :: multiset(s) == multiset(all) && SortedByAreaDesc(s)
            && defects == GreedyKeep(s, Duplicate(p.NMSIoUThreshold, p.NMSContainmentRatio)))
  {
    var tag := ReasonTag(reasonTag);
    var minContourArea := (imageWidth * imageHeight) as real * p.MinContourAreaRatio;
    CandidatesFromAcceptable(contours, minRectArea, minContourArea, p, tag);
    SuppressedCandidates(candidates, sorted, defects, p.NMSIoUThreshold, p.NMSContainmentRatio);
    forall d | d in defects
      ensures WellFormed(d) && d.Area > 0 && d.Area >= minRectArea
    {
      var c :| c in contours && Acceptable(c, minRectArea, minContourArea, p) && d == BoxOf(c, tag);
      AcceptableBox(c, minRectArea, minContourArea, p, tag);
    }
  }

  /**
   * Turns contours into candidate boxes and removes duplicates. The rectangle
   * area floor `minRectArea` is a parameter; the contour area floor is the
   * image area times the profile's ratio.
   */
  method ExtractDefectsFromContours(
    contours: seq<Contour>, imageWidth: int, imageHeight: int, minRectArea: int,
    reasonTag: string, p: DetectionProfile)
    returns (defects: seq<DefectArea>)
    ensures forall d :: d in defects ==>
      && WellFormed(d) && d.Area > 0 && d.Area >= minRectArea
      && exists c :: c in contours && d == BoxOf(c, ReasonTag(reasonTag))
           && Acceptable(c, minRectArea, (imageWidth * imageHeight) as real * p.MinContourAreaRatio, p)
    ensures SortedByAreaDesc(defects)
    ensures forall i, j :: 0 <= i < |defects| && 0 <= j < |defects| && i != j ==>
      !Suppresses(defects[i], defects[j], p.NMSIoUThreshold, p.NMSContainmentRatio)
    ensures var all := Candidates(contours, minRectArea, (imageWidth * imageHeight) as real * p.MinContourAreaRatio, p, ReasonTag(reasonTag));
      && |defects| <= |all|
      && (|all| > 0 ==> |defects| > 0 && forall d :: d in all ==> d.Area <= defects[0].Area)
      && (forall d :: d in all ==>
            d in defects || exists k :: k in defects && Suppresses(d, k, p.NMSIoUThreshold, p.NMSContainmentRatio))
      && (exists s :: multiset(s) == multiset(all) && SortedByAreaDesc(s)
            && defects == GreedyKeep(s, Duplicate(p.NMSIoUThreshold, p.NMSContainmentRatio)))
  {
    var tag := ReasonTag(reasonTag);
    var minContourArea := (imageWidth * imageHeight) as real * p.MinContourAreaRatio;
    var candidates := CollectCandidates(contours, minRectArea, minContourArea, p, tag);
    var boxes := new DefectArea[|candidates|](k requires 0 <= k < |candidates| => candidates[k]);
    assert boxes[..] == candidates;
    defects := SuppressDuplicateDefects(boxes, p.NMSIoUThreshold, p.NMSContainmentRatio);
    ExtractedDefects(contours, imageWidth, imageHeight, minRectArea, reasonTag, p, candidates, boxes[..], defects);
  }
}
