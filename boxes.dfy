/**
 * Integer box arithmetic of the detector: overlap measures between candidate
 * boxes, the union of two boxes, Go's `image.Rectangle` helpers, kernel-size
 * normalisation and the reason-string helpers.
 */
module Boxes {
  import opened Entity
  import opened Text

  function Min(a: int, b: int): int
  {
    if a < b then a else b
  }

  function Max(a: int, b: int): int
  {
    if a > b then a else b
  }

  /** Sides are non-negative and Area is the rectangle area, as for every box the detector builds. */
  predicate WellFormed(d: DefectArea)
  {
    d.Width >= 0 && d.Height >= 0 && d.Area == d.Width * d.Height
  }

  /** One box lies entirely on one side of the other, so they share no interior point. */
  predicate Separated(a: DefectArea, b: DefectArea)
  {
    a.X + a.Width <= b.X || b.X + b.Width <= a.X || a.Y + a.Height <= b.Y || b.Y + b.Height <= a.Y
  }

  /** A box with a side that is zero or negative covers no interior point. */
  predicate Degenerate(d: DefectArea)
  {
    d.Width <= 0 || d.Height <= 0
  }

  /** `inner` lies within `outer`, corner by corner. */
  predicate Inside(inner: DefectArea, outer: DefectArea)
  {
    outer.X <= inner.X && inner.X + inner.Width <= outer.X + outer.Width &&
    outer.Y <= inner.Y && inner.Y + inner.Height <= outer.Y + outer.Height
  }

  /** Area of the overlap of two boxes; zero when they do not overlap. */
  function IntersectionArea(a: DefectArea, b: DefectArea): (r: int)
    ensures r >= 0
    ensures r == 0 <==> Separated(a, b) || Degenerate(a) || Degenerate(b)
  {
    var ix1 := Max(a.X, b.X);
    var iy1 := Max(a.Y, b.Y);
    var ix2 := Min(a.X + a.Width, b.X + b.Width);
    var iy2 := Min(a.Y + a.Height, b.Y + b.Height);
    if ix2 <= ix1 || iy2 <= iy1 then 0
    else
      MulPositive(ix2 - ix1, iy2 - iy1);
      (ix2 - ix1) * (iy2 - iy1)
  }

  lemma MulPositive(x: int, y: int)
    requires x > 0 && y > 0
    ensures x * y > 0
  {
  }

  lemma IntersectionSymmetric(a: DefectArea, b: DefectArea)
    ensures IntersectionArea(a, b) == IntersectionArea(b, a)
  {
  }

  lemma MulMono(x: int, y: int, w: int, h: int)
    requires 0 <= x <= w && 0 <= y <= h
    ensures x * y <= w * h
  {
    assert (w - x) * y >= 0;
    assert w * (h - y) >= 0;
  }

  /** The overlap of two well-formed boxes is no larger than either box. */
  lemma {:induction false} IntersectionBounded(a: DefectArea, b: DefectArea)
    requires WellFormed(a) && WellFormed(b)
    ensures IntersectionArea(a, b) <= a.Area && IntersectionArea(a, b) <= b.Area
  {
    var ix1 := Max(a.X, b.X);
    var iy1 := Max(a.Y, b.Y);
    var ix2 := Min(a.X + a.Width, b.X + b.Width);
    var iy2 := Min(a.Y + a.Height, b.Y + b.Height);
    if !(ix2 <= ix1 || iy2 <= iy1) {
      MulMono(ix2 - ix1, iy2 - iy1, a.Width, a.Height);
      MulMono(ix2 - ix1, iy2 - iy1, b.Width, b.Height);
    }
  }

  /** Intersection over union; zero when the boxes do not overlap or the union is not positive. */
  function BoxIoU(a: DefectArea, b: DefectArea): (r: real)
    ensures r >= 0.0
    ensures r > 0.0 <==> IntersectionArea(a, b) > 0 && a.Area + b.Area - IntersectionArea(a, b) > 0
  {
    var inter := IntersectionArea(a, b);
    if inter <= 0 then 0.0
    else
      var union := a.Area + b.Area - inter;
      if union <= 0 then 0.0 else inter as real / union as real
  }

  /** Overlap relative to the smaller box; zero when they do not overlap or that area is not positive. */
  function BoxContainment(a: DefectArea, b: DefectArea): (r: real)
    ensures r >= 0.0
    ensures r > 0.0 <==> IntersectionArea(a, b) > 0 && Min(a.Area, b.Area) > 0
  {
    var inter := IntersectionArea(a, b);
    if inter <= 0 then 0.0
    else
      var minArea := Min(a.Area, b.Area);
      if minArea <= 0 then 0.0 else inter as real / minArea as real
  }

  lemma RatioAtMostOne(x: int, y: int)
    requires 0 < x <= y
    ensures x as real / y as real <= 1.0
  {
  }

  /** For well-formed boxes both overlap measures lie in [0, 1]. */
  lemma {:induction false} OverlapMeasuresInUnitRange(a: DefectArea, b: DefectArea)
    requires WellFormed(a) && WellFormed(b)
    ensures 0.0 <= BoxIoU(a, b) <= 1.0
    ensures 0.0 <= BoxContainment(a, b) <= 1.0
  {
    var inter := IntersectionArea(a, b);
    if inter > 0 {
      IntersectionBounded(a, b);
      assert BoxIoU(a, b) <= 1.0 by {
        RatioAtMostOne(inter, a.Area + b.Area - inter);
      }
      assert BoxContainment(a, b) <= 1.0 by {
        RatioAtMostOne(inter, Min(a.Area, b.Area));
      }
    }
  }

  /** Both measures are symmetric in their arguments. */
  lemma OverlapMeasuresSymmetric(a: DefectArea, b: DefectArea)
    ensures BoxIoU(a, b) == BoxIoU(b, a)
    ensures BoxContainment(a, b) == BoxContainment(b, a)
  {
    IntersectionSymmetric(a, b);
  }

  /** A box of positive area overlaps itself completely. */
  lemma OverlapWithItself(a: DefectArea)
    requires WellFormed(a) && a.Area > 0
    ensures BoxIoU(a, a) == 1.0 && BoxContainment(a, a) == 1.0
  {
    assert IntersectionArea(a, a) == a.Width * a.Height;
    assert a.Area as real / a.Area as real == 1.0;
  }

  /** The empty space between two intervals on one axis; zero when they touch or overlap. */
  function Gap(lo1: int, hi1: int, lo2: int, hi2: int): int
  {
    Max(0, Max(lo1, lo2) - Min(hi1, hi2))
  }

  /**
   * Two boxes are merged when they overlap, or when the gap between them is at
   * most `distance` along both axes.
   */
  function ShouldMergeDefects(a: DefectArea, b: DefectArea, distance: int): (merge: bool)
    ensures distance >= 0 && IntersectionArea(a, b) > 0 ==> merge
    ensures merge && distance < 0 ==> BoxIoU(a, b) > 0.0
  {
    BoxIoU(a, b) > 0.0 ||
    (Gap(a.X, a.X + a.Width, b.X, b.X + b.Width) <= distance &&
     Gap(a.Y, a.Y + a.Height, b.Y, b.Y + b.Height) <= distance)
  }

  lemma ShouldMergeSymmetric(a: DefectArea, b: DefectArea, distance: int)
    ensures ShouldMergeDefects(a, b, distance) == ShouldMergeDefects(b, a, distance)
  {
    OverlapMeasuresSymmetric(a, b);
  }

  /** The bounding box of two boxes, with the rectangle area and both reasons combined. */
  function UnionDefectAreas(a: DefectArea, b: DefectArea): (u: DefectArea)
    ensures Inside(a, u) && Inside(b, u)
    ensures u.Area == u.Width * u.Height
    ensures a.Width >= 0 && a.Height >= 0 ==> WellFormed(u)
    ensures u.Reason == CombineReasons(a.Reason, b.Reason)
  {
    var x1 := Min(a.X, b.X);
    var y1 := Min(a.Y, b.Y);
    var x2 := Max(a.X + a.Width, b.X + b.Width);
    var y2 := Max(a.Y + a.Height, b.Y + b.Height);
    DefectArea(x1, y1, x2 - x1, y2 - y1, (x2 - x1) * (y2 - y1), CombineReasons(a.Reason, b.Reason))
  }

  /** The union is the smallest box containing both. */
  lemma UnionIsSmallest(a: DefectArea, b: DefectArea, c: DefectArea)
    requires Inside(a, c) && Inside(b, c)
    ensures Inside(UnionDefectAreas(a, b), c)
  {
  }

  lemma InsideTransitive(a: DefectArea, b: DefectArea, c: DefectArea)
    requires Inside(a, b) && Inside(b, c)
    ensures Inside(a, c)
  {
  }

  /** Joins two reasons with "; "; an empty part is left out. */
  function AppendReason(baseReason: string, extra: string): (r: string)
    ensures extra == "" ==> r == baseReason
    ensures baseReason == "" ==> r == extra
    ensures |baseReason| <= |r| && r[..|baseReason|] == baseReason
  {
    if extra == "" then baseReason
    else if baseReason == "" then extra
    else baseReason + "; " + extra
  }

  /** The appended note is always found in the result. */
  lemma AppendReasonKeepsExtra(baseReason: string, extra: string)
    ensures Contains(AppendReason(baseReason, extra), extra)
  {
    var r := AppendReason(baseReason, extra);
    if extra == "" {
      ContainsAt(r, extra, 0);
    } else if baseReason == "" {
      ContainsAt(r, extra, 0);
    } else {
      assert r[|baseReason| + 2..|baseReason| + 2 + |extra|] == extra;
      ContainsAt(r, extra, |baseReason| + 2);
    }
  }

  /** Joins the reasons of two merged boxes with " | "; an empty or repeated reason is kept once. */
  function CombineReasons(a: string, b: string): (r: string)
    ensures a == "" ==> r == b
    ensures b == "" ==> r == a
    ensures a == b ==> r == a
    ensures |a| <= |r| && r[..|a|] == a
  {
    if a == "" then b
    else if b == "" then a
    else if a == b then a
    else a + " | " + b
  }

  /** Neither reason is lost when two boxes merge. */
  lemma CombineReasonsKeepsBoth(a: string, b: string)
    ensures Contains(CombineReasons(a, b), a) && Contains(CombineReasons(a, b), b)
  {
    var r := CombineReasons(a, b);
    ContainsAt(r, a, 0);
    if a != "" && b != "" && a != b {
      assert r[|a| + 3..|a| + 3 + |b|] == b;
      ContainsAt(r, b, |a| + 3);
    } else {
      ContainsAt(r, b, 0);
    }
  }

  /** Go's `image.Rectangle`: the half-open pixel range [MinX, MaxX) x [MinY, MaxY). */
  datatype Rect = Rect(MinX: int, MinY: int, MaxX: int, MaxY: int)

  const ZeroRect := Rect(0, 0, 0, 0)

  predicate Canonical(r: Rect)
  {
    r.MinX <= r.MaxX && r.MinY <= r.MaxY
  }

  predicate IsEmpty(r: Rect)
  {
    r.MinX >= r.MaxX || r.MinY >= r.MaxY
  }

  predicate RectIn(inner: Rect, outer: Rect)
  {
    outer.MinX <= inner.MinX && inner.MaxX <= outer.MaxX &&
    outer.MinY <= inner.MinY && inner.MaxY <= outer.MaxY
  }

  /** `image.Rect`: the corners are swapped where needed so that Min <= Max. */
  function MakeRect(x0: int, y0: int, x1: int, y1: int): (r: Rect)
    ensures Canonical(r)
    ensures {r.MinX, r.MaxX} == {x0, x1} && {r.MinY, r.MaxY} == {y0, y1}
  {
    Rect(Min(x0, x1), Min(y0, y1), Max(x0, x1), Max(y0, y1))
  }

  /** `Rectangle.Intersect`: the common part, or the zero rectangle when there is none. */
  function Intersect(r: Rect, s: Rect): (t: Rect)
    ensures t == ZeroRect || (!IsEmpty(t) && RectIn(t, r) && RectIn(t, s))
    ensures forall q :: !IsEmpty(q) && RectIn(q, r) && RectIn(q, s) ==> RectIn(q, t)
  {
    var t := Rect(Max(r.MinX, s.MinX), Max(r.MinY, s.MinY), Min(r.MaxX, s.MaxX), Min(r.MaxY, s.MaxY));
    if IsEmpty(t) then ZeroRect else t
  }

  /** Grows a rectangle by `margin` on every side and clips it to the frame [0, maxW) x [0, maxH). */
  function ExpandRect(rect: Rect, margin: int, maxW: int, maxH: int): (r: Rect)
    ensures r == ZeroRect || (!IsEmpty(r) && RectIn(r, MakeRect(0, 0, maxW, maxH)))
    ensures margin >= 0 && !IsEmpty(rect) && RectIn(rect, MakeRect(0, 0, maxW, maxH)) ==> RectIn(rect, r)
  {
    var expanded := MakeRect(rect.MinX - margin, rect.MinY - margin, rect.MaxX + margin, rect.MaxY + margin);
    Intersect(expanded, MakeRect(0, 0, maxW, maxH))
  }

  /** The bounding rectangle of two rectangles. */
  function UnionRect(a: Rect, b: Rect): (r: Rect)
    ensures Canonical(r)
    ensures Canonical(a) && Canonical(b) ==> RectIn(a, r) && RectIn(b, r)
  {
    MakeRect(Min(a.MinX, b.MinX), Min(a.MinY, b.MinY), Max(a.MaxX, b.MaxX), Max(a.MaxY, b.MaxY))
  }

  /** For canonical rectangles the union is the smallest rectangle holding both. */
  lemma UnionRectIsSmallest(a: Rect, b: Rect, c: Rect)
    requires Canonical(a) && Canonical(b) && RectIn(a, c) && RectIn(b, c)
    ensures RectIn(UnionRect(a, b), c)
  {
  }

  /** A usable morphology kernel size: positive and odd, taken from `value`, else from `fallback`, else 1. */
  function NormalizeKernelSize(value: int, fallback: int): (k: int)
    ensures k >= 1 && k % 2 == 1
    ensures value >= 1 ==> k == value || k == value + 1
    ensures value >= 1 && value % 2 == 1 ==> k == value
    ensures value < 1 && fallback >= 1 ==> k == fallback || k == fallback + 1
    ensures value < 1 && fallback < 1 ==> k == 1
  {
    var v := if value < 1 then fallback else value;
    var w := if v < 1 then 1 else v;
    if w % 2 == 0 then w + 1 else w
  }

  /** The largest of the values, or 0 when there are none. */
  method MaxFloat(values: seq<real>) returns (m: real)
    ensures values == [] ==> m == 0.0
    ensures values != [] ==> m in values && forall v :: v in values ==> v <= m
  {
    if |values| == 0 {
      return 0.0;
    }
    m := values[0];
    var i := 1;
    while i < |values|
      invariant 1 <= i <= |values|
      invariant m in values[..i]
      invariant forall j :: 0 <= j < i ==> values[j] <= m
    {
      if values[i] > m {
        m := values[i];
      }
      i := i + 1;
    }
    assert values[..i] == values;
  }
}
