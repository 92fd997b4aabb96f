/**
 * Shape classification, the geometry-mismatch rules between a reference part
 * and an inspected part, and the broken-part trigger. Every measurement
 * (concavity count, vertex count, circularity, extent, shape score, component
 * areas) is an input.
 */
module Geometry {
  import opened Wrappers
  import opened Profile
  import opened Boxes

  datatype ShapeFamily = Unknown | Round | Polygon | Toothed

  /**
   * The family of a contour by rule priority: many concavities make it
   * toothed, else high circularity makes it round, else 3 to 12 vertices with
   * enough circularity and extent make it a polygon.
   */
  function DetermineShapeFamily(
    concavity: int, vertices: int, circularity: real, extent: real,
    minConcavity: int, roundMinCircularity: real, polygonMinCircularity: real, polygonMinExtent: real): ShapeFamily
  {
    if concavity >= minConcavity then Toothed
    else if circularity >= roundMinCircularity then Round
    else if 3 <= vertices <= 12 && circularity >= polygonMinCircularity && extent >= polygonMinExtent then Polygon
    else Unknown
  }

  /** Each family, characterised on its own: what a contour must measure to receive it. */
  lemma ShapeFamilyCharacterised(
    concavity: int, vertices: int, circularity: real, extent: real,
    minConcavity: int, roundMin: real, polygonMinCircularity: real, polygonMinExtent: real, f: ShapeFamily)
    requires f == DetermineShapeFamily(concavity, vertices, circularity, extent, minConcavity, roundMin, polygonMinCircularity, polygonMinExtent)
    ensures f == Toothed <==> concavity >= minConcavity
    ensures f == Round <==> concavity < minConcavity && circularity >= roundMin
    ensures f == Polygon <==>
      (concavity < minConcavity && circularity < roundMin && 3 <= vertices <= 12
       && circularity >= polygonMinCircularity && extent >= polygonMinExtent)
    ensures f == Unknown <==>
      (concavity < minConcavity && circularity < roundMin
       && !(3 <= vertices <= 12 && circularity >= polygonMinCircularity && extent >= polygonMinExtent))
  {
  }

  /** Once the concavity threshold is reached, no other descriptor matters. */
  lemma ToothedIgnoresOtherDescriptors(
    concavity: int, vertices1: int, circularity1: real, extent1: real,
    vertices2: int, circularity2: real, extent2: real,
    minConcavity: int, roundMin: real, polygonMinCircularity: real, polygonMinExtent: real)
    requires concavity >= minConcavity
    ensures DetermineShapeFamily(concavity, vertices1, circularity1, extent1, minConcavity, roundMin, polygonMinCircularity, polygonMinExtent)
         == DetermineShapeFamily(concavity, vertices2, circularity2, extent2, minConcavity, roundMin, polygonMinCircularity, polygonMinExtent)
  {
  }

  /** The measured descriptor of one contour. */
  datatype ShapeDescriptor = ShapeDescriptor(family: ShapeFamily, concavity: int, vertices: int, circularity: real, extent: real)

  /** A descriptor whose family is classified with the profile's thresholds. */
  function DescribeShape(concavity: int, vertices: int, circularity: real, extent: real, p: DetectionProfile): ShapeDescriptor
  {
    ShapeDescriptor(
      DetermineShapeFamily(concavity, vertices, circularity, extent,
        p.GeometryMinConcavity, p.GeometryRoundMinCircularity, p.GeometryPolygonMinCircularity, p.GeometryPolygonMinExtent),
      concavity, vertices, circularity, extent)
  }

  datatype MismatchReason = ToothCount | PolygonVertices | RoundProfile | ToothedShape | ShapeFamilyMismatch

  /** The reason code written into the defect's reason text. */
  function ReasonCode(r: MismatchReason): string
  {
    match r
    case ToothCount => "tooth_count"
    case PolygonVertices => "polygon_vertices"
    case RoundProfile => "round_profile"
    case ToothedShape => "toothed_shape"
    case ShapeFamilyMismatch => "shape_family"
  }

  function AbsInt(x: int): int { if x < 0 then -x else x }
  function AbsReal(x: real): real { if x < 0.0 then -x else x }

  /** Both families are known and they differ. */
  predicate FamilyMismatch(b: ShapeDescriptor, c: ShapeDescriptor)
  {
    b.family != Unknown && c.family != Unknown && b.family != c.family
  }

  /** Both toothed, with concavity counts far enough apart. */
  predicate MismatchByToothed(b: ShapeDescriptor, c: ShapeDescriptor, p: DetectionProfile)
  {
    b.family == Toothed && c.family == Toothed && AbsInt(b.concavity - c.concavity) >= p.GeometryMinConcavityGap
  }

  /** Both polygons with 1 to 12 vertices, and vertex counts far enough apart. */
  predicate MismatchByPolygon(b: ShapeDescriptor, c: ShapeDescriptor, p: DetectionProfile)
  {
    && b.family == Polygon && c.family == Polygon
    && b.vertices > 0 && c.vertices > 0 && b.vertices <= 12 && c.vertices <= 12
    && AbsInt(b.vertices - c.vertices) >= p.GeometryPolygonVertexGap
  }

  /** Both round, with circularities far enough apart. */
  predicate MismatchByRound(b: ShapeDescriptor, c: ShapeDescriptor, p: DetectionProfile)
  {
    b.family == Round && c.family == Round && AbsReal(b.circularity - c.circularity) >= p.GeometryRoundMaxCircularityGap
  }

  /** Both toothed, concavities differ, and the shape-match score is too high. */
  predicate MismatchByToothedShape(b: ShapeDescriptor, c: ShapeDescriptor, shapeScore: real, p: DetectionProfile)
  {
    b.family == Toothed && c.family == Toothed && AbsInt(b.concavity - c.concavity) >= 1 && shapeScore > p.GeometryMatchMaxScore
  }

  predicate AnyMismatch(b: ShapeDescriptor, c: ShapeDescriptor, shapeScore: real, p: DetectionProfile)
  {
    || FamilyMismatch(b, c) || MismatchByToothed(b, c, p) || MismatchByPolygon(b, c, p)
    || MismatchByRound(b, c, p) || MismatchByToothedShape(b, c, shapeScore, p)
  }

  /**
   * The geometry verdict: no mismatch when the check is disabled or no rule
   * fires; otherwise the reason of the first rule that fires, in the order
   * tooth count, polygon vertices, round profile, toothed shape, family.
   */
  function GeometryMismatch(b: ShapeDescriptor, c: ShapeDescriptor, shapeScore: real, p: DetectionProfile): Option<MismatchReason>
  {
    if !p.EnableGeometryCheck then None
    else if !AnyMismatch(b, c, shapeScore, p) then None
    else if MismatchByToothed(b, c, p) then Some(ToothCount)
    else if MismatchByPolygon(b, c, p) then Some(PolygonVertices)
    else if MismatchByRound(b, c, p) then Some(RoundProfile)
    else if MismatchByToothedShape(b, c, shapeScore, p) then Some(ToothedShape)
    else Some(ShapeFamilyMismatch)
  }

  /** The verdict reports a reason exactly when the check is on and some rule fires, and never a lower-priority one. */
  lemma GeometryMismatchPriority(b: ShapeDescriptor, c: ShapeDescriptor, shapeScore: real, p: DetectionProfile)
    ensures GeometryMismatch(b, c, shapeScore, p).Some? <==> p.EnableGeometryCheck && AnyMismatch(b, c, shapeScore, p)
    ensures GeometryMismatch(b, c, shapeScore, p) == Some(ShapeFamilyMismatch) ==>
      FamilyMismatch(b, c) && !MismatchByToothed(b, c, p) && !MismatchByPolygon(b, c, p)
      && !MismatchByRound(b, c, p) && !MismatchByToothedShape(b, c, shapeScore, p)
    ensures GeometryMismatch(b, c, shapeScore, p) == Some(ToothedShape) ==>
      MismatchByToothedShape(b, c, shapeScore, p) && !MismatchByToothed(b, c, p)
    ensures p.EnableGeometryCheck && MismatchByToothed(b, c, p) ==> GeometryMismatch(b, c, shapeScore, p) == Some(ToothCount)
    ensures p.EnableGeometryCheck && MismatchByPolygon(b, c, p) ==> GeometryMismatch(b, c, shapeScore, p) == Some(PolygonVertices)
    ensures p.EnableGeometryCheck && MismatchByRound(b, c, p) ==> GeometryMismatch(b, c, shapeScore, p) == Some(RoundProfile)
  {
  }

  /** A family mismatch is never reported when either family is unknown. */
  lemma UnknownNeverFamilyMismatch(b: ShapeDescriptor, c: ShapeDescriptor, shapeScore: real, p: DetectionProfile)
    requires b.family == Unknown || c.family == Unknown
    ensures GeometryMismatch(b, c, shapeScore, p) != Some(ShapeFamilyMismatch)
    ensures b.family == Unknown && c.family == Unknown ==> GeometryMismatch(b, c, shapeScore, p) == None
  {
  }

  /** The polygon reason needs two polygons with vertex counts in (0, 12]. */
  lemma PolygonReasonNeedsVertexCounts(b: ShapeDescriptor, c: ShapeDescriptor, shapeScore: real, p: DetectionProfile)
    requires GeometryMismatch(b, c, shapeScore, p) == Some(PolygonVertices)
    ensures b.family == Polygon && c.family == Polygon
    ensures 0 < b.vertices <= 12 && 0 < c.vertices <= 12
  {
  }

  /** With positive gap thresholds, a descriptor never mismatches itself, whatever the shape score. */
  lemma IdenticalNeverMismatch(d: ShapeDescriptor, shapeScore: real, p: DetectionProfile)
    requires p.GeometryMinConcavityGap > 0 && p.GeometryPolygonVertexGap > 0 && p.GeometryRoundMaxCircularityGap > 0.0
    ensures GeometryMismatch(d, d, shapeScore, p) == None
  {
  }

  /** Swapping reference and inspected part gives the same verdict at the same shape score. */
  lemma GeometryMismatchSymmetric(b: ShapeDescriptor, c: ShapeDescriptor, shapeScore: real, p: DetectionProfile)
    ensures GeometryMismatch(b, c, shapeScore, p) == GeometryMismatch(c, b, shapeScore, p)
  {
    assert AbsInt(b.concavity - c.concavity) == AbsInt(c.concavity - b.concavity);
    assert AbsInt(b.vertices - c.vertices) == AbsInt(c.vertices - b.vertices);
    assert AbsReal(b.circularity - c.circularity) == AbsReal(c.circularity - b.circularity);
  }

  /** A connected region of a part mask: its bounding rectangle and its area. */
  datatype MaskComponent = MaskComponent(rect: Rect, area: real)

  /**
   * The second-largest component is a large enough share of the largest
   * (components come sorted by area, largest first).
   */
  function HasSeparatedPart(components: seq<MaskComponent>, minRelativeArea: real): bool
  {
    if |components| < 2 then false
    else
      var mainArea := components[0].area;
      if mainArea <= 0.0 then false
      else components[1].area / mainArea >= minRelativeArea
  }

  /** The share test, cross-multiplied. */
  lemma HasSeparatedPartMeans(components: seq<MaskComponent>, minRelativeArea: real)
    ensures HasSeparatedPart(components, minRelativeArea) <==>
      |components| >= 2 && components[0].area > 0.0 && components[1].area >= minRelativeArea * components[0].area
  {
    if |components| >= 2 && components[0].area > 0.0 {
      DivAtLeast(components[1].area, components[0].area, minRelativeArea);
    }
  }

  lemma ShareScale(x: real, y: real, k: real)
    requires k > 0.0
    ensures x >= y <==> x * k >= y * k
  {
  }

  /** A share reaches a ratio exactly when the part reaches the ratio times the whole. */
  lemma DivAtLeast(x: real, m: real, y: real)
    requires m > 0.0
    ensures x / m >= y <==> x >= y * m
  {
    assert x / m * m == x;
    ShareScale(x / m, y, m);
  }

  /**
   * The components the split test looks at: the current part's own when
   * there are two or more, otherwise those of the eroded mask when erosion
   * produced a non-empty mask with two or more components.
   */
  function FocusComponents(current: seq<MaskComponent>, eroded: Option<seq<MaskComponent>>): (focus: seq<MaskComponent>)
    ensures |current| >= 2 ==> focus == current
    ensures focus == current || (eroded.Some? && focus == eroded.value && |focus| >= 2)
  {
    if |current| >= 2 then current
    else match eroded
      case Some(e) => if |e| >= 2 then e else current
      case None => current
  }

  /** Losing at least the given share of the reference part's area. */
  function AreaLoss(baseArea: real, currentArea: real, lossRatio: real): bool
  {
    if baseArea > 0.0 && currentArea < baseArea then (baseArea - currentArea) / baseArea >= lossRatio
    else false
  }

  /** The loss test, cross-multiplied. */
  lemma AreaLossMeans(baseArea: real, currentArea: real, lossRatio: real)
    ensures AreaLoss(baseArea, currentArea, lossRatio) <==>
      baseArea > 0.0 && currentArea < baseArea && baseArea - currentArea >= lossRatio * baseArea
  {
    if baseArea > 0.0 && currentArea < baseArea {
      DivAtLeast(baseArea - currentArea, baseArea, lossRatio);
    }
  }

  /** A part that lost area triggers no later than one that lost less. */
  lemma AreaLossMonotone(baseArea: real, currentArea: real, smallerArea: real, lossRatio: real)
    requires AreaLoss(baseArea, currentArea, lossRatio) && smallerArea <= currentArea
    ensures AreaLoss(baseArea, smallerArea, lossRatio)
  {
    AreaLossMeans(baseArea, currentArea, lossRatio);
    AreaLossMeans(baseArea, smallerArea, lossRatio);
  }

  /** The broken-part decision: a split into separated parts, or a large area loss. */
  predicate BrokenTrigger(
    baseComponents: seq<MaskComponent>, focus: seq<MaskComponent>,
    baseArea: real, currentArea: real, p: DetectionProfile)
  {
    || (|baseComponents| <= 1 && HasSeparatedPart(focus, p.BrokenSecondRelMin))
    || AreaLoss(baseArea, currentArea, p.BrokenAreaLossRatio)
  }

  /** No trigger without either a second sizeable part or a lost share of area. */
  lemma BrokenTriggerMeans(
    baseComponents: seq<MaskComponent>, focus: seq<MaskComponent>,
    baseArea: real, currentArea: real, p: DetectionProfile)
    ensures BrokenTrigger(baseComponents, focus, baseArea, currentArea, p) <==>
      || (|baseComponents| <= 1 && |focus| >= 2 && focus[0].area > 0.0
            && focus[1].area >= p.BrokenSecondRelMin * focus[0].area)
      || (baseArea > 0.0 && currentArea < baseArea && baseArea - currentArea >= p.BrokenAreaLossRatio * baseArea)
  {
    HasSeparatedPartMeans(focus, p.BrokenSecondRelMin);
    AreaLossMeans(baseArea, currentArea, p.BrokenAreaLossRatio);
  }

  /** A reference part that was already in several pieces, with no area lost, never triggers. */
  lemma NoTriggerWithoutChange(
    baseComponents: seq<MaskComponent>, focus: seq<MaskComponent>,
    baseArea: real, currentArea: real, p: DetectionProfile)
    requires |baseComponents| >= 2 && currentArea >= baseArea
    ensures !BrokenTrigger(baseComponents, focus, baseArea, currentArea, p)
  {
  }
}
