/**
 * The list-level decisions of the reference-versus-inspected comparison: which
 * branch produces the defects, and the broken-part post-processing with its
 * fallback to the structural mask.
 */
module Diff {
  import opened Entity
  import opened Profile
  import opened Merging

  datatype DiffBranch = GeometryBranch | ContourBranch(broken: bool)

  /** The geometry branch is taken only when the geometry rules fired and the part is not broken. */
  function SelectDiffBranch(brokenMode: bool, geometryMode: bool): (b: DiffBranch)
    ensures b == GeometryBranch <==> geometryMode && !brokenMode
    ensures b.ContourBranch? ==> b.broken == brokenMode
  {
    if geometryMode && !brokenMode then GeometryBranch else ContourBranch(brokenMode)
  }

  /** Merge, then keep the dominant boxes, with the profile's broken-part settings. */
  function MergeAndKeepDominant(boxes: seq<DefectArea>, p: DetectionProfile): seq<DefectArea>
  {
    KeepDominant(MergeNearby(boxes, p.BrokenMergeDistance), p.BrokenDominantMinRatio)
  }

  /**
   * The broken-part candidates: the diff boxes that overlap the structural
   * mask, merged and filtered; when nothing is left, the boxes of the
   * structural mask itself, merged and filtered the same way.
   */
  function BrokenPostProcess(overlapKept: seq<DefectArea>, structuralBoxes: seq<DefectArea>, p: DetectionProfile): seq<DefectArea>
  {
    var primary := MergeAndKeepDominant(overlapKept, p);
    if primary == [] then MergeAndKeepDominant(structuralBoxes, p) else primary
  }

  /** Keeping the dominant boxes empties exactly the empty list. */
  lemma KeepDominantEmpty(boxes: seq<DefectArea>, minRatio: real)
    ensures KeepDominant(boxes, minRatio) == [] <==> boxes == []
  {
    if |boxes| >= 2 && minRatio > 0.0 && MaxArea(boxes) > 0 {
      KeepDominantProperties(boxes, minRatio, KeepDominant(boxes, minRatio));
    }
  }

  /** Merging and filtering empties exactly the empty list. */
  lemma MergeAndKeepDominantEmpty(boxes: seq<DefectArea>, p: DetectionProfile)
    ensures MergeAndKeepDominant(boxes, p) == [] <==> boxes == []
  {
    var merged := MergeNearby(boxes, p.BrokenMergeDistance);
    MergeNearbyProperties(boxes, p.BrokenMergeDistance);
    KeepDominantEmpty(merged, p.BrokenDominantMinRatio);
  }

  /**
   * The broken branch reports no defects only when neither the overlapping
   * diff boxes nor the structural mask yield any, and the fallback is used
   * only when no diff box overlapped.
   */
  lemma BrokenPostProcessEmpty(overlapKept: seq<DefectArea>, structuralBoxes: seq<DefectArea>, p: DetectionProfile)
    ensures BrokenPostProcess(overlapKept, structuralBoxes, p) == [] <==> overlapKept == [] && structuralBoxes == []
    ensures overlapKept != [] ==> BrokenPostProcess(overlapKept, structuralBoxes, p) == MergeAndKeepDominant(overlapKept, p)
  {
    MergeAndKeepDominantEmpty(overlapKept, p);
    MergeAndKeepDominantEmpty(structuralBoxes, p);
  }
}
