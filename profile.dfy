/** The detector's tuning profile: the thresholds the modelled decisions read. */
module Profile {

  /**
   * The subset of the detector's configuration used by the box arithmetic, the
   * candidate filters, the broken-part and geometry rules and the quality gate.
   * Ratios are exact reals.
   */
  datatype DetectionProfile = DetectionProfile(
    MinAspectRatio: real,
    MaxAspectRatio: real,
    MinImageSide: int,
    MinSharpnessEdgeRatio: real,
    MaxOverexposedRatio: real,
    MaxUnderexposedRatio: real,
    MaxGlareRatio: real,
    DiffMaxGlareRatio: real,
    MinContourAreaRatio: real,
    MinFillRatio: real,
    NMSIoUThreshold: real,
    NMSContainmentRatio: real,
    BrokenAreaLossRatio: real,
    BrokenMergeDistance: int,
    BrokenSecondRelMin: real,
    BrokenDominantMinRatio: real,
    EnableGeometryCheck: bool,
    GeometryMatchMaxScore: real,
    GeometryMinConcavity: int,
    GeometryMinConcavityGap: int,
    GeometryPolygonVertexGap: int,
    GeometryPolygonMinCircularity: real,
    GeometryPolygonMinExtent: real,
    GeometryRoundMinCircularity: real,
    GeometryRoundMaxCircularityGap: real)

  /** The values the detector is constructed with. */
  const Default := DetectionProfile(
    MinAspectRatio := 0.1,
    MaxAspectRatio := 10.0,
    MinImageSide := 400,
    MinSharpnessEdgeRatio := 0.008,
    MaxOverexposedRatio := 0.35,
    MaxUnderexposedRatio := 0.45,
    MaxGlareRatio := 0.20,
    DiffMaxGlareRatio := 0.26,
    MinContourAreaRatio := 0.00012,
    MinFillRatio := 0.08,
    NMSIoUThreshold := 0.30,
    NMSContainmentRatio := 0.80,
    BrokenAreaLossRatio := 0.06,
    BrokenMergeDistance := 48,
    BrokenSecondRelMin := 0.05,
    BrokenDominantMinRatio := 0.50,
    EnableGeometryCheck := true,
    GeometryMatchMaxScore := 0.10,
    GeometryMinConcavity := 8,
    GeometryMinConcavityGap := 2,
    GeometryPolygonVertexGap := 2,
    GeometryPolygonMinCircularity := 0.55,
    GeometryPolygonMinExtent := 0.55,
    GeometryRoundMinCircularity := 0.82,
    GeometryRoundMaxCircularityGap := 0.10)
}
