/**
 * The image quality gate, as a decision over measurements taken from the
 * image beforehand: emptiness, size, the part's interior area, and the edge,
 * exposure and glare shares inside it.
 */
module Quality {
  import opened Wrappers
  import opened Profile

  /** What the gate measures on one image. */
  datatype QualityMetrics = QualityMetrics(
    empty: bool,
    cols: int,
    rows: int,
    roiPixels: nat,           // pixels of the part's interior mask, 0 when the mask is empty
    edgeRatio: real,
    overexposedRatio: real,
    underexposedRatio: real,
    hsvChannels: int,
    glareRatio: real)

  datatype QualityFailure =
    | EmptyImage
    | TooSmall(cols: int, rows: int)
    | EmptyRoi
    | Blurry(edgeRatio: real)
    | Overexposed(ratio: real)
    | Underexposed(ratio: real)
    | InvalidHsv
    | Glare(ratio: real)

  /** The share of the frame the part's interior covers; 1 for a frame with no pixels. */
  function RoiRatio(m: QualityMetrics): real
  {
    var total := m.rows * m.cols;
    if total > 0 then m.roiPixels as real / total as real else 1.0
  }

  /**
   * An interior covering more than 90% of the frame is taken as an unreliable
   * mask: exposure and glare are then not checked and the sharpness floor drops.
   */
  predicate Relaxed(m: QualityMetrics)
  {
    RoiRatio(m) > 0.90
  }

  function MinEdgeRatio(m: QualityMetrics, p: DetectionProfile): real
  {
    if Relaxed(m) then p.MinSharpnessEdgeRatio * 0.35 else p.MinSharpnessEdgeRatio
  }

  /** The first failing check, in the gate's order, or None when the image passes. */
  function CheckImageQuality(m: QualityMetrics, p: DetectionProfile, glareLimit: real): Option<QualityFailure>
  {
    if m.empty then Some(EmptyImage)
    else if m.cols < p.MinImageSide || m.rows < p.MinImageSide then Some(TooSmall(m.cols, m.rows))
    else if m.roiPixels == 0 then Some(EmptyRoi)
    else if m.edgeRatio < MinEdgeRatio(m, p) then Some(Blurry(m.edgeRatio))
    else if !Relaxed(m) && m.overexposedRatio > p.MaxOverexposedRatio then Some(Overexposed(m.overexposedRatio))
    else if !Relaxed(m) && m.underexposedRatio > p.MaxUnderexposedRatio then Some(Underexposed(m.underexposedRatio))
    else if m.hsvChannels < 3 then Some(InvalidHsv)
    else if !Relaxed(m) && m.glareRatio > glareLimit then Some(Glare(m.glareRatio))
    else None
  }

  /** Every check the gate applies, as one condition. */
  predicate PassesAll(m: QualityMetrics, p: DetectionProfile, glareLimit: real)
  {
    && !m.empty
    && m.cols >= p.MinImageSide && m.rows >= p.MinImageSide
    && m.roiPixels > 0
    && m.edgeRatio >= MinEdgeRatio(m, p)
    && m.hsvChannels >= 3
    && (Relaxed(m) || (m.overexposedRatio <= p.MaxOverexposedRatio
                       && m.underexposedRatio <= p.MaxUnderexposedRatio
                       && m.glareRatio <= glareLimit))
  }

  /** The image passes exactly when every check holds. */
  lemma CheckImageQualityPasses(m: QualityMetrics, p: DetectionProfile, glareLimit: real)
    ensures CheckImageQuality(m, p, glareLimit) == None <==> PassesAll(m, p, glareLimit)
  {
  }

  /** An image that is not empty but too small always fails on its size, whatever else it measures. */
  lemma TooSmallWins(m: QualityMetrics, p: DetectionProfile, glareLimit: real)
    requires !m.empty && (m.cols < p.MinImageSide || m.rows < p.MinImageSide)
    ensures CheckImageQuality(m, p, glareLimit) == Some(TooSmall(m.cols, m.rows))
  {
  }

  /** Under the relaxed gate no exposure or glare failure is reported. */
  lemma RelaxedSkipsPhotometry(m: QualityMetrics, p: DetectionProfile, glareLimit: real)
    requires Relaxed(m)
    ensures var r := CheckImageQuality(m, p, glareLimit);
      r.Some? ==> !r.value.Overexposed? && !r.value.Underexposed? && !r.value.Glare?
  {
  }

  /**
   * With a non-negative sharpness floor, the relaxed gate accepts every image
   * the strict gate accepts: a larger interior never turns a pass into a failure.
   */
  lemma RelaxedAcceptsMore(strict: QualityMetrics, relaxed: QualityMetrics, p: DetectionProfile, glareLimit: real)
    requires p.MinSharpnessEdgeRatio >= 0.0
    requires relaxed == strict.(roiPixels := relaxed.roiPixels) && relaxed.roiPixels > 0
    requires !Relaxed(strict) && Relaxed(relaxed)
    requires CheckImageQuality(strict, p, glareLimit) == None
    ensures CheckImageQuality(relaxed, p, glareLimit) == None
  {
    CheckImageQualityPasses(strict, p, glareLimit);
    CheckImageQualityPasses(relaxed, p, glareLimit);
    assert MinEdgeRatio(relaxed, p) <= MinEdgeRatio(strict, p);
  }

  /** A higher glare limit never turns a pass into a failure. */
  lemma GlareLimitMonotone(m: QualityMetrics, p: DetectionProfile, lower: real, higher: real)
    requires lower <= higher && CheckImageQuality(m, p, lower) == None
    ensures CheckImageQuality(m, p, higher) == None
  {
    CheckImageQualityPasses(m, p, lower);
    CheckImageQualityPasses(m, p, higher);
  }

  const QualityPrefix := "quality gate failed for "

  /** The failure's detail text; the measured numbers that follow some of them are not modelled. */
  function Detail(f: QualityFailure): string
  {
    match f
    case EmptyImage => "empty image"
    case TooSmall(_, _) => "image is too small"
    case EmptyRoi => "part ROI is empty"
    case Blurry(_) => "image is blurry"
    case Overexposed(_) => "overexposed image"
    case Underexposed(_) => "underexposed image"
    case InvalidHsv => "invalid hsv channels"
    case Glare(_) => "too much glare"
  }

  /** The error text for a failure of the image called `imageLabel`. */
  function QualityMessage(imageLabel: string, f: QualityFailure): (msg: string)
    ensures |QualityPrefix| <= |msg| && msg[..|QualityPrefix|] == QualityPrefix
  {
    QualityPrefix + imageLabel + ": " + Detail(f)
  }
}
