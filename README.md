# vision-bot core in Dafny

vision-bot is a Telegram bot that compares two photos of a part: an
"original" (reference) photo and a "defect" photo of the same part. It
answers with the defects it found, highlighted on the photo. This project
models, and proves properties of, the parts of the bot whose behaviour can
be stated without OpenCV:

- **The conversational state machine.** `Telegram.Bot` models the dispatch
  over user states: main menu, awaiting the original photo, awaiting the
  defect photo, and the reset of any other state. It keeps its per-user
  state in an in-memory repository (`Storage.MemoryUserRepository`, a
  create-on-read map of `Entity.User` objects). It changes that state
  through the application services `App.UserService` and
  `App.InspectionService`; the latter holds the per-user `originals` map of
  reference photos. Replies sent to the chat are returned as a list of
  `Telegram.Reply` values. The bot classifies the inspection error it
  logs with `Telegram.ClassifyInspectionError`.
- **The detector's box arithmetic and list post-processing:**
  - intersection, IoU and containment of defect boxes (`Boxes`);
  - greedy largest-first non-maximum suppression and the per-contour
    acceptance filter (`Suppression`);
  - merging of nearby boxes until nothing changes, and the filter that
    keeps only the dominant boxes of a broken part (`Merging`);
  - the pure decisions over measured numbers:
    - shape family, geometry mismatch rules and reason priority, and the
      broken-part trigger (`Geometry`);
    - the image quality gate (`Quality`);
    - the branch choice of the diff inspection (`Diff`).
  Every quantity OpenCV measures becomes an input: contour areas,
  concavity, vertex counts, circularity, extent, mask components, and
  edge, exposure and glare ratios. The detector's tuning knobs are the
  `Profile.DetectionProfile` record, with the source's defaults in
  `Profile.Default`.

Floating-point ratios are Dafny `real`s, i.e. exact. Go's integer `/`
truncates toward zero, and `Entity.Half` writes that out for negative
widths. Byte payloads (photos) are `seq<Byte>`.

Where the source is inconsistent with itself, the model follows the usage:

- `DefectArea` carries a `Reason`, which the detector sets although the
  entity declaration lacks it.
- `UserState` has all five states used by the services. In the source the
  state is an open string type that declares main menu, awaiting photo and
  processing, and uses the two awaiting states without declaring them. The
  bot handles only the main menu and the two awaiting states; the model's
  `AwaitingPhoto` and `Processing` also stand for any other string value,
  all of which the bot resets to the main menu.
- The detector offers a diff inspection next to the single-photo one.

## Model

| member | source | states |
|---|---|---|
| Entity.Half | internal/domain/entity/defect.go:13-15 | the quotient truncates toward zero: the remainder is in [0,1] for non-negative and in [-1,0] for negative dividends |
| Entity.Center | internal/domain/entity/defect.go:13-15 | the centre lies between X and X+Width and between Y and Y+Height, in whichever order the sign of the side puts them |
| Entity.CenterExample | internal/domain/entity/defect_test.go:10-13 | the box (10,20,8,6) has centre (14,23) |
| Entity.CenterTranslates | internal/domain/entity/defect.go:13-15 | translating X and Y by k translates the centre by k; area and reason do not affect it |
| Entity.User.constructor | internal/domain/entity/user.go:20-26 | a new user keeps the given ID and chat ID and starts in the main menu |
| Entity.User.SetState | internal/domain/entity/user.go:29-31 | the state becomes exactly the argument; ID and chat ID are constant |
| Boxes.IntersectionArea | internal/infrastructure/vision/detector.go:599-614 | the intersection is never negative, and it is zero exactly when the boxes are separated on an axis or one of them has no positive side |
| Boxes.IntersectionSymmetric | internal/infrastructure/vision/detector.go:599-614 | the intersection does not depend on argument order |
| Boxes.IntersectionBounded | internal/infrastructure/vision/detector.go:599-614 | for boxes with non-negative sides and Area = Width*Height, the intersection is at most either area |
| Boxes.BoxIoU | internal/infrastructure/vision/detector.go:575-585 | IoU is never negative and is positive exactly when the boxes overlap and the union is positive (otherwise the guard returns 0) |
| Boxes.BoxContainment | internal/infrastructure/vision/detector.go:587-597 | containment is never negative and is positive exactly when the boxes overlap and the smaller area is positive |
| Boxes.OverlapMeasuresInUnitRange | internal/infrastructure/vision/detector.go:575-614 | for well-formed boxes IoU and containment both lie in [0,1] |
| Boxes.OverlapMeasuresSymmetric | internal/infrastructure/vision/detector.go:575-597 | IoU and containment do not depend on argument order |
| Boxes.OverlapWithItself | internal/infrastructure/vision/detector.go:575-597 | a well-formed box with positive area has IoU 1 and containment 1 with itself |
| Boxes.ShouldMergeDefects | internal/infrastructure/vision/detector.go:1186-1198 | with a non-negative distance, overlapping boxes always merge; with a negative distance, only boxes with positive IoU can merge |
| Boxes.ShouldMergeSymmetric | internal/infrastructure/vision/detector.go:1186-1198 | the merge test does not depend on argument order |
| Boxes.UnionDefectAreas | internal/infrastructure/vision/detector.go:1200-1213 | the union contains both boxes, has Area = Width*Height, is well formed when the first box has non-negative sides, and its reason combines both reasons |
| Boxes.UnionIsSmallest | internal/infrastructure/vision/detector.go:1200-1213 | every box containing both inputs contains their union |
| Boxes.InsideTransitive | internal/infrastructure/vision/detector.go:1200-1213 | box containment is transitive, which chains unions across merge passes |
| Boxes.AppendReason | internal/infrastructure/vision/detector.go:1738-1746 | an empty extra keeps the base, an empty base gives the extra, and the result starts with the base |
| Boxes.AppendReasonKeepsExtra | internal/infrastructure/vision/detector.go:1738-1746 | the appended extra always occurs in the result |
| Boxes.CombineReasons | internal/infrastructure/vision/detector.go:1748-1759 | an empty side gives the other side, equal reasons collapse to one, and the result starts with the first reason |
| Boxes.CombineReasonsKeepsBoth | internal/infrastructure/vision/detector.go:1748-1759 | both reasons occur in the combined reason |
| Boxes.MakeRect | internal/infrastructure/vision/detector.go:1057-1061 | the rectangle is canonical (min <= max) and has the given coordinates on each axis |
| Boxes.Intersect | internal/infrastructure/vision/detector.go:1057-1061 | the intersection is either the zero rectangle or a non-empty rectangle inside both inputs, and it contains every non-empty rectangle inside both |
| Boxes.ExpandRect | internal/infrastructure/vision/detector.go:1057-1061 | the expanded rectangle is zero or non-empty inside the image bounds, and with a non-negative margin it contains any non-empty input rectangle that lies in the image |
| Boxes.UnionRect | internal/infrastructure/vision/detector.go:1279-1285 | the union is canonical and contains both canonical inputs |
| Boxes.UnionRectIsSmallest | internal/infrastructure/vision/detector.go:1279-1285 | every rectangle containing both inputs contains their union |
| Boxes.NormalizeKernelSize | internal/infrastructure/vision/detector.go:443-454 | the kernel size is odd and at least 1; a positive value is kept when odd and rounded up when even; otherwise the fallback is normalised the same way, or 1 is used |
| Boxes.MaxFloat | internal/infrastructure/vision/detector.go:456-467 | no values give 0, otherwise the result is one of the values and at least every value |
| Suppression.GreedyKeep | internal/infrastructure/vision/detector.go:556-572 | the greedy pass: each box, in order, is kept unless it duplicates a box kept before it; its properties are the GreedyKeep lemmas below |
| Suppression.GreedyKeepPrefix | internal/infrastructure/vision/detector.go:556-572 | the pass over the first n boxes keeps a prefix of what the pass over all boxes keeps: kept boxes are never revisited |
| Suppression.GreedyKeepDropsOnlyDuplicates | internal/infrastructure/vision/detector.go:557-570 | a box is left out only when it duplicates a box kept before it (the converse of GreedyKeepNoLaterDuplicate) |
| Suppression.GreedyKeepAccountsForAll | internal/infrastructure/vision/detector.go:557-570 | every input box is kept or duplicates some kept box |
| Suppression.GreedyKeepIsSubsequence | internal/infrastructure/vision/detector.go:556-572 | the greedy pass keeps a subsequence of its input, in order |
| Suppression.SubsequenceOfSorted | internal/infrastructure/vision/detector.go:556-572 | a subsequence is no longer than its source, draws its members from it, and stays sorted by area when the source is |
| Suppression.SuppressesSymmetric | internal/infrastructure/vision/detector.go:561-563 | the duplicate test is symmetric, because IoU and containment are |
| Suppression.GreedyKeepNoLaterDuplicate | internal/infrastructure/vision/detector.go:556-572 | no kept box is a duplicate of a box kept before it |
| Suppression.GreedyKeepPairwise | internal/infrastructure/vision/detector.go:556-572 | for any two distinct kept positions, IoU is below the threshold and containment below the ratio |
| Suppression.GreedyKeepKeepsFirst | internal/infrastructure/vision/detector.go:556-572 | a non-empty input always keeps its first box |
| Suppression.SortByAreaDesc | internal/infrastructure/vision/detector.go:552-554 | the array is sorted by area, largest first, and is a permutation of its old contents |
| Suppression.InsertIntoSorted | internal/infrastructure/vision/detector.go:552-554 | inserting element i into the sorted prefix extends the sorted prefix by one and permutes the array |
| Suppression.SuppressDuplicateDefects | internal/infrastructure/vision/detector.go:547-573 | fewer than 2 boxes are returned unchanged; otherwise the caller's array is sorted by area in place and the result is the greedy keep of the sorted boxes |
| Suppression.CandidateOf | internal/infrastructure/vision/detector.go:484-529 | the acceptance filter for one contour, test by test in the source order: rectangle area, height, contour area, aspect, fill; an accepted contour gives its bounding box tagged with the stage |
| Suppression.Candidates | internal/infrastructure/vision/detector.go:483-530 | the candidates of the contours, in contour order; characterised by CandidatesFromAcceptable and computed by CollectCandidates |
| Suppression.CandidateOfAccepts | internal/infrastructure/vision/detector.go:484-529 | a contour yields a candidate exactly when it passes every acceptance test, and the candidate is the contour's bounding box with Area = Width*Height and the reason tag |
| Suppression.CandidatesFromAcceptable | internal/infrastructure/vision/detector.go:483-530 | every collected candidate is the box of some acceptable input contour |
| Suppression.AcceptableBox | internal/infrastructure/vision/detector.go:486-513 | an accepted contour's box is well formed with positive area of at least the minimum rectangle area |
| Suppression.ReasonTag | internal/infrastructure/vision/detector.go:470-473 | the reason tag is never empty and a given non-empty tag is kept |
| Suppression.CollectCandidates | internal/infrastructure/vision/detector.go:483-530 | the loop collects exactly the candidates of the contours, in contour order |
| Suppression.GreedyKeepOfSorted | internal/infrastructure/vision/detector.go:547-573 | from a sorted list, the greedy pass keeps a sorted, pairwise non-duplicate subset that includes a box of maximum area |
| Suppression.SuppressedCandidates | internal/infrastructure/vision/detector.go:547-573 | the suppression result is the greedy keep of an area-sorted permutation of the candidates. It is never longer than them, drawn from them, sorted, pairwise below the limits, starts with a largest candidate, and every candidate left out duplicates a kept box |
| Suppression.ExtractDefectsFromContours | internal/infrastructure/vision/detector.go:469-545 | the defects are the greedy keep of an area-sorted permutation of the candidates: each is the box of an acceptable contour (area at least the floor, contour area, aspect and fill in range), they are sorted and pairwise non-duplicate, start with a largest candidate, and every candidate left out duplicates a kept defect |
| Merging.Absorb | internal/infrastructure/vision/detector.go:1119-1129 | a box is appended exactly when it is near no merged box; otherwise the length is unchanged |
| Merging.AbsorbCovers | internal/infrastructure/vision/detector.go:1119-1129 | after absorbing, every earlier merged box and the absorbed box lie inside some merged box |
| Merging.AbsorbAt | internal/infrastructure/vision/detector.go:1120-1125 | the first near merged box is replaced by its union with the absorbed box, in place |
| Merging.MergePass | internal/infrastructure/vision/detector.go:1117-1130 | one pass never lengthens the list and keeps a non-empty list non-empty |
| Merging.MergePassCovers | internal/infrastructure/vision/detector.go:1117-1130 | every input box lies inside some box of the pass's output |
| Merging.MergePassSameLength | internal/infrastructure/vision/detector.go:1132-1134 | a pass that does not shrink the list returns it unchanged, and then no two of its boxes are near |
| Merging.CoversTransitive | internal/infrastructure/vision/detector.go:1132-1135 | covering chains across recursive passes |
| Merging.MergeNearby | internal/infrastructure/vision/detector.go:1109-1136 | the recursive merge: fewer than 2 boxes are returned, otherwise one pass at max(distance, 0), repeated while the list shrinks; characterised by MergeNearbyProperties |
| Merging.MergeNearbyProperties | internal/infrastructure/vision/detector.go:1109-1136 | merging never lengthens the list, keeps it non-empty, covers every input box, and for 2 or more boxes leaves no pair that should merge at max(distance, 0) |
| Merging.MergeNearbyPairwise | internal/infrastructure/vision/detector.go:1109-1136 | no two distinct boxes of the merged list satisfy the merge test at max(distance, 0) |
| Merging.AbsorbBox | internal/infrastructure/vision/detector.go:1119-1129 | the inner loop computes the absorb step |
| Merging.MergeOnce | internal/infrastructure/vision/detector.go:1117-1130 | the outer loop computes one merge pass |
| Merging.MergeNearbyDefects | internal/infrastructure/vision/detector.go:1109-1136 | the method computes the recursive merge, with a negative distance treated as 0, and recurses only while the list shrinks |
| Merging.MaxArea | internal/infrastructure/vision/detector.go:1149-1154 | the maximum is non-negative, at least every area, and 0 or the area of some box |
| Merging.Dominant | internal/infrastructure/vision/detector.go:1163 | a kept box gets the dominant note appended to its reason |
| Merging.DominantFilter | internal/infrastructure/vision/detector.go:1159-1166 | the boxes whose share of the largest area reaches the ratio, noted as dominant, in input order; characterised by DominantFilterMembers and DominantFilterInOrder |
| Merging.KeepDominant | internal/infrastructure/vision/detector.go:1138-1184 | the dominant filter with its early returns, the ratio capped at 1, and the input returned when nothing is kept; characterised by KeepDominantProperties and KeepDominantInactive |
| Merging.ReachesMeans | internal/infrastructure/vision/detector.go:1161-1162 | a box passes the ratio test exactly when area >= ratio * maxArea |
| Merging.DominantFilterMembers | internal/infrastructure/vision/detector.go:1159-1166 | the filter never lengthens the list, keeps only boxes passing the ratio test, and keeps every box that passes it |
| Merging.DominantFilterInOrder | internal/infrastructure/vision/detector.go:1159-1166 | there is a strictly increasing list of positions that is exactly the set of positions whose box reaches the ratio, and the result is those boxes, noted, in that order: input order and multiplicity are kept |
| Merging.EffectiveRatio | internal/infrastructure/vision/detector.go:1145-1147 | the ratio is capped at 1 and otherwise unchanged |
| Merging.KeepDominantProperties | internal/infrastructure/vision/detector.go:1138-1184 | when active, the result is non-empty and no longer than the input, holds exactly the boxes whose area reaches min(minRatio,1) of the maximum, noted, in input order and once each, and includes a maximum-area box |
| Merging.LargestReaches | internal/infrastructure/vision/detector.go:1145-1162 | a maximum-area box always passes a ratio of at most 1 |
| Merging.KeepDominantInactive | internal/infrastructure/vision/detector.go:1139-1157 | fewer than 2 boxes, a non-positive ratio or a zero maximum area return the input unchanged |
| Merging.LargestArea | internal/infrastructure/vision/detector.go:1149-1154 | the loop computes the maximum area |
| Merging.FilterDominant | internal/infrastructure/vision/detector.go:1159-1166 | the loop computes the dominant filter, in input order |
| Merging.KeepDominantBrokenDefects | internal/infrastructure/vision/detector.go:1138-1184 | the method computes the dominant-box filter |
| Geometry.DetermineShapeFamily | internal/infrastructure/vision/detector.go:966-986 | the shape family from the measured descriptors, by rule priority; characterised by ShapeFamilyCharacterised |
| Geometry.ShapeFamilyCharacterised | internal/infrastructure/vision/detector.go:966-986 | toothed exactly when concavity reaches the minimum; else round exactly when circularity reaches its minimum; else polygon exactly for 3..12 vertices with circularity and extent minimums met; else unknown |
| Geometry.ToothedIgnoresOtherDescriptors | internal/infrastructure/vision/detector.go:966-986 | with enough concavity the family is toothed whatever the other descriptors |
| Geometry.GeometryMismatch | internal/infrastructure/vision/detector.go:718-775 | the mismatch rules between the base and current descriptors and the reason code chosen by priority, or none; characterised by the lemmas below |
| Geometry.GeometryMismatchPriority | internal/infrastructure/vision/detector.go:718-775 | a mismatch is reported exactly when the check is on and some rule fires; the reason follows the priority tooth_count > polygon_vertices > round_profile > toothed_shape > shape_family |
| Geometry.UnknownNeverFamilyMismatch | internal/infrastructure/vision/detector.go:722-724 | an unknown family on either side never gives a family mismatch, and on both sides no mismatch at all |
| Geometry.PolygonReasonNeedsVertexCounts | internal/infrastructure/vision/detector.go:728-768 | the polygon reason needs two polygons with vertex counts in (0,12] |
| Geometry.IdenticalNeverMismatch | internal/infrastructure/vision/detector.go:718-775 | with positive gap thresholds, identical descriptors never mismatch |
| Geometry.GeometryMismatchSymmetric | internal/infrastructure/vision/detector.go:718-775 | the mismatch decision does not depend on which photo is the base |
| Geometry.HasSeparatedPart | internal/infrastructure/vision/detector.go:1045-1055 | whether the second-largest component is large enough relative to a positive largest one; characterised by HasSeparatedPartMeans |
| Geometry.HasSeparatedPartMeans | internal/infrastructure/vision/detector.go:1045-1055 | a separated part exists exactly when there are 2 or more components, the first has positive area, and the second reaches the relative minimum of it |
| Geometry.FocusComponents | internal/infrastructure/vision/detector.go:626-636 | 2 or more current components are kept; otherwise the eroded components replace them only when there are 2 or more |
| Geometry.AreaLoss | internal/infrastructure/vision/detector.go:639-643 | whether the relative area loss from base to current reaches the ratio; characterised by AreaLossMeans |
| Geometry.AreaLossMeans | internal/infrastructure/vision/detector.go:639-643 | area loss fires exactly when the base area is positive, the current area is smaller, and the loss reaches the ratio times the base area |
| Geometry.AreaLossMonotone | internal/infrastructure/vision/detector.go:639-643 | a smaller current area still triggers area loss |
| Geometry.BrokenTrigger | internal/infrastructure/vision/detector.go:638-646 | the broken-part trigger: a component split of a single-part base, or area loss; characterised by BrokenTriggerMeans |
| Geometry.BrokenTriggerMeans | internal/infrastructure/vision/detector.go:638-646 | the broken-part trigger fires exactly on a component split of a single-part base or on area loss |
| Geometry.NoTriggerWithoutChange | internal/infrastructure/vision/detector.go:638-646 | a multi-component base whose area did not shrink never triggers |
| Quality.CheckImageQuality | internal/infrastructure/vision/detector.go:1303-1390 | the quality gate: the first failing check in the source order (empty, too small, empty ROI, blurry, overexposed, underexposed, invalid HSV, glare), or none; characterised by the lemmas below |
| Quality.CheckImageQualityPasses | internal/infrastructure/vision/detector.go:1303-1390 | the gate passes exactly when every check in the sequence passes |
| Quality.TooSmallWins | internal/infrastructure/vision/detector.go:1308-1310 | a non-empty image below the minimum side fails as too small, before any other check |
| Quality.RelaxedSkipsPhotometry | internal/infrastructure/vision/detector.go:1332-1387 | with the relaxed gate, no exposure or glare failure is reported |
| Quality.RelaxedAcceptsMore | internal/infrastructure/vision/detector.go:1324-1387 | an image the strict gate passes also passes when only its part ROI grows enough to relax the gate |
| Quality.GlareLimitMonotone | internal/infrastructure/vision/detector.go:1381-1387 | raising the glare limit never turns a pass into a failure |
| Quality.QualityMessage | internal/infrastructure/vision/detector.go:1303-1390 | every quality failure message starts with "quality gate failed for " |
| Diff.SelectDiffBranch | internal/infrastructure/vision/detector.go:299-310 | the geometry branch is taken exactly when geometry mode is on and broken mode is off; otherwise the contour branch carries the broken flag |
| Diff.MergeAndKeepDominant | internal/infrastructure/vision/detector.go:351-353 | merging at the broken merge distance, then keeping the dominant boxes |
| Diff.BrokenPostProcess | internal/infrastructure/vision/detector.go:347-368 | the broken-mode post-processing: merge and dominant filter of the overlap-kept boxes, falling back to the structural boxes when that is empty |
| Diff.KeepDominantEmpty | internal/infrastructure/vision/detector.go:1138-1184 | the dominant filter empties a list only when it was empty |
| Diff.MergeAndKeepDominantEmpty | internal/infrastructure/vision/detector.go:351-353 | merging then filtering empties a list only when it was empty |
| Diff.BrokenPostProcessEmpty | internal/infrastructure/vision/detector.go:347-368 | the broken post-processing is empty exactly when both the overlap-kept and the structural boxes are; the fallback runs only when overlap filtering left nothing |
| Storage.MemoryUserRepository.constructor | internal/infrastructure/storage/memory_user_repository.go:18-22 | the repository starts empty |
| Storage.MemoryUserRepository.Get | internal/infrastructure/storage/memory_user_repository.go:25-42 | an existing user is returned with the map unchanged and the chat ID ignored; a missing one is created in the main menu with the given IDs and stored. Afterwards the key is present |
| Storage.MemoryUserRepository.Save | internal/infrastructure/storage/memory_user_repository.go:45-51 | the user is stored under its ID, overwriting, and other keys are unchanged |
| Storage.MemoryUserRepository.UpdateState | internal/infrastructure/storage/memory_user_repository.go:54-63 | the map is unchanged: a missing ID is a no-op, and a present one changes only that user's state |
| App.UserService.constructor | internal/application/user.go:14-17 | the service wraps the given repository |
| App.UserService.Get | internal/application/user.go:20-22 | delegates to the repository's create-on-read Get |
| App.UserService.SetState | internal/application/user.go:25-37 | the user (created with the given IDs when missing) ends in the requested state and is saved under its ID; other users keep their states |
| App.UserService.BeginCheck | internal/application/user.go:40-42 | the user ends awaiting the original photo, saved, with others unchanged |
| App.UserService.Cancel | internal/application/user.go:45-47 | the user ends in the main menu, saved, with others unchanged |
| App.Highlighting | internal/application/inspection.go:69-75 | the annotated photo: empty without defects, the drawing on success, empty when drawing fails; see NoHighlightWithoutDefects |
| App.DiffOutcome | internal/application/inspection.go:52-76 | the outcome of comparing the stored original with the current photo: missing detector first, then missing or empty original, then the detector result with its highlighting; the service method is proved to return it |
| App.InspectAndHighlight | internal/application/inspection.go:64-75 | a detector error is returned unchanged with no highlight call; on success highlighting is requested only when there are defects, and a highlight error gives an empty image and no error |
| App.InspectionService.constructor | internal/application/inspection.go:27-34 | the service starts with no stored originals |
| App.InspectionService.AcceptOriginalPhoto | internal/application/inspection.go:37-43 | the photo is stored under the user, overwriting, and the user moves to awaiting the defect photo |
| App.InspectionService.AcceptDefectPhoto | internal/application/inspection.go:46-49 | the photo is ignored, originals are untouched and the user returns to the main menu |
| App.InspectionService.ProcessDefectPhotoDiff | internal/application/inspection.go:52-76 | a missing detector fails first, then a missing or empty original, neither calling the detector; otherwise the diff inspection runs on the stored original. Originals are never modified |
| App.InspectionService.ProcessDefectPhoto | internal/application/inspection.go:78-95 | a missing detector fails without calls; otherwise inspection and highlighting as in the diff path |
| App.NoHighlightWithoutDefects | internal/application/inspection.go:69-75 | a result without defects is never highlighted |
| Text.ToLower | internal/api/bot.go:302 | ASCII lower-casing of the error message |
| Text.Contains | internal/api/bot.go:303-314 | substring test: the phrase occurs at some position of the message |
| Telegram.ClassifyInspectionError | internal/api/bot.go:297-319 | "none" exactly when there is no error |
| Telegram.Tag | internal/api/bot.go:302-318 | an error message never classifies as "none" |
| Telegram.ClassifyIgnoresCase | internal/api/bot.go:302 | classification ignores ASCII case |
| Telegram.QualityFailureClassified | internal/api/bot.go:303-304 | every quality gate failure message, including its "empty image" variant, classifies as quality_gate |
| Telegram.QualityPrefixTagged | internal/api/bot.go:303-304 | any message starting with the quality gate prefix classifies as quality_gate |
| Telegram.AlignmentFailureClassified | internal/api/bot.go:305-306 | an alignment failure message classifies as alignment when its detail cannot spell the quality phrase |
| Telegram.DecodeFailureClassified | internal/api/bot.go:307-308 | the decoder's error classifies as decode |
| Telegram.OriginalMissingClassified | internal/api/bot.go:309-310 | the missing-original error classifies as missing_original |
| Telegram.DetectorMissingClassified | internal/api/bot.go:311-312 | the missing-detector error classifies as detector_not_configured |
| Telegram.EmptyImageClassified | internal/api/bot.go:313-314 | the detector's bare "empty image" error classifies as empty_image |
| Telegram.EmptyMessageUnknown | internal/api/bot.go:302-318 | a message with no known phrase classifies as unknown |
| Telegram.ExtractPhoto | internal/api/bot.go:265-272 | no photos give no data and no error; otherwise the download of the last (largest) size |
| Telegram.ExtractPhotoUsesLargest | internal/api/bot.go:265-272 | only the last (largest) photo size is downloaded |
| Telegram.NoPhotoNoData | internal/api/bot.go:266-268 | a message without photos yields no data and no error |
| Telegram.Transition | internal/api/bot.go:59-201 | the dialog: the state after one message given the state before and the photo; characterised by the lemmas below and realised by Bot.HandleMessage |
| Telegram.FirstReply | internal/api/bot.go:104-201 | the first reply to a message in each state: help, start, prompts, cancel confirmation, the only-cancel hint, the processing error, or the processing notice |
| Telegram.ProcessingReplies | internal/api/bot.go:204-262 | the replies reporting a comparison: the error text, or a defects or no-defects text followed by the highlighted photo when there is one; see ProcessingRepliesShape |
| Telegram.TransitionLive | internal/api/bot.go:59-82 | every step ends in one of the three live states |
| Telegram.MainMenuOnlyCheckMoves | internal/api/bot.go:104-128 | in the main menu the state changes exactly on the check command |
| Telegram.CancelAlwaysReturns | internal/api/bot.go:131-144 | the cancel command always leads to the main menu |
| Telegram.RejectedPhotoKeepsState | internal/api/bot.go:146-155 | in an awaiting state, a message with no photo or a failed download leaves the state unchanged |
| Telegram.CheckCycle | internal/api/bot.go:104-201 | check, original photo and defect photo lead from the main menu through both awaiting states back to it, storing the original and starting processing |
| Telegram.ProcessingIffLeavesDefectStep | internal/api/bot.go:167-201 | processing starts exactly when an accepted photo arrives while awaiting the defect photo |
| Telegram.ProcessingRepliesShape | internal/api/bot.go:204-262 | processing sends one or two replies: only the error text on failure, otherwise a defects or no-defects text, followed by the highlighted photo when there is one |
| Telegram.Bot.constructor | internal/api/bot.go:24-36 | the bot wires the given services and download function |
| Telegram.Bot.HandleMessage | internal/api/bot.go:59-82 | the sender is fetched or created, an unknown state is reset, and the new state is the transition of the old state. Other users keep their states, originals change only when an original is stored, and the replies are the first reply plus the processing replies |
| Telegram.Bot.HandleMainMenu | internal/api/bot.go:104-128 | the new state and the single reply are those of the main-menu transition; other users are unchanged |
| Telegram.Bot.HandleAwaitingOriginal | internal/api/bot.go:131-164 | the new state and reply are those of the awaiting-original transition, and an accepted photo is stored as the original |
| Telegram.Bot.HandleAwaitingDefect | internal/api/bot.go:167-201 | the new state and reply are those of the awaiting-defect transition; an accepted photo starts processing |
| Telegram.Bot.ProcessDefectPhoto | internal/api/bot.go:204-262 | the replies are those of the diff inspection's outcome, and the logged reason is the classification of its error |

## Left out

- OpenCV pixel work is not modelled: decoding, blurring, thresholds, morphology, contour finding, shape matching, ECC alignment, warping, drawing and JPEG encoding. Its measurements are inputs.
- The mask routines are not modelled either: part, interior and ring masks, the diff-mask clean-up, erosion for splitting, mask IoU, and ROI ratios. Nor are `significantMaskComponents`, `filterDefectsByMaskOverlap` and `defectsFromMask`.
- The orchestration of `Inspect`, `InspectDiff` and `HighlightDefects` is modelled only through the branch guard, the broken post-processing and the error messages. The detector is a parameter of the services.
- Floating-point rounding is not modelled; ratios are exact reals. The minimum rectangle area, which the source derives by a truncating float product, is an input of `Suppression.ExtractDefectsFromContours`.
- Go's 64-bit integer overflow is not modelled; integers are unbounded.
- Quality.QualityMessage: the formatted numbers inside messages (`%.4f` ratios, image sizes) are left out. Only the fixed parts of each message are kept.
- Suppression.CandidateOf: a candidate's reason is only the stage tag; the contour area, fill and aspect the source formats into it are left out. Two candidates from the same stage therefore have equal reasons, which Boxes.CombineReasons collapses to one when their boxes merge, where the source would join two different reasons with " | ".
- Merging.Dominant: the note appended to a dominant box's reason omits the formatted ratio.
- Locks (`sync.RWMutex`) and the processing goroutine are not modelled. Each handler runs to completion, including the processing it starts.
- The Telegram API and HTTP download are not modelled. The download is a function parameter of the bot, and messages sent are a returned list of `Reply` values rather than texts.
- Logging is not modelled, including the per-defect reason log with its "not_set" default. Only the classified error tag, which the source logs, is returned.
- `strings.ToLower` is modelled for ASCII only; Unicode case folding is not.
- Error branches the in-memory repository cannot reach are not modelled: `Get` and `Save` never fail, and the service error paths and the bot's error replies after them are dead. The bot's nil-result branch is dead as well, because processing always returns a result or an error.
- `NewBot`, `Run`, `sendMessage`, `sendPhoto`, `downloadFile`, configuration, wiring and the `detector_stub.go` stand-in are not modelled.
- `classifyInspectionError` is proved for each message the detector and services produce, not for arbitrary text.
