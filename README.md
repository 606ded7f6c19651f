# Ball tracking: candidate selection, frame gates and trajectory completion

A Dafny model of the core of a 2D ball tracker for cricket video. Each frame
is segmented by colour, the best round blob becomes the frame's raw
detection, a cascade of gates rejects detections in known false-positive
regions or too far from the last accepted point, and one record is emitted
per frame. Afterwards the whole table of records is completed in place:
gaps between detections are filled linearly and the trajectory is extended
backwards from the first detection along a parabola.

Modules:

- `BallCandidates` (`candidates.dfy`): the HSV threshold rules of
  `get_ball_mask`, with the unsupported-colour error as a `Result`, and the
  filter-then-argmax loop of `find_ball_centroid` over contour features
  `(area, perimeter, m00, m10, m01)`.
- `FrameGates` (`gates.dfy`): the per-frame body of `process_video`:
  rescaling to original resolution, the vertical crop, the central lane, the
  glove box, the jump filter, the accepted history and the record table.
  What each frame's detector returned is an input sequence.
- `TrajectoryReconstruction` (`reconstruct.dfy`): `interpolate_trajectory` on
  an `array<Row>`, proved equal to the function `Reconstruct` of the table it
  started from; lemmas state what `Reconstruct` does to each row.
- `Pipeline` (`pipeline.dfy`): the record table read back as rows, and the
  sentinel invariant carried across both stages.
- `Wrappers` (`wrappers.dfy`): `Option` and `Result`.

Modelling choices:

- The `visible` column (0/1 in the source) is a `bool`.
- Positions, circularity and the interpolated and extrapolated values are
  exact `real`s. Python's `int()` on a float is `Trunc`, which truncates
  toward zero.
- π is a constant. Nothing proved depends on its digits.
- The jump test `sqrt(dx² + dy²) > max_jump` is stated on squares. For a
  non-negative limit the two forms agree.
- The integer gate bounds (`int(height * 0.75)` and the rest) are fields of
  `GateConfig`. `DefaultConfig` computes them as exact percentages rounded
  down, which can be one pixel above the source's truncated float product.
- The record stage keeps `x` and `y` as integers. `Pipeline.ToTable` is glue
  between the stages: it turns each record into a row with `x` and `y` as
  floats, as writing and reading the CSV does. It has no property of its own.

Notes on the behaviour of the code:

- The backward speeds (8 and 17 pixels per frame) and the curvature (1) are
  constants in the code, not configuration.
- The sentinel invariant "a row is not visible exactly when it holds (-1, -1)"
  holds of the per-frame records whenever the lane's left bound is
  non-negative, as it always is for the default bounds: a visible record then
  has x >= 0. After the reconstruction only one direction is kept, namely a
  row that is still not visible holds (-1, -1). The converse can fail: a
  visible row at (7, 15) extrapolates to a visible row at (-1, -1) one frame
  earlier.

## Model

| member | source | states |
|---|---|---|
| BallCandidates.ColorRanges | Code/utils.py:23-41 | the colour name is rejected exactly when it is neither "white" nor "red"; a supported name has at least one HSV range |
| BallCandidates.ThresholdMask | Code/utils.py:18-41 | the mask fails exactly for an unsupported colour; otherwise it has the image's dimensions |
| BallCandidates.WhiteMaskPixel | Code/utils.py:23-28 | for white, a pixel is set iff 0 <= H <= 180, 0 <= S <= 90 and 190 <= V <= 255 |
| BallCandidates.RedMaskPixel | Code/utils.py:30-38 | for red, a pixel is set iff it lies in [(0,120,70),(10,255,255)] or in [(170,120,70),(180,255,255)] |
| BallCandidates.RedBandsDisjoint | Code/utils.py:32-38 | no pixel lies in both red hue bands |
| BallCandidates.Trunc | Code/utils.py:75-76 | int() truncates toward zero: the result lies within 1 of the argument, on the zero side |
| BallCandidates.FindBallCentroid | Code/utils.py:50-87 | the sentinel (-1,-1,not visible) is returned iff no contour passes all filters with a positive score; otherwise the result is the truncated centroid of a contour that passes the area window, nonzero perimeter, circularity and nonzero m00 filters, has the maximal circularity × area, and scores strictly above every earlier passing contour |
| BallCandidates.PassingScoresPositive | Code/utils.py:57-82 | with positive min_area and min_circularity, every contour that passes the filters scores above the initial best score 0 |
| BallCandidates.EligibleIffPasses | Code/utils.py:56-87 | with positive thresholds, "no contour beats score 0" is the same as "no contour passes the filters", so the sentinel means no passing contour |
| BallCandidates.DefaultThresholdsEligibility | Code/utils.py:50-87 | with the default thresholds (min_area 10, max_area 8000, min_circularity 0.3), no contour beats score 0 iff no contour passes the filters |
| BallCandidates.BestIsUnique | Code/utils.py:79-82 | the strict comparison determines a unique winner; on equal scores the earliest contour wins |
| FrameGates.GateStep | Code/detect_ball.py:42-93 | a frame stays visible iff it had a detection and its rescaled point passes the vertical crop, the lane, the glove box and the jump filter; the point is the rescaled one when visible and (-1,-1) otherwise |
| FrameGates.ProcessVideo | Code/detect_ball.py:26-117 | one record per frame with frame = 0..K-1; each record's visibility is the cascade's verdict against the history accepted before it; gates only downgrade; non-visible records hold (-1,-1); visible ones satisfy y <= yMax, laneXMin <= x <= laneXMax and lie outside the glove box; the history is exactly the visible records' points in order, and consecutive history points are at most maxJump apart; when the lane's left bound is non-negative, a record is visible iff it does not hold (-1,-1) |
| FrameGates.DefaultLaneNonNegative | Code/detect_ball.py:64-65 | the default left lane bound int(width * 0.30) is never negative, so the default per-frame records satisfy the sentinel rule in both directions |
| FrameGates.BottomQuarterRejected | Code/detect_ball.py:56-60 | in a 1920 × 1080 frame a point at (1000, 850) is below the vertical crop (y = 810) and is rejected |
| TrajectoryReconstruction.DetectedIndices | Code/interpolate_trajectory.py:10 | the detection indices are strictly increasing, all in range, all visible, and include every visible row |
| TrajectoryReconstruction.InterpolateTrajectory | Code/interpolate_trajectory.py:10-59 | the table rewritten in place equals Reconstruct of the table it held before |
| TrajectoryReconstruction.FillGapInPlace | Code/interpolate_trajectory.py:17-30 | one gap: rows strictly between the two anchors are filled from them, nothing else changes |
| TrajectoryReconstruction.BackExtendInPlace | Code/interpolate_trajectory.py:41-59 | the m rows before the first detection are rewritten from it, nothing else changes |
| TrajectoryReconstruction.FillGapsOutside | Code/interpolate_trajectory.py:17-30 | gap filling leaves every row outside the filled gaps untouched |
| TrajectoryReconstruction.FillGapsInside | Code/interpolate_trajectory.py:17-30 | a filled row is the blend of its gap's ORIGINAL anchors, because anchors are never overwritten |
| TrajectoryReconstruction.ReconstructFromFirst | Code/interpolate_trajectory.py:17-59 | from the first detection on, the reconstruction equals the gap filling alone, since the backward extension only writes rows before it |
| TrajectoryReconstruction.ReconstructBeforeFirst | Code/interpolate_trajectory.py:33-59 | for k = 1..min(back_extend_frames, first), row first−k is extrapolated from the gap-filled row at the first detection |
| TrajectoryReconstruction.ReconstructKeepsDetections | Code/interpolate_trajectory.py:17-59 | rows visible in the input keep frame, x, y and visible |
| TrajectoryReconstruction.ReconstructFillsGap | Code/interpolate_trajectory.py:23-30 | a row start+k between consecutive detections gets x = (1 − k/n)x0 + (k/n)x1, likewise y, and visible |
| TrajectoryReconstruction.LerpBetween | Code/interpolate_trajectory.py:25-27 | the blended value lies between the anchor values and equals them at k = 0 and k = n |
| TrajectoryReconstruction.GapExample | Code/interpolate_trajectory.py:23-30 | rows 2 at (10,10) and 4 at (30,30) put row 3 at (20,20) |
| TrajectoryReconstruction.ReconstructBackExtension | Code/interpolate_trajectory.py:33-59 | for k = 1..min(back_extend_frames, first), row first−k gets x0 − 8k, y0 − 17k + k² and visible; its frame is kept and the index is never negative |
| TrajectoryReconstruction.ExtrapolatedLaw | Code/interpolate_trajectory.py:45-55 | at t = −k the parabola gives x0 − 8k and y0 − 17k + k², and at k = 0 the anchor itself |
| TrajectoryReconstruction.ReconstructAfterLastDetection | Code/interpolate_trajectory.py:17-30 | rows after the last detection are unchanged |
| TrajectoryReconstruction.ReconstructBeforeExtension | Code/interpolate_trajectory.py:41-59 | rows more than back_extend_frames before the first detection are unchanged |
| TrajectoryReconstruction.ReconstructRow | Code/interpolate_trajectory.py:17-59 | every row is either unchanged or made visible, and the frame column is never written |
| TrajectoryReconstruction.ExtrapolationCanHitSentinel | Code/interpolate_trajectory.py:45-55 | a visible anchor at (7,15) extrapolates one frame back to a visible row at (-1,-1), so after the reconstruction (-1,-1) no longer implies not visible |
| TrajectoryReconstruction.ReconstructKeepsSentinel | Code/interpolate_trajectory.py:17-59 | a row still not visible afterwards keeps the (-1,-1) sentinel it had |
| TrajectoryReconstruction.ReconstructVisibleSpan | Code/interpolate_trajectory.py:17-59 | every row from first − N to the last detection is visible afterwards |
| TrajectoryReconstruction.ReconstructFewDetections | Code/interpolate_trajectory.py:10-14 | with at most one visible row the table is returned unchanged |
| TrajectoryReconstruction.ReconstructAllVisible | Code/interpolate_trajectory.py:17-59 | a table whose rows are all visible is a fixed point |
| TrajectoryReconstruction.AllDetectedFrom | Code/interpolate_trajectory.py:10 | when every row is visible the detection indices are exactly 0..len−1 |
| TrajectoryReconstruction.FiveFrameScenario | Code/interpolate_trajectory.py:17-30 | five frames missing only frame 2 come out all visible, with frame 2 at the midpoint of frames 1 and 3 |
| Pipeline.SentinelAcrossStages | Code/interpolate_trajectory.py:7-59 | records numbered 0..K-1 that satisfy the sentinel invariant still satisfy it after the reconstruction, and the frame column still runs 0..K-1 |

## Left out

- Image processing is not modelled: resizing, blurring, the HSV conversion, the morphological opening and dilation of the mask, contour extraction and the contour measurements (`preprocess_frame` and the library calls in Code/utils.py). These are foreign library calls. Contours enter as feature records, pixels as HSV triples, and each frame's working size as input.
- BallCandidates.ThresholdMask: describes the mask before the morphological clean-up only, because the opening and dilation are library calls.
- Video capture, the video writer, drawing circles and lines, CSV writing and reading, argument parsing and console output are not modelled. They are I/O. The failure to open the input video is therefore not modelled either.
- IEEE floating point is not modelled: the model uses exact reals. Rounding of `width * 0.30` and similar products, of the rescaling `x * (width / pw)`, and of `k / n` can differ from the exact values in the last bit.
- FrameGates.ProcessVideo: takes the integer gate bounds and the jump limit as configuration instead of hard-coding the fractions 0.75, 0.30, 0.70, 0.60, 0.90, 0.35, 0.80 and the limit 150. `DefaultConfig` computes the bounds in exact arithmetic rounded down, which can be one pixel above the source's int() of the float product (720 × 0.35 gives 251 in the source and 252 here).
- Code/debug_hsv.py, Code/extract_frames.py and Code/track_and_annotate.py are not part of this model. They are an interactive tuning window, frame extraction to disk and re-rendering from the CSV.
