/** Colour segmentation and candidate selection of one frame (Code/utils.py).

    The image library is outside the model: a pixel is an HSV triple and a
    contour is the record of the features the library would compute for it
    (area, perimeter and the three moments m00, m10, m01). */
module BallCandidates {
  import opened Wrappers

  // ---------------------------------------------------------------------
  // Colour mask (get_ball_mask), before the morphological clean-up
  // ---------------------------------------------------------------------

  datatype Hsv = Hsv(h: int, s: int, v: int)

  /** An inclusive box in HSV space, as given to an in-range threshold. */
  datatype HsvRange = HsvRange(lower: Hsv, upper: Hsv)

  datatype MaskError = UnsupportedBallColor

  predicate InRange(p: Hsv, r: HsvRange) {
    r.lower.h <= p.h <= r.upper.h &&
    r.lower.s <= p.s <= r.upper.s &&
    r.lower.v <= p.v <= r.upper.v
  }

  predicate InAnyRange(p: Hsv, rs: seq<HsvRange>) {
    exists k :: 0 <= k < |rs| && InRange(p, rs[k])
  }

  /** White under floodlights: any hue, low saturation, high value. */
  const WhiteRanges: seq<HsvRange> := [HsvRange(Hsv(0, 0, 190), Hsv(180, 90, 255))]

  /** Red wraps around the hue circle, so it takes two hue bands. */
  const RedRanges: seq<HsvRange> :=
    [HsvRange(Hsv(0, 120, 70), Hsv(10, 255, 255)), HsvRange(Hsv(170, 120, 70), Hsv(180, 255, 255))]

  /** The ranges of a colour profile; any name but "white" and "red" is an error. */
  function ColorRanges(ballColor: string): (r: Result<seq<HsvRange>, MaskError>)
    ensures r.Failure? <==> ballColor != "white" && ballColor != "red"
    ensures r.Success? ==> |r.value| > 0
  {
    if ballColor == "white" then Success(WhiteRanges)
    else if ballColor == "red" then Success(RedRanges)
    else Failure(UnsupportedBallColor)
  }

  /** The thresholded mask: a pixel is set iff it lies in one of the profile's ranges. */
  function ThresholdMask(img: seq<seq<Hsv>>, ballColor: string): (r: Result<seq<seq<bool>>, MaskError>)
    ensures r.Failure? <==> ballColor != "white" && ballColor != "red"
    ensures r.Success? ==>
      |r.value| == |img| && (forall i :: 0 <= i < |img| ==> |r.value[i]| == |img[i]|)
  {
    match ColorRanges(ballColor)
    case Failure(e) => Failure(e)
    case Success(rs) =>
      Success(seq(|img|, i requires 0 <= i < |img| =>
        seq(|img[i]|, j requires 0 <= j < |img[i]| => InAnyRange(img[i][j], rs))))
  }

  /** A white mask sets exactly the pixels with 0 <= H <= 180, S <= 90 and V >= 190 (all bounds inclusive). */
  lemma WhiteMaskPixel(img: seq<seq<Hsv>>, i: nat, j: nat)
    requires i < |img| && j < |img[i]|
    ensures ThresholdMask(img, "white").Success?
    ensures var p := img[i][j];
      ThresholdMask(img, "white").value[i][j] <==>
        0 <= p.h <= 180 && 0 <= p.s <= 90 && 190 <= p.v <= 255
  {
    var p := img[i][j];
    if 0 <= p.h <= 180 && 0 <= p.s <= 90 && 190 <= p.v <= 255 {
      assert InRange(p, WhiteRanges[0]);
    }
  }

  /** A red mask sets exactly the pixels of the low hue band or of the high hue band. */
  lemma RedMaskPixel(img: seq<seq<Hsv>>, i: nat, j: nat)
    requires i < |img| && j < |img[i]|
    ensures ThresholdMask(img, "red").Success?
    ensures var p := img[i][j];
      ThresholdMask(img, "red").value[i][j] <==>
        (0 <= p.h <= 10 && 120 <= p.s <= 255 && 70 <= p.v <= 255) ||
        (170 <= p.h <= 180 && 120 <= p.s <= 255 && 70 <= p.v <= 255)
  {
    var p := img[i][j];
    if 0 <= p.h <= 10 && 120 <= p.s <= 255 && 70 <= p.v <= 255 {
      assert InRange(p, RedRanges[0]);
    }
    if 170 <= p.h <= 180 && 120 <= p.s <= 255 && 70 <= p.v <= 255 {
      assert InRange(p, RedRanges[1]);
    }
  }

  /** The two red hue bands do not overlap, so the union is a disjoint one. */
  lemma RedBandsDisjoint(p: Hsv)
    ensures !(InRange(p, RedRanges[0]) && InRange(p, RedRanges[1]))
  {
  }

  // ---------------------------------------------------------------------
  // Candidate selection (find_ball_centroid)
  // ---------------------------------------------------------------------

  /** The features of one external contour. */
  datatype Contour = Contour(area: real, perimeter: real, m00: real, m10: real, m01: real)

  datatype Thresholds = Thresholds(minArea: real, maxArea: real, minCircularity: real)

  const DefaultThresholds: Thresholds := Thresholds(10.0, 8000.0, 0.3)

  /** The circle constant; nothing proved here depends on its digits, only on its sign. */
  const Pi: real := 3.141592653589793

  /** The result of one frame: a centroid in working-resolution pixels, or the sentinel. */
  datatype Detection = Detection(x: int, y: int, visible: bool)

  const NotVisible: Detection := Detection(-1, -1, false)

  /** Python's int() on a float: truncation toward zero. */
  function Trunc(r: real): (i: int)
    ensures 0.0 <= r ==> 0 <= i && i as real <= r < i as real + 1.0
    ensures r < 0.0 ==> i <= 0 && i as real - 1.0 < r <= i as real
  {
    if r >= 0.0 then r.Floor else -((-r).Floor)
  }

  function Circularity(c: Contour): real
    requires c.perimeter != 0.0
  {
    4.0 * Pi * (c.area / (c.perimeter * c.perimeter))
  }

  /** Larger and rounder blobs score higher. */
  function Score(c: Contour): real
    requires c.perimeter != 0.0
  {
    Circularity(c) * c.area
  }

  /** The four filters of the loop, in the order the source applies them; the
      short-circuit keeps both divisions guarded. */
  predicate Passes(c: Contour, t: Thresholds) {
    t.minArea <= c.area <= t.maxArea &&
    c.perimeter != 0.0 &&
    Circularity(c) >= t.minCircularity &&
    c.m00 != 0.0
  }

  function Centroid(c: Contour): (int, int)
    requires c.m00 != 0.0
  {
    (Trunc(c.m10 / c.m00), Trunc(c.m01 / c.m00))
  }

  /** Contour k passes every filter and beats the initial best score of zero. */
  ghost predicate Eligible(cs: seq<Contour>, t: Thresholds, k: int) {
    0 <= k < |cs| && Passes(cs[k], t) && Score(cs[k]) > 0.0
  }

  /** Contour k is the one the strict-greater argmax keeps: its score is maximal
      among eligible contours and strictly above every earlier eligible one. */
  ghost predicate IsBest(cs: seq<Contour>, t: Thresholds, k: int) {
    Eligible(cs, t, k) &&
    (forall j :: Eligible(cs, t, j) ==> Score(cs[j]) <= Score(cs[k])) &&
    (forall j :: 0 <= j < k && Eligible(cs, t, j) ==> Score(cs[j]) < Score(cs[k]))
  }

  /** The filter-then-argmax loop over the contours of one mask. */
  method FindBallCentroid(cs: seq<Contour>, t: Thresholds) returns (d: Detection)
    ensures !d.visible <==> forall k :: 0 <= k < |cs| ==> !Eligible(cs, t, k)
    ensures !d.visible ==> d == NotVisible
    ensures d.visible ==> exists k :: IsBest(cs, t, k) && (d.x, d.y) == Centroid(cs[k])
  {
    var bestCenter: Option<(int, int)> := None;
    var bestScore: real := 0.0;
    ghost var bestIdx: int := -1;
    var i := 0;
    while i < |cs|
      invariant 0 <= i <= |cs|
      invariant bestCenter.None? <==> forall j :: 0 <= j < i ==> !Eligible(cs, t, j)
      invariant bestCenter.None? ==> bestScore == 0.0
      invariant bestCenter.Some? ==>
        0 <= bestIdx < i && Eligible(cs, t, bestIdx) &&
        bestScore == Score(cs[bestIdx]) && bestCenter.value == Centroid(cs[bestIdx]) &&
        (forall j :: 0 <= j < i && Eligible(cs, t, j) ==> Score(cs[j]) <= bestScore) &&
        (forall j :: 0 <= j < bestIdx && Eligible(cs, t, j) ==> Score(cs[j]) < bestScore)
    {
      var c := cs[i];
      assert bestCenter.Some? ==> Eligible(cs, t, bestIdx);
      i := i + 1;
      if c.area < t.minArea || c.area > t.maxArea {
        continue;
      }
      if c.perimeter == 0.0 {
        continue;
      }
      var circularity := Circularity(c);
      if circularity < t.minCircularity {
        continue;
      }
      if c.m00 == 0.0 {
        continue;
      }
      var cx := Trunc(c.m10 / c.m00);
      var cy := Trunc(c.m01 / c.m00);
      var score := Score(c);
      if score > bestScore {
        assert Eligible(cs, t, i - 1);
        bestScore := score;
        bestCenter := Some((cx, cy));
        bestIdx := i - 1;
      }
    }
    if bestCenter.None? {
      return NotVisible;
    }
    d := Detection(bestCenter.value.0, bestCenter.value.1, true);
  }

  /** With positive minimum area and circularity (the defaults are 10 and 0.3)
      every contour that passes the filters scores above zero. */
  lemma PassingScoresPositive(c: Contour, t: Thresholds)
    requires t.minArea > 0.0 && t.minCircularity > 0.0
    requires Passes(c, t)
    ensures Score(c) > 0.0
  {
    var circ := Circularity(c);
    assert circ > 0.0 && c.area > 0.0;
  }

  /** Under positive thresholds the sentinel is returned exactly when no contour
      passes all four filters. */
  lemma {:induction false} EligibleIffPasses(cs: seq<Contour>, t: Thresholds)
    requires t.minArea > 0.0 && t.minCircularity > 0.0
    ensures (forall k :: 0 <= k < |cs| ==> !Eligible(cs, t, k)) <==>
            (forall k :: 0 <= k < |cs| ==> !Passes(cs[k], t))
  {
    forall k | 0 <= k < |cs| && Passes(cs[k], t)
      ensures Eligible(cs, t, k)
    {
      PassingScoresPositive(cs[k], t);
    }
  }

  /** With the source's default thresholds (10, 8000, 0.3) the sentinel is
      returned exactly when no contour passes the filters. */
  lemma DefaultThresholdsEligibility(cs: seq<Contour>)
    ensures (forall k :: 0 <= k < |cs| ==> !Eligible(cs, DefaultThresholds, k)) <==>
            (forall k :: 0 <= k < |cs| ==> !Passes(cs[k], DefaultThresholds))
  {
    EligibleIffPasses(cs, DefaultThresholds);
  }

  /** The strict comparison makes the choice unique: on equal scores the earliest contour wins. */
  lemma BestIsUnique(cs: seq<Contour>, t: Thresholds, k1: int, k2: int)
    requires IsBest(cs, t, k1) && IsBest(cs, t, k2)
    ensures k1 == k2
  {
  }
}
