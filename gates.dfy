/** The per-frame pass of process_video (Code/detect_ball.py): rescale the
    frame's detection to original resolution, run the three static region
    gates and the jump filter, grow the accepted history and emit one record
    per frame. Frames are an input sequence: what the camera delivers and what
    the segmenter finds in each frame are given, not computed here. */
module FrameGates {
  import opened BallCandidates

  /** One frame as the gate cascade sees it: the candidate selection's result in
      working-resolution pixels and the working frame's dimensions. */
  datatype FrameInput = FrameInput(det: Detection, procWidth: int, procHeight: int)

  datatype Point = Point(x: int, y: int)

  /** One row of the output table; the source writes x and y as floats of integers. */
  datatype Record = Record(frame: nat, x: int, y: int, visible: bool)

  /** The original frame size and the integer gate bounds derived from it
      (each one int(dimension * fraction) in the source), and the jump limit. */
  datatype GateConfig = GateConfig(
    width: nat, height: nat,
    yMax: int,
    laneXMin: int, laneXMax: int,
    gloveXMin: int, gloveXMax: int, gloveYMin: int, gloveYMax: int,
    maxJump: nat)

  /** Percent of a non-negative dimension in exact arithmetic, rounded down.
      The source truncates a floating-point product instead, which can come out
      one lower: 720 * 0.35 is 251.99999999999997 as a double, so int() gives 251
      where this gives 252. */
  function Fraction(dim: nat, percent: nat): int {
    dim * percent / 100
  }

  /** The camera-specific bounds computed in exact arithmetic (each can be one
      above the source's int() of the float product) and the 150-pixel jump limit. */
  function DefaultConfig(width: nat, height: nat): GateConfig {
    GateConfig(width, height,
      Fraction(height, 75),
      Fraction(width, 30), Fraction(width, 70),
      Fraction(width, 60), Fraction(width, 90), Fraction(height, 35), Fraction(height, 80),
      150)
  }

  predicate WellFormed(f: FrameInput) {
    f.procWidth > 0 && f.procHeight > 0
  }

  /** Working-resolution coordinates mapped back by the ratio of original to working size. */
  function Rescale(f: FrameInput, cfg: GateConfig): Point
    requires WellFormed(f)
  {
    Point(Trunc(f.det.x as real * (cfg.width as real / f.procWidth as real)),
          Trunc(f.det.y as real * (cfg.height as real / f.procHeight as real)))
  }

  /** Gate A: the upper three quarters of the frame. */
  predicate InVerticalCrop(p: Point, cfg: GateConfig) {
    p.y <= cfg.yMax
  }

  /** Gate B: the central lane. */
  predicate InLane(p: Point, cfg: GateConfig) {
    cfg.laneXMin <= p.x <= cfg.laneXMax
  }

  /** Gate C rejects points inside this box. */
  predicate InGloveBox(p: Point, cfg: GateConfig) {
    cfg.gloveXMin <= p.x <= cfg.gloveXMax && cfg.gloveYMin <= p.y <= cfg.gloveYMax
  }

  function SqDist(p: Point, q: Point): nat {
    (p.x - q.x) * (p.x - q.x) + (p.y - q.y) * (p.y - q.y)
  }

  /** The jump filter: no limit for the first accepted point, otherwise the
      Euclidean distance to the last accepted point is at most maxJump. */
  predicate WithinJump(history: seq<Point>, p: Point, cfg: GateConfig) {
    |history| == 0 || SqDist(history[|history| - 1], p) <= cfg.maxJump * cfg.maxJump
  }

  /** A frame survives the cascade iff it had a detection and its rescaled point
      passes every gate. */
  predicate Accepted(f: FrameInput, cfg: GateConfig, history: seq<Point>)
    requires WellFormed(f)
  {
    var p := Rescale(f, cfg);
    f.det.visible && InVerticalCrop(p, cfg) && InLane(p, cfg) && !InGloveBox(p, cfg) &&
    WithinJump(history, p, cfg)
  }

  /** The gate cascade of one frame, gate by gate as the source runs it. */
  method GateStep(f: FrameInput, cfg: GateConfig, history: seq<Point>) returns (p: Point, visible: bool)
    requires WellFormed(f)
    ensures visible == Accepted(f, cfg, history)
    ensures visible ==> p == Rescale(f, cfg)
    ensures !visible ==> p == Point(-1, -1)
  {
    visible := f.det.visible;
    var xOrig, yOrig;
    if visible {
      var q := Rescale(f, cfg);
      xOrig, yOrig := q.x, q.y;
    } else {
      xOrig, yOrig := -1, -1;
    }

    if visible {
      if yOrig > cfg.yMax {
        visible := false;
        xOrig, yOrig := -1, -1;
      }
    }
    if visible {
      if !(cfg.laneXMin <= xOrig <= cfg.laneXMax) {
        visible := false;
        xOrig, yOrig := -1, -1;
      }
    }
    if visible {
      if cfg.gloveXMin <= xOrig <= cfg.gloveXMax && cfg.gloveYMin <= yOrig <= cfg.gloveYMax {
        visible := false;
        xOrig, yOrig := -1, -1;
      }
    }

    if visible {
      if |history| > 0 {
        var last := history[|history| - 1];
        var sq := (xOrig - last.x) * (xOrig - last.x) + (yOrig - last.y) * (yOrig - last.y);
        if sq > cfg.maxJump * cfg.maxJump {
          visible := false;
          xOrig, yOrig := -1, -1;
        }
      }
    }

    if !visible {
      xOrig, yOrig := -1, -1;
    }
    p := Point(xOrig, yOrig);
  }

  /** The positions of the visible records, in order: the accepted history. */
  function AcceptedPoints(records: seq<Record>): (ps: seq<Point>)
    ensures |ps| <= |records|
  {
    if records == [] then []
    else
      var last := records[|records| - 1];
      AcceptedPoints(records[..|records| - 1]) +
        (if last.visible then [Point(last.x, last.y)] else [])
  }

  /** Record r is what frame number i yields against the accepted history. */
  predicate RecordOf(f: FrameInput, cfg: GateConfig, history: seq<Point>, i: nat, r: Record)
    requires WellFormed(f)
  {
    r.frame == i &&
    r.visible == Accepted(f, cfg, history) &&
    (r.visible ==> Point(r.x, r.y) == Rescale(f, cfg)) &&
    (!r.visible ==> r.x == -1 && r.y == -1)
  }

  ghost predicate RecordsOf(frames: seq<FrameInput>, cfg: GateConfig, records: seq<Record>)
    requires forall i :: 0 <= i < |frames| ==> WellFormed(frames[i])
  {
    |records| <= |frames| &&
    forall i :: 0 <= i < |records| ==> RecordOf(frames[i], cfg, AcceptedPoints(records[..i]), i, records[i])
  }

  /** Consecutive accepted points are within maxJump of each other. */
  ghost predicate JumpBounded(points: seq<Point>, cfg: GateConfig) {
    forall j :: 0 < j < |points| ==> SqDist(points[j - 1], points[j]) <= cfg.maxJump * cfg.maxJump
  }

  lemma RecordsOfAppend(frames: seq<FrameInput>, cfg: GateConfig, records: seq<Record>, r: Record)
    requires forall i :: 0 <= i < |frames| ==> WellFormed(frames[i])
    requires RecordsOf(frames, cfg, records) && |records| < |frames|
    requires RecordOf(frames[|records|], cfg, AcceptedPoints(records), |records|, r)
    ensures RecordsOf(frames, cfg, records + [r])
    ensures AcceptedPoints(records + [r]) ==
      AcceptedPoints(records) + (if r.visible then [Point(r.x, r.y)] else [])
  {
    var rs := records + [r];
    assert rs[..|records|] == records;
    forall i | 0 <= i < |rs|
      ensures RecordOf(frames[i], cfg, AcceptedPoints(rs[..i]), i, rs[i])
    {
      if i < |records| {
        assert rs[..i] == records[..i];
        assert rs[i] == records[i];
      }
    }
  }

  lemma JumpBoundedAppend(points: seq<Point>, p: Point, cfg: GateConfig)
    requires JumpBounded(points, cfg)
    requires WithinJump(points, p, cfg)
    ensures JumpBounded(points + [p], cfg)
  {
  }

  /** The whole per-frame pass: one record per frame, numbered from 0, each the
      gate cascade's verdict against the history accepted before it. */
  method ProcessVideo(frames: seq<FrameInput>, cfg: GateConfig)
    returns (records: seq<Record>, trajectoryPoints: seq<Point>)
    requires forall i :: 0 <= i < |frames| ==> WellFormed(frames[i])
    ensures |records| == |frames|
    ensures forall i :: 0 <= i < |records| ==> records[i].frame == i
    ensures forall i :: 0 <= i < |records| ==>
      records[i].visible == Accepted(frames[i], cfg, AcceptedPoints(records[..i]))
    ensures forall i :: 0 <= i < |records| && records[i].visible ==>
      Point(records[i].x, records[i].y) == Rescale(frames[i], cfg)
    ensures forall i :: 0 <= i < |records| && !records[i].visible ==>
      records[i].x == -1 && records[i].y == -1
    ensures forall i :: 0 <= i < |records| && records[i].visible ==> frames[i].det.visible
    ensures forall i :: 0 <= i < |records| && records[i].visible ==>
      records[i].y <= cfg.yMax && cfg.laneXMin <= records[i].x <= cfg.laneXMax &&
      !InGloveBox(Point(records[i].x, records[i].y), cfg)
    ensures trajectoryPoints == AcceptedPoints(records)
    ensures forall j :: 0 < j < |trajectoryPoints| ==>
      SqDist(trajectoryPoints[j - 1], trajectoryPoints[j]) <= cfg.maxJump * cfg.maxJump
    ensures cfg.laneXMin >= 0 ==> forall i :: 0 <= i < |records| ==>
      (records[i].visible <==> !(records[i].x == -1 && records[i].y == -1))
  {
    records := [];
    trajectoryPoints := [];
    var frameIdx := 0;
    while frameIdx < |frames|
      invariant 0 <= frameIdx <= |frames|
      invariant |records| == frameIdx
      invariant RecordsOf(frames, cfg, records)
      invariant trajectoryPoints == AcceptedPoints(records)
      invariant JumpBounded(trajectoryPoints, cfg)
    {
      var p, visible := GateStep(frames[frameIdx], cfg, trajectoryPoints);
      var rec := Record(frameIdx, p.x, p.y, visible);
      RecordsOfAppend(frames, cfg, records, rec);
      if visible {
        JumpBoundedAppend(trajectoryPoints, p, cfg);
        trajectoryPoints := trajectoryPoints + [p];
      }
      records := records + [rec];
      frameIdx := frameIdx + 1;
    }
    forall i | 0 <= i < |records|
      ensures RecordOf(frames[i], cfg, AcceptedPoints(records[..i]), i, records[i])
    {
    }
  }

  /** In a 1920 x 1080 frame the vertical crop is at y = 810, so a point at
      (1000, 850) is rejected whatever its shape. */
  lemma BottomQuarterRejected(f: FrameInput, history: seq<Point>)
    requires WellFormed(f)
    requires Rescale(f, DefaultConfig(1920, 1080)) == Point(1000, 850)
    ensures !Accepted(f, DefaultConfig(1920, 1080), history)
  {
  }

  /** The lane bound int(width * 0.30) is never negative, so the per-frame
      records satisfy the sentinel rule in both directions. */
  lemma DefaultLaneNonNegative(width: nat, height: nat)
    ensures DefaultConfig(width, height).laneXMin >= 0
  {
  }
}
