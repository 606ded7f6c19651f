/** Trajectory completion over the finished per-frame table
    (Code/interpolate_trajectory.py): piecewise-linear filling between
    consecutive detections, then a parabolic extension backwards from the
    first detection. The table is an array of rows rewritten in place. */
module TrajectoryReconstruction {

  /** One row of the table: its frame number, the position and the visible flag. */
  datatype Row = Row(frame: int, x: real, y: real, visible: bool)

  /** Horizontal and vertical speed (pixels per frame) and the curvature of the
      backward parabola, fixed in the source. */
  const Vx: real := 8.0
  const Vy: real := 17.0
  const Curvature: real := 1.0

  function Min(a: nat, b: nat): nat {
    if a <= b then a else b
  }

  // ---------------------------------------------------------------------
  // The detected rows
  // ---------------------------------------------------------------------

  /** Strictly increasing indices into a table of n rows. */
  ghost predicate IncreasingBelow(d: seq<nat>, n: nat) {
    (forall j :: 0 <= j < |d| ==> d[j] < n) &&
    (forall j, k :: 0 <= j < k < |d| ==> d[j] < d[k])
  }

  /** The indices from lo on whose row is visible, ascending. */
  function DetectedFrom(s: seq<Row>, lo: nat): (d: seq<nat>)
    requires lo <= |s|
    decreases |s| - lo
    ensures forall j :: 0 <= j < |d| ==> lo <= d[j] < |s| && s[d[j]].visible
    ensures forall j, k :: 0 <= j < k < |d| ==> d[j] < d[k]
    ensures forall i :: lo <= i < |s| && s[i].visible ==> i in d
  {
    if lo == |s| then []
    else if s[lo].visible then [lo] + DetectedFrom(s, lo + 1)
    else DetectedFrom(s, lo + 1)
  }

  /** The visible rows of the table, in ascending order, and no others. */
  function DetectedIndices(s: seq<Row>): (d: seq<nat>)
    ensures IncreasingBelow(d, |s|)
    ensures forall j :: 0 <= j < |d| ==> s[d[j]].visible
    ensures forall i :: 0 <= i < |s| && s[i].visible ==> i in d
  {
    DetectedFrom(s, 0)
  }

  // ---------------------------------------------------------------------
  // Gap filling
  // ---------------------------------------------------------------------

  /** The point a fraction k/n of the way from a to b. */
  function Lerp(a: real, b: real, k: nat, n: nat): real
    requires n > 0
  {
    var t := k as real / n as real;
    (1.0 - t) * a + t * b
  }

  /** Row `row` rewritten as step k of n from anchor p to anchor q. */
  function Interpolated(row: Row, p: Row, q: Row, k: nat, n: nat): Row
    requires n > 0
  {
    row.(x := Lerp(p.x, q.x, k, n), y := Lerp(p.y, q.y, k, n), visible := true)
  }

  /** The gap from start to end with the rows start+1 .. start+m-1 filled. */
  function FillGapUpTo(s: seq<Row>, start: nat, end: nat, m: nat): (r: seq<Row>)
    requires start < end < |s| && m <= end - start
    ensures |r| == |s|
  {
    seq(|s|, i requires 0 <= i < |s| =>
      if start < i < start + m then Interpolated(s[i], s[start], s[end], i - start, end - start)
      else s[i])
  }

  function FillGap(s: seq<Row>, start: nat, end: nat): (r: seq<Row>)
    requires start < end < |s|
    ensures |r| == |s|
  {
    FillGapUpTo(s, start, end, end - start)
  }

  /** The table after the first g gaps between the detections d have been filled,
      each gap reading its anchors from the table as it stands then. */
  function FillGaps(s: seq<Row>, d: seq<nat>, g: nat): (r: seq<Row>)
    requires IncreasingBelow(d, |s|) && g < |d|
    ensures |r| == |s|
    decreases g
  {
    if g == 0 then s else FillGap(FillGaps(s, d, g - 1), d[g - 1], d[g])
  }

  // ---------------------------------------------------------------------
  // Backward extension
  // ---------------------------------------------------------------------

  /** Row `row` rewritten as the point k frames before anchor p, on the
      parabola x(t) = x0 + Vx t, y(t) = y0 + Vy t + Curvature t^2 at t = -k. */
  function Extrapolated(row: Row, p: Row, k: nat): Row {
    var t := -(k as real);
    row.(x := p.x + Vx * t, y := p.y + Vy * t + Curvature * (t * t), visible := true)
  }

  /** The m rows before index first rewritten from the row at first. */
  function BackExtend(s: seq<Row>, first: nat, m: nat): (r: seq<Row>)
    requires first < |s| && m <= first
    ensures |r| == |s|
  {
    seq(|s|, i requires 0 <= i < |s| =>
      if first - m <= i < first then Extrapolated(s[i], s[first], first - i) else s[i])
  }

  lemma FillGapStep(s: seq<Row>, start: nat, end: nat, k: nat)
    requires start < end < |s| && 1 <= k < end - start
    ensures FillGapUpTo(s, start, end, k)[start + k := Interpolated(s[start + k], s[start], s[end], k, end - start)]
            == FillGapUpTo(s, start, end, k + 1)
  {
  }

  lemma BackExtendStep(s: seq<Row>, first: nat, m: nat)
    requires first < |s| && m < first
    ensures BackExtend(s, first, m)[first - m - 1 := Extrapolated(s[first - m - 1], s[first], m + 1)]
            == BackExtend(s, first, m + 1)
  {
  }

  /** The whole reconstruction, as a function of the table read from disk. */
  function Reconstruct(s: seq<Row>, backExtendFrames: nat): (r: seq<Row>)
    ensures |r| == |s|
  {
    var d := DetectedIndices(s);
    if |d| < 2 then s
    else
      var first := d[0];
      BackExtend(FillGaps(s, d, |d| - 1), first, Min(backExtendFrames, first))
  }

  // ---------------------------------------------------------------------
  // What the reconstruction does to each row
  // ---------------------------------------------------------------------

  /** An index of d never lies strictly inside a gap between neighbours of d. */
  lemma AnchorOutsideGaps(d: seq<nat>, n: nat, m: nat, j: nat)
    requires IncreasingBelow(d, n) && m < |d| && j + 1 < |d|
    ensures !(d[j] < d[m] < d[j + 1])
  {
    if d[j] < d[m] {
      assert j < m;
      assert j + 1 == m || d[j + 1] < d[m];
    }
  }

  /** Filling the first g gaps leaves every row outside those gaps as it was. */
  lemma {:induction false} FillGapsOutside(s: seq<Row>, d: seq<nat>, g: nat, i: nat)
    requires IncreasingBelow(d, |s|) && g < |d| && i < |s|
    requires forall j :: 0 <= j < g ==> !(d[j] < i < d[j + 1])
    ensures FillGaps(s, d, g)[i] == s[i]
  {
    if g > 0 {
      FillGapsOutside(s, d, g - 1, i);
    }
  }

  /** A row inside one of the first g gaps holds the linear blend of the two
      ORIGINAL anchors of its gap: the anchors are never overwritten. */
  lemma {:induction false} FillGapsInside(s: seq<Row>, d: seq<nat>, g: nat, j: nat, i: nat)
    requires IncreasingBelow(d, |s|) && g < |d| && j < g && d[j] < i < d[j + 1]
    ensures FillGaps(s, d, g)[i] ==
      Interpolated(s[i], s[d[j]], s[d[j + 1]], i - d[j], d[j + 1] - d[j])
  {
    var prev := FillGaps(s, d, g - 1);
    assert FillGaps(s, d, g) == FillGap(prev, d[g - 1], d[g]);
    if j == g - 1 {
      assert FillGaps(s, d, g)[i] ==
        Interpolated(prev[i], prev[d[j]], prev[d[j + 1]], i - d[j], d[j + 1] - d[j]);
      forall j' | 0 <= j' < g - 1
        ensures !(d[j'] < i < d[j' + 1])
      {
        assert d[j' + 1] <= d[j];
      }
      forall j' | 0 <= j' < g - 1
        ensures !(d[j'] < d[j] < d[j' + 1]) && !(d[j'] < d[j + 1] < d[j' + 1])
      {
        AnchorOutsideGaps(d, |s|, j, j');
        AnchorOutsideGaps(d, |s|, j + 1, j');
      }
      FillGapsOutside(s, d, g - 1, i);
      FillGapsOutside(s, d, g - 1, d[j]);
      FillGapsOutside(s, d, g - 1, d[j + 1]);
    } else {
      assert d[j + 1] <= d[g - 1];
      assert FillGaps(s, d, g)[i] == prev[i];
      FillGapsInside(s, d, g - 1, j, i);
    }
  }

  /** Where a visible row sits in the list of detections. */
  lemma DetectedPosition(s: seq<Row>, i: nat) returns (m: nat)
    requires i < |s| && s[i].visible
    ensures m < |DetectedIndices(s)| && DetectedIndices(s)[m] == i
  {
    var d := DetectedIndices(s);
    assert i in d;
    m :| 0 <= m < |d| && d[m] == i;
  }

  /** Two visible rows with nothing visible between them are neighbours in the
      list of detections. */
  lemma ConsecutiveDetections(s: seq<Row>, a: nat, c: nat) returns (j: nat)
    requires a < c < |s| && s[a].visible && s[c].visible
    requires forall k :: a < k < c ==> !s[k].visible
    ensures j + 1 < |DetectedIndices(s)|
    ensures DetectedIndices(s)[j] == a && DetectedIndices(s)[j + 1] == c
  {
    var d := DetectedIndices(s);
    j := DetectedPosition(s, a);
    var m := DetectedPosition(s, c);
    assert j < m;
    assert d[j + 1] <= d[m];
    assert s[d[j + 1]].visible;
  }

  /** The first visible row heads the list of detections. */
  lemma FirstDetection(s: seq<Row>, first: nat)
    requires first < |s| && s[first].visible
    requires forall k :: 0 <= k < first ==> !s[k].visible
    ensures |DetectedIndices(s)| > 0 && DetectedIndices(s)[0] == first
  {
    var d := DetectedIndices(s);
    var m := DetectedPosition(s, first);
    assert d[0] <= d[m];
    assert s[d[0]].visible;
  }

  /** The backward extension leaves the first detection and every row after it alone. */
  lemma BackExtendFromFirst(s: seq<Row>, first: nat, m: nat, i: nat)
    requires first < |s| && m <= first && first <= i < |s|
    ensures BackExtend(s, first, m)[i] == s[i]
  {
  }

  /** From the first detection on, the reconstruction is the gap filling alone. */
  lemma ReconstructFromFirst(s: seq<Row>, b: nat, i: nat)
    requires |DetectedIndices(s)| >= 2 && DetectedIndices(s)[0] <= i < |s|
    ensures Reconstruct(s, b)[i] == FillGaps(s, DetectedIndices(s), |DetectedIndices(s)| - 1)[i]
  {
    var d := DetectedIndices(s);
    var filled := FillGaps(s, d, |d| - 1);
    assert Reconstruct(s, b) == BackExtend(filled, d[0], Min(b, d[0]));
    BackExtendFromFirst(filled, d[0], Min(b, d[0]), i);
  }

  /** The k-th row before the first detection, for k = 1..m, is extrapolated from it. */
  lemma BackExtendBeforeFirst(s: seq<Row>, first: nat, m: nat, k: nat)
    requires first < |s| && m <= first && 1 <= k <= m
    ensures BackExtend(s, first, m)[first - k] == Extrapolated(s[first - k], s[first], k)
  {
  }

  /** Before the first detection, the reconstruction is the backward extension of the filled table. */
  lemma ReconstructBeforeFirst(s: seq<Row>, b: nat, k: nat)
    requires |DetectedIndices(s)| >= 2 && 1 <= k <= Min(b, DetectedIndices(s)[0])
    ensures var d := DetectedIndices(s);
      var filled := FillGaps(s, d, |d| - 1);
      Reconstruct(s, b)[d[0] - k] == Extrapolated(filled[d[0] - k], filled[d[0]], k)
  {
    var d := DetectedIndices(s);
    var filled := FillGaps(s, d, |d| - 1);
    var m := Min(b, d[0]);
    assert Reconstruct(s, b) == BackExtend(filled, d[0], m);
    BackExtendBeforeFirst(filled, d[0], m, k);
  }

  /** Rows that are visible in the input keep their frame, position and flag. */
  lemma ReconstructKeepsDetections(s: seq<Row>, b: nat, i: nat)
    requires i < |s| && s[i].visible
    ensures Reconstruct(s, b)[i] == s[i]
  {
    var d := DetectedIndices(s);
    if |d| >= 2 {
      var m := DetectedPosition(s, i);
      forall j | 0 <= j < |d| - 1
        ensures !(d[j] < i < d[j + 1])
      {
        AnchorOutsideGaps(d, |s|, m, j);
      }
      FillGapsOutside(s, d, |d| - 1, i);
      assert d[0] <= d[m];
      ReconstructFromFirst(s, b, i);
    }
  }

  /** A row between two consecutive detections a and c is k/n of the way from
      a to c, with k = i - a and n = c - a, and becomes visible. */
  lemma ReconstructFillsGap(s: seq<Row>, b: nat, a: nat, c: nat, i: nat)
    requires a < i < c < |s| && s[a].visible && s[c].visible
    requires forall k :: a < k < c ==> !s[k].visible
    ensures Reconstruct(s, b)[i] == Interpolated(s[i], s[a], s[c], i - a, c - a)
  {
    var d := DetectedIndices(s);
    var j := ConsecutiveDetections(s, a, c);
    assert d[j] == a && d[j + 1] == c;
    FillGapsInside(s, d, |d| - 1, j, i);
    assert FillGaps(s, d, |d| - 1)[i] == Interpolated(s[i], s[a], s[c], i - a, c - a);
    assert d[0] <= d[j];
    ReconstructFromFirst(s, b, i);
  }

  /** The rows k = 1 .. min(b, first) frames before the first detection lie on
      the backward parabola through it: x0 - 8k and y0 - 17k + k^2. */
  lemma ReconstructBackExtension(s: seq<Row>, b: nat, first: nat, other: nat, k: nat)
    requires first < other < |s| && s[first].visible && s[other].visible
    requires forall j :: 0 <= j < first ==> !s[j].visible
    requires 1 <= k <= Min(b, first)
    ensures Reconstruct(s, b)[first - k] ==
      s[first - k].(x := s[first].x - 8.0 * k as real,
                    y := s[first].y - 17.0 * k as real + (k * k) as real,
                    visible := true)
  {
    var d := DetectedIndices(s);
    FirstDetection(s, first);
    var m := DetectedPosition(s, other);
    var filled := FillGaps(s, d, |d| - 1);
    forall j | 0 <= j < |d| - 1
      ensures !(d[j] < first < d[j + 1]) && !(d[j] < first - k < d[j + 1])
    {
      AnchorOutsideGaps(d, |s|, 0, j);
      assert d[0] <= d[j];
    }
    FillGapsOutside(s, d, |d| - 1, first);
    FillGapsOutside(s, d, |d| - 1, first - k);
    ReconstructBeforeFirst(s, b, k);
    ExtrapolatedLaw(s[first - k], s[first], k);
  }

  /** At t = -k the parabola gives x0 - 8k and y0 - 17k + k^2; at k = 0 it is the anchor. */
  lemma ExtrapolatedLaw(row: Row, p: Row, k: nat)
    ensures Extrapolated(row, p, k) ==
      row.(x := p.x - 8.0 * k as real, y := p.y - 17.0 * k as real + (k * k) as real, visible := true)
    ensures k == 0 ==> Extrapolated(row, p, k).x == p.x && Extrapolated(row, p, k).y == p.y
  {
    var t := -(k as real);
    assert t * t == (k * k) as real;
  }

  /** Rows with no detection at or after them are left as they were. */
  lemma ReconstructAfterLastDetection(s: seq<Row>, b: nat, i: nat)
    requires i < |s|
    requires forall j :: i <= j < |s| ==> !s[j].visible
    ensures Reconstruct(s, b)[i] == s[i]
  {
    var d := DetectedIndices(s);
    if |d| >= 2 {
      forall j | 0 <= j < |d| - 1
        ensures !(d[j] < i < d[j + 1])
      {
        assert s[d[j + 1]].visible;
      }
      FillGapsOutside(s, d, |d| - 1, i);
      assert s[d[0]].visible;
    }
  }

  /** Rows more than b frames before the first detection are left as they were. */
  lemma ReconstructBeforeExtension(s: seq<Row>, b: nat, i: nat)
    requires i < |s|
    requires forall j :: 0 <= j < |s| && j <= i + b ==> !s[j].visible
    ensures Reconstruct(s, b)[i] == s[i]
  {
    var d := DetectedIndices(s);
    if |d| >= 2 {
      assert s[d[0]].visible;
      forall j | 0 <= j < |d| - 1
        ensures !(d[j] < i < d[j + 1])
      {
        assert d[0] <= d[j];
      }
      FillGapsOutside(s, d, |d| - 1, i);
    }
  }

  /** Gap filling leaves a row as it was or makes it visible, and never writes the frame. */
  lemma FillGapsRow(s: seq<Row>, d: seq<nat>, i: nat)
    requires IncreasingBelow(d, |s|) && 0 < |d| && i < |s|
    ensures FillGaps(s, d, |d| - 1)[i] == s[i] || FillGaps(s, d, |d| - 1)[i].visible
    ensures FillGaps(s, d, |d| - 1)[i].frame == s[i].frame
  {
    if j :| 0 <= j < |d| - 1 && d[j] < i < d[j + 1] {
      FillGapsInside(s, d, |d| - 1, j, i);
    } else {
      FillGapsOutside(s, d, |d| - 1, i);
    }
  }

  /** Every row is either left as it was or made visible; the frame column is
      never written. */
  lemma ReconstructRow(s: seq<Row>, b: nat, i: nat)
    requires i < |s|
    ensures Reconstruct(s, b)[i] == s[i] || Reconstruct(s, b)[i].visible
    ensures Reconstruct(s, b)[i].frame == s[i].frame
  {
    var d := DetectedIndices(s);
    if |d| >= 2 {
      var filled := FillGaps(s, d, |d| - 1);
      FillGapsRow(s, d, i);
      var first := d[0];
      var r := BackExtend(filled, first, Min(b, first));
      assert Reconstruct(s, b) == r;
      assert r[i] == filled[i] || r[i].visible;
      assert r[i].frame == filled[i].frame;
    }
  }

  /** The converse of the sentinel rule does not survive: a visible row at
      (7, 15) extrapolates to (-1, -1) one frame earlier. */
  lemma ExtrapolationCanHitSentinel(row: Row)
    ensures var p := Extrapolated(row, Row(row.frame, 7.0, 15.0, true), 1);
      p.visible && p.x == -1.0 && p.y == -1.0
  {
    ExtrapolatedLaw(row, Row(row.frame, 7.0, 15.0, true), 1);
  }

  /** The no-detection sentinel survives: a row still invisible after the
      reconstruction keeps (-1, -1) if it had it. */
  lemma ReconstructKeepsSentinel(s: seq<Row>, b: nat)
    requires forall i :: 0 <= i < |s| && !s[i].visible ==> s[i].x == -1.0 && s[i].y == -1.0
    ensures forall i :: 0 <= i < |s| && !Reconstruct(s, b)[i].visible ==>
      Reconstruct(s, b)[i].x == -1.0 && Reconstruct(s, b)[i].y == -1.0
  {
    forall i | 0 <= i < |s| && !Reconstruct(s, b)[i].visible
      ensures Reconstruct(s, b)[i] == s[i]
    {
      ReconstructRow(s, b, i);
    }
  }

  /** From the start of the backward extension to the last detection every row is visible. */
  lemma ReconstructVisibleSpan(s: seq<Row>, b: nat, first: nat, last: nat, i: nat)
    requires first < last < |s| && s[first].visible && s[last].visible
    requires forall j :: 0 <= j < first ==> !s[j].visible
    requires first - Min(b, first) <= i <= last
    ensures Reconstruct(s, b)[i].visible
  {
    if i < first {
      ReconstructBackExtension(s, b, first, last, first - i);
    } else if s[i].visible {
      ReconstructKeepsDetections(s, b, i);
    } else {
      var a := PreviousDetection(s, first, i);
      var c := NextDetection(s, last, i);
      ReconstructFillsGap(s, b, a, c, i);
    }
  }

  /** The nearest visible row before i. */
  lemma {:induction false} PreviousDetection(s: seq<Row>, lo: nat, i: nat) returns (a: nat)
    requires lo < i < |s| && s[lo].visible
    ensures lo <= a < i && s[a].visible
    ensures forall k :: a < k < i ==> !s[k].visible
    decreases i - lo
  {
    if exists k :: lo < k < i && s[k].visible {
      var k :| lo < k < i && s[k].visible;
      a := PreviousDetection(s, k, i);
    } else {
      a := lo;
    }
  }

  /** The nearest visible row after i. */
  lemma {:induction false} NextDetection(s: seq<Row>, hi: nat, i: nat) returns (c: nat)
    requires i < hi < |s| && s[hi].visible
    ensures i < c <= hi && s[c].visible
    ensures forall k :: i < k < c ==> !s[k].visible
    decreases hi - i
  {
    if exists k :: i < k < hi && s[k].visible {
      var k :| i < k < hi && s[k].visible;
      c := NextDetection(s, k, i);
    } else {
      c := hi;
    }
  }

  /** With at most one detection the table is returned unchanged. */
  lemma ReconstructFewDetections(s: seq<Row>, b: nat)
    requires forall i, j :: 0 <= i < |s| && 0 <= j < |s| && s[i].visible && s[j].visible ==> i == j
    ensures Reconstruct(s, b) == s
  {

  }

  /** When every row is visible, the detections are exactly 0 .. |s|-1. */
  lemma {:induction false} AllDetectedFrom(s: seq<Row>, lo: nat)
    requires lo <= |s| && forall i :: 0 <= i < |s| ==> s[i].visible
    ensures |DetectedFrom(s, lo)| == |s| - lo
    ensures forall j :: 0 <= j < |s| - lo ==> DetectedFrom(s, lo)[j] == lo + j
    decreases |s| - lo
  {
    if lo < |s| {
      AllDetectedFrom(s, lo + 1);
      var rest := DetectedFrom(s, lo + 1);
      var full := DetectedFrom(s, lo);
      assert s[lo].visible;
      assert full == [lo] + rest;
      forall j | 0 <= j < |s| - lo
        ensures full[j] == lo + j
      {
        if j > 0 {
          assert full[j] == rest[j - 1];
        }
      }
    }
  }

  /** Idempotence: a table with every row visible is a fixed point, since every
      row is a detection and detections are never rewritten. */
  lemma ReconstructAllVisible(s: seq<Row>, b: nat)
    requires forall i :: 0 <= i < |s| ==> s[i].visible
    ensures Reconstruct(s, b) == s
  {
    forall i | 0 <= i < |s|
      ensures Reconstruct(s, b)[i] == s[i]
    {
      ReconstructKeepsDetections(s, b, i);
    }
  }

  /** Linear blending stays between its anchors and hits them at both ends. */
  lemma LerpBetween(a: real, b: real, k: nat, n: nat)
    requires 0 < n && k <= n
    ensures (a <= b ==> a <= Lerp(a, b, k, n) <= b) && (b <= a ==> b <= Lerp(a, b, k, n) <= a)
    ensures k == 0 ==> Lerp(a, b, k, n) == a
    ensures k == n ==> Lerp(a, b, k, n) == b
  {
    var t := k as real / n as real;
    assert t * n as real == k as real;
    assert 0.0 <= t <= 1.0;
    var v := Lerp(a, b, k, n);
    assert v == (1.0 - t) * a + t * b;
    LerpOffset(a, b, t);
    assert v == a + t * (b - a);
    if a <= b {
      BlendUp(a, b, t);
      assert a <= v <= b;
    }
    if b <= a {
      BlendDown(a, b, t);
      assert b <= v <= a;
    }
    if k == 0 {
      assert t == 0.0;
    }
    if k == n {
      assert t == 1.0;
    }
  }

  lemma BlendUp(a: real, b: real, t: real)
    requires 0.0 <= t <= 1.0 && a <= b
    ensures a <= a + t * (b - a) <= b
  {
    var p := t * (b - a);
    ScaleWithin(t, b - a);
    assert 0.0 <= p <= b - a;
  }

  lemma BlendDown(a: real, b: real, t: real)
    requires 0.0 <= t <= 1.0 && b <= a
    ensures b <= a + t * (b - a) <= a
  {
    var q := t * (a - b);
    ScaleWithin(t, a - b);
    assert 0.0 <= q <= a - b;
    assert t * (b - a) == -q;
  }

  lemma LerpOffset(a: real, b: real, t: real)
    ensures (1.0 - t) * a + t * b == a + t * (b - a)
  {
    assert (1.0 - t) * a == a - t * a;
    assert t * (b - a) == t * b - t * a;
  }

  lemma ScaleWithin(t: real, w: real)
    requires 0.0 <= t <= 1.0 && 0.0 <= w
    ensures 0.0 <= t * w <= w
  {
    assert w - t * w == (1.0 - t) * w;
  }

  /** Detections at rows 2 = (10, 10) and 4 = (30, 30) around an undetected
      row 3 put row 3 at (20, 20). */
  lemma GapExample(s: seq<Row>, b: nat)
    requires |s| >= 5
    requires s[2].visible && s[2].x == 10.0 && s[2].y == 10.0
    requires s[4].visible && s[4].x == 30.0 && s[4].y == 30.0
    requires !s[3].visible
    ensures Reconstruct(s, b)[3].x == 20.0 && Reconstruct(s, b)[3].y == 20.0
    ensures Reconstruct(s, b)[3].visible
  {
    ReconstructFillsGap(s, b, 2, 4, 3);
  }

  /** Five frames with the ball missed only in frame 2: afterwards every frame
      is visible and frame 2 is the midpoint of frames 1 and 3. */
  lemma FiveFrameScenario(s: seq<Row>, b: nat)
    requires |s| == 5
    requires s[0].visible && s[1].visible && !s[2].visible && s[3].visible && s[4].visible
    ensures forall i :: 0 <= i < 5 ==> Reconstruct(s, b)[i].visible
    ensures Reconstruct(s, b)[2].x == (s[1].x + s[3].x) / 2.0
    ensures Reconstruct(s, b)[2].y == (s[1].y + s[3].y) / 2.0
  {
    ReconstructFillsGap(s, b, 1, 3, 2);
    ReconstructKeepsDetections(s, b, 0);
    ReconstructKeepsDetections(s, b, 1);
    ReconstructKeepsDetections(s, b, 3);
    ReconstructKeepsDetections(s, b, 4);
  }

  /** One gap of the filling loop: rows start+1 .. end-1 rewritten from the
      anchors at start and end, nothing else touched. */
  method FillGapInPlace(rows: array<Row>, start: nat, end: nat)
    requires start < end < rows.Length
    modifies rows
    ensures rows[..] == FillGap(old(rows[..]), start, end)
  {
    var x0, y0 := rows[start].x, rows[start].y;
    var x1, y1 := rows[end].x, rows[end].y;
    ghost var cur := rows[..];
    var n := end - start;
    assert cur == FillGapUpTo(cur, start, end, 1);
    for k := 1 to n
      invariant rows[..] == FillGapUpTo(cur, start, end, k)
    {
      var t := k as real / n as real;
      var xi := (1.0 - t) * x0 + t * x1;
      var yi := (1.0 - t) * y0 + t * y1;
      ghost var before := rows[..];
      ghost var filledRow := Interpolated(cur[start + k], cur[start], cur[end], k, n);
      assert before[start + k] == cur[start + k];
      assert xi == filledRow.x && yi == filledRow.y;
      FillGapStep(cur, start, end, k);
      rows[start + k] := rows[start + k].(x := xi, y := yi, visible := true);
      assert rows[..] == before[start + k := filledRow];
    }
  }

  /** The backward extension: the m rows before first rewritten from the row at
      first, nothing else touched. */
  method BackExtendInPlace(rows: array<Row>, first: nat, m: nat)
    requires first < rows.Length && m <= first
    modifies rows
    ensures rows[..] == BackExtend(old(rows[..]), first, m)
  {
    ghost var filled := rows[..];
    var x0, y0 := rows[first].x, rows[first].y;
    assert filled == BackExtend(filled, first, 0);
    for k := 1 to m + 1
      invariant rows[..] == BackExtend(filled, first, k - 1)
    {
      var t := -(k as real);
      var idx := first - k;
      var xt := x0 + Vx * t;
      var yt := y0 + Vy * t + Curvature * (t * t);
      ghost var before := rows[..];
      ghost var extendedRow := Extrapolated(filled[idx], filled[first], k);
      assert before[idx] == filled[idx];
      assert xt == extendedRow.x && yt == extendedRow.y;
      BackExtendStep(filled, first, k - 1);
      rows[idx] := rows[idx].(x := xt, y := yt, visible := true);
      assert rows[..] == before[idx := extendedRow];
    }
  }

  /** interpolate_trajectory without the file I/O: the table is rewritten in
      place, cell by cell, into Reconstruct of what it held before. */
  method InterpolateTrajectory(rows: array<Row>, backExtendFrames: nat)
    modifies rows
    ensures rows[..] == Reconstruct(old(rows[..]), backExtendFrames)
  {
    var detIdx := DetectedIndices(rows[..]);
    if |detIdx| < 2 {
      return;
    }
    ghost var s := rows[..];

    for i := 0 to |detIdx| - 1
      invariant rows[..] == FillGaps(s, detIdx, i)
    {
      FillGapInPlace(rows, detIdx[i], detIdx[i + 1]);
    }

    var first := detIdx[0];
    var bigN := Min(backExtendFrames, first);
    if bigN > 0 {
      BackExtendInPlace(rows, first, bigN);
    } else {
      assert rows[..] == BackExtend(rows[..], first, 0);
    }
  }
}
