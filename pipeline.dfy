/** The two stages joined by their intermediate table: the per-frame records
    are written as rows (frame, x, y, visible) and read back by the
    reconstruction (Code/detect_ball.py writes them, Code/interpolate_trajectory.py
    reads them). */
module Pipeline {
  import FrameGates
  import TrajectoryReconstruction

  /** The table as the reconstruction reads it: x and y become floats. */
  function ToTable(records: seq<FrameGates.Record>): (rows: seq<TrajectoryReconstruction.Row>)
    ensures |rows| == |records|
    ensures forall i :: 0 <= i < |records| ==>
      rows[i].frame == records[i].frame && rows[i].visible == records[i].visible &&
      rows[i].x == records[i].x as real && rows[i].y == records[i].y as real
  {
    seq(|records|, i requires 0 <= i < |records| =>
      TrajectoryReconstruction.Row(records[i].frame, records[i].x as real, records[i].y as real, records[i].visible))
  }

  /** The sentinel invariant of the per-frame records holds of the completed
      trajectory too, and the frame column still runs 0 .. K-1. */
  lemma SentinelAcrossStages(records: seq<FrameGates.Record>, b: nat)
    requires forall i :: 0 <= i < |records| ==> records[i].frame == i
    requires forall i :: 0 <= i < |records| && !records[i].visible ==>
      records[i].x == -1 && records[i].y == -1
    ensures var out := TrajectoryReconstruction.Reconstruct(ToTable(records), b);
      |out| == |records| &&
      (forall i :: 0 <= i < |out| ==> out[i].frame == i) &&
      (forall i :: 0 <= i < |out| && !out[i].visible ==> out[i].x == -1.0 && out[i].y == -1.0)
  {
    var rows := ToTable(records);
    TrajectoryReconstruction.ReconstructKeepsSentinel(rows, b);
    forall i | 0 <= i < |rows|
      ensures TrajectoryReconstruction.Reconstruct(rows, b)[i].frame == i
    {
      TrajectoryReconstruction.ReconstructRow(rows, b, i);
    }
  }
}
