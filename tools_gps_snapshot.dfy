/**
 * tools/gps_snapshot.py holds the same receive loop and status mapping as
 * gps_snapshot.py (the copies differ only in how the degree sign of the
 * printed heading is encoded), so its model is the same one.
 */
module ToolsGpsSnapshot {
  import opened Wrappers
  import GpsSnapshot

  /** `get_best_gps_fix` of the tools copy. */
  method GetBestGpsFix(received: seq<GpsSnapshot.Received>) returns (best: Option<GpsSnapshot.Report>)
    ensures best == GpsSnapshot.BestFix(received)
    ensures best.Some? ==> best.value.mode.Some?
  {
    best := GpsSnapshot.GetBestGpsFix(received);
    GpsSnapshot.BestFixHasMode(received);
  }

  /** The `fix_status` mapping of the tools copy. */
  function FixStatus(mode: Option<int>): (status: string)
    ensures status == "No Fix" <==> mode == Some(1)
    ensures status == "2D Fix" <==> mode == Some(2)
    ensures status == "3D Fix" <==> mode == Some(3)
    ensures status == "Unknown Fix" <==> mode.None? || mode.value < 1 || 3 < mode.value
  {
    GpsSnapshot.FixStatus(mode)
  }
}
