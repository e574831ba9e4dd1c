/**
 * The GPS snapshot tool: it watches gpsd's JSON reports for a few seconds
 * and keeps the first report with the highest fix mode, stopping early at
 * a 3D fix; the fix mode is then shown as a status string.
 */
module GpsSnapshot {
  import opened Wrappers

  /** A gpsd report, reduced to the keys the tool reads. */
  datatype Report = Report(
    mode: Option<int>,
    lat: Option<real>, lon: Option<real>, alt: Option<real>,
    speed: Option<real>, track: Option<real>, time: Option<string>)

  /**
   * One pass of the receive loop. `NoData` is an empty `recv`, `BadJson` a
   * JSONDecodeError, `Failed` any other exception (the connection, `recv`,
   * UTF-8 decoding). The time budget is the length of the stream.
   */
  datatype Received = NoData | BadJson | Json(report: Report) | Failed

  predicate HasMode(x: Received) {
    x.Json? && x.report.mode.Some?
  }

  /** `best_fix` after a prefix of the stream, ignoring the early stop. */
  function BestSoFar(s: seq<Received>): (best: Option<Report>)
    ensures best.Some? ==> best.value.mode.Some?
  {
    if s == [] then None
    else
      var prev := BestSoFar(s[..|s| - 1]);
      var x := s[|s| - 1];
      if HasMode(x) && (prev.None? || x.report.mode.value > prev.value.mode.value) then Some(x.report)
      else prev
  }

  /**
   * BestSoFar is the first report that attains the highest mode: it is
   * absent exactly when no report has a mode; otherwise it is the report
   * at some index j, no report has a higher mode, and every earlier report
   * has a strictly lower one.
   */
  lemma {:induction false} BestSoFarIsFirstMax(s: seq<Received>)
    ensures BestSoFar(s).None? <==> forall i :: 0 <= i < |s| ==> !HasMode(s[i])
    ensures BestSoFar(s).Some? ==> exists j :: 0 <= j < |s| && FirstMaxAt(s, j) && s[j].report == BestSoFar(s).value
  {
    if s != [] {
      var n := |s| - 1;
      var prev := BestSoFar(s[..n]);
      BestSoFarIsFirstMax(s[..n]);
      if prev.Some? {
        var j :| 0 <= j < n && FirstMaxAt(s[..n], j) && s[..n][j].report == prev.value;
        if HasMode(s[n]) && s[n].report.mode.value > prev.value.mode.value {
          FirstMaxAtLast(s, j);
        } else {
          FirstMaxAtExtend(s, j);
        }
      } else {
        assert forall i :: 0 <= i < n ==> !HasMode(s[..n][i]);
        assert forall i :: 0 <= i < n ==> !HasMode(s[i]) by {
          forall i | 0 <= i < n ensures !HasMode(s[i]) {
            assert s[..n][i] == s[i];
          }
        }
        if HasMode(s[n]) {
          assert FirstMaxAt(s, n);
        }
      }
    }
  }

  /** A new report with a mode strictly above the old first maximum becomes the first maximum. */
  lemma FirstMaxAtLast(s: seq<Received>, j: nat)
    requires 0 < |s| && j < |s| - 1 && FirstMaxAt(s[..|s| - 1], j)
    requires HasMode(s[|s| - 1]) && s[|s| - 1].report.mode.value > s[j].report.mode.value
    ensures FirstMaxAt(s, |s| - 1)
  {
    var n := |s| - 1;
    forall i | 0 <= i < n && HasMode(s[i])
      ensures s[i].report.mode.value < s[n].report.mode.value
    {
      assert s[..n][i] == s[i];
    }
  }

  /** A new report with no mode, or a mode not above the first maximum, leaves it in place. */
  lemma FirstMaxAtExtend(s: seq<Received>, j: nat)
    requires 0 < |s| && j < |s| - 1 && FirstMaxAt(s[..|s| - 1], j)
    requires HasMode(s[|s| - 1]) ==> s[|s| - 1].report.mode.value <= s[j].report.mode.value
    ensures FirstMaxAt(s, j)
  {
    var n := |s| - 1;
    forall i | 0 <= i < n && HasMode(s[i])
      ensures s[i].report.mode.value <= s[j].report.mode.value
      ensures i < j ==> s[i].report.mode.value < s[j].report.mode.value
    {
      assert s[..n][i] == s[i];
    }
  }

  /** s[j] has a mode, no report has a higher one, and every earlier report a lower one. */
  predicate FirstMaxAt(s: seq<Received>, j: int)
    requires 0 <= j < |s|
  {
    && HasMode(s[j])
    && (forall i :: 0 <= i < |s| && HasMode(s[i]) ==> s[i].report.mode.value <= s[j].report.mode.value)
    && (forall i :: 0 <= i < j && HasMode(s[i]) ==> s[i].report.mode.value < s[j].report.mode.value)
  }

  /** The mode of `best_fix` never decreases as the stream goes on. */
  lemma {:induction false} BestModeNeverDecreases(s: seq<Received>, k: nat)
    requires k <= |s| && BestSoFar(s[..k]).Some?
    ensures BestSoFar(s).Some? && BestSoFar(s[..k]).value.mode.value <= BestSoFar(s).value.mode.value
  {
    if k < |s| {
      var n := |s| - 1;
      assert s[..n][..k] == s[..k];
      BestModeNeverDecreases(s[..n], k);
    } else {
      assert s[..k] == s;
    }
  }

  /** The loop stops after item i: it raised, or `best_fix` now has mode 3. */
  predicate StopsAt(s: seq<Received>, i: int)
    requires 0 <= i < |s|
  {
    s[i].Failed? || (BestSoFar(s[..i + 1]).Some? && BestSoFar(s[..i + 1]).value.mode == Some(3))
  }

  /** Number of items the loop consumes, counting from item i on. */
  function Consumed(s: seq<Received>, i: nat): (n: nat)
    requires i <= |s|
    ensures i <= n <= |s|
    ensures forall j :: i <= j < n - 1 ==> !StopsAt(s, j)
    ensures n < |s| ==> i < n && StopsAt(s, n - 1)
    decreases |s| - i
  {
    if i == |s| then |s|
    else if StopsAt(s, i) then i + 1
    else Consumed(s, i + 1)
  }

  /**
   * The result of `get_best_gps_fix`: None when the item that ended the loop
   * raised, which discards any fix found before; otherwise `best_fix` over
   * the items consumed.
   */
  function BestFix(s: seq<Received>): Option<Report> {
    var n := Consumed(s, 0);
    if 0 < n && s[n - 1].Failed? then None else BestSoFar(s[..n])
  }

  /** `get_best_gps_fix`: the receive loop over the items gpsd delivers in time. */
  method GetBestGpsFix(received: seq<Received>) returns (best: Option<Report>)
    ensures best == BestFix(received)
  {
    best := None;
    var i := 0;
    while i < |received|
      invariant 0 <= i <= |received|
      invariant best == BestSoFar(received[..i])
      invariant best.Some? ==> best.value.mode != Some(3)
      invariant forall j :: 0 <= j < i ==> !StopsAt(received, j)
      invariant Consumed(received, 0) == Consumed(received, i)
    {
      assert received[..i + 1][..i] == received[..i];
      match received[i] {
        case Failed =>
          assert StopsAt(received, i) && Consumed(received, i) == i + 1;
          return None;
        case NoData =>
        case BadJson =>
        case Json(report) =>
          if report.mode.Some? && (best.None? || report.mode.value > best.value.mode.value) {
            best := Some(report);
          }
          if best.Some? && best.value.mode == Some(3) {
            assert best == BestSoFar(received[..i + 1]);
            assert StopsAt(received, i) && Consumed(received, i) == i + 1;
            return;
          }
      }
      i := i + 1;
    }
    assert received[..i] == received;
    assert i > 0 ==> !StopsAt(received, i - 1);
  }

  /** No report with a mode before the loop ends: None. */
  lemma NoModeNoFix(s: seq<Received>)
    requires forall i :: 0 <= i < |s| ==> !HasMode(s[i])
    ensures BestFix(s).None?
  {
    var n := Consumed(s, 0);
    BestSoFarIsFirstMax(s[..n]);
    assert forall i :: 0 <= i < n ==> s[..n][i] == s[i];
  }

  /** A failure before the loop has stopped discards everything found so far. */
  lemma FailureDiscardsFix(s: seq<Received>, i: nat)
    requires i < |s| && s[i].Failed?
    requires forall j :: 0 <= j < i ==> !StopsAt(s, j)
    ensures BestFix(s).None?
  {
    ConsumedFrom(s, 0, i);
  }

  /** When nothing stops the loop before item k, counting from 0 or from k gives the same end. */
  lemma {:induction false} ConsumedFrom(s: seq<Received>, i: nat, k: nat)
    requires i <= k <= |s|
    requires forall j :: i <= j < k ==> !StopsAt(s, j)
    ensures Consumed(s, i) == Consumed(s, k)
    decreases k - i
  {
    if i < k {
      ConsumedFrom(s, i + 1, k);
    }
  }

  /** Whether the loop stops after item j depends only on the items up to j. */
  lemma StopsAtPrefix(s: seq<Received>, t: seq<Received>, j: nat)
    requires j < |s| && j < |t| && s[..j + 1] == t[..j + 1]
    ensures StopsAt(s, j) == StopsAt(t, j)
  {
    assert s[j] == s[..j + 1][j] == t[..j + 1][j] == t[j];
  }

  /** Once a 3D fix is held, whatever gpsd sends afterwards is never read. */
  lemma StopsAtThreeD(s: seq<Received>, rest: seq<Received>, k: nat)
    requires k < |s| && StopsAt(s, k) && !s[k].Failed?
    requires forall j :: 0 <= j < k ==> !StopsAt(s, j)
    ensures BestFix(s[..k + 1] + rest) == BestFix(s[..k + 1])
    ensures BestFix(s).Some? && BestFix(s).value.mode == Some(3)
  {
    var t := s[..k + 1] + rest;
    var u := s[..k + 1];
    forall j | 0 <= j <= k
      ensures StopsAt(t, j) == StopsAt(s, j) && StopsAt(u, j) == StopsAt(s, j)
    {
      assert t[..j + 1] == s[..j + 1];
      assert u[..j + 1] == s[..j + 1];
      StopsAtPrefix(t, s, j);
      StopsAtPrefix(u, s, j);
    }
    ConsumedFrom(s, 0, k);
    ConsumedFrom(t, 0, k);
    ConsumedFrom(u, 0, k);
    assert t[..k + 1] == u[..k + 1] == s[..k + 1];
  }

  /** The status `main` prints for a fix mode; a missing mode counts as 0. */
  function FixStatus(mode: Option<int>): (status: string)
    ensures status == "No Fix" <==> mode == Some(1)
    ensures status == "2D Fix" <==> mode == Some(2)
    ensures status == "3D Fix" <==> mode == Some(3)
    ensures status == "Unknown Fix" <==> mode.None? || mode.value < 1 || 3 < mode.value
  {
    match mode.GetOr(0)
    case 1 => "No Fix"
    case 2 => "2D Fix"
    case 3 => "3D Fix"
    case _ => "Unknown Fix"
  }

  /** A fix the loop returns always has a mode, so `main` never falls back to 0. */
  lemma BestFixHasMode(s: seq<Received>)
    ensures BestFix(s).Some? ==> BestFix(s).value.mode.Some?
  {
  }
}
