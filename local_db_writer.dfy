/**
 * The sampler: every cycle it reads a GPS fix and the CAN bus cache and
 * decides whether to append a row to `gps_data`.
 */
module LocalDbWriter {
  import opened Wrappers
  import opened SharedData
  import CanbusPipeReader

  const MIN_DISTANCE: real := 0.1     // miles
  const HEARTBEAT_SECS: real := 60.0
  const CANBUS_TIMEOUT: real := 10.0

  const ENGINE_RPM := "Engine RPM"
  const ENGINE_HOURS := "Engine Hours"
  const COOLANT_TEMPERATURE := "Coolant Temperature"
  const ALTERNATOR_VOLTAGE := "Alternator Voltage"

  /** Geodesic distance in miles between (lat1, lon1) and (lat2, lon2). */
  type Distance = (real, real, real, real) -> real

  /** What `gpsd.get_current()` returns, reduced to the fields the cycle reads. */
  datatype GpsFix = GpsFix(mode: int, lat: real, lon: real, alt: real)

  /** The `time.time()` readings of one cycle, in the order the code takes them. */
  datatype Clocks = Clocks(rpmAt: real, hoursAt: real, coolantAt: real, voltageAt: real, decideAt: real, writtenAt: real)

  /**
   * The outside world as one cycle sees it. `Raised` is a cycle in which
   * gpsd, the time zone helper, the cache or SQLite raised: the exception
   * is logged and the cycle has no effect.
   */
  datatype Poll =
    | Raised
    | Polled(fix: GpsFix, tzOffset: string, shiftedTstamp: real, cache: map<string, Entry>, clocks: Clocks)

  /** `get_latest_canbus`: the cached value, or None when absent or older than the time-out. */
  function GetLatestCanbus(cache: map<string, Entry>, name: string, now: real): (r: Option<real>)
    ensures r.Some? <==> name in cache && now - cache[name].timestamp <= CANBUS_TIMEOUT
    ensures r.Some? ==> r.value == cache[name].value
  {
    if name in cache && now - cache[name].timestamp <= CANBUS_TIMEOUT then Some(cache[name].value) else None
  }

  /**
   * A value the pipe reader stored is read back as long as it is at most
   * CANBUS_TIMEOUT seconds old, and as None afterwards.
   */
  lemma ReadBackAfterStore(entries: map<string, Entry>, r: CanbusPipeReader.Received, now: real)
    requires CanbusPipeReader.Stores(r.line)
    ensures var name := r.line.msg.pgnName.value;
      var ts := r.line.msg.timestamp.GetOr(r.at);
      GetLatestCanbus(CanbusPipeReader.Update(entries, r), name, now) ==
        if now - ts <= CANBUS_TIMEOUT then Some(r.line.msg.value.value) else None
  {
  }

  /**
   * `should_update`: always after HEARTBEAT_SECS without a write; otherwise
   * when the table is empty, or when the fix lies strictly more than
   * MIN_DISTANCE from the latest row. `rpm` and the time stamp play no part.
   */
  function ShouldUpdate(lat: real, lon: real, shiftedTstamp: real, rpm: Option<real>, last: Option<Row>,
                        lastWriteTime: real, now: real, distance: Distance): (r: bool)
    ensures now - lastWriteTime > HEARTBEAT_SECS ==> r
    ensures now - lastWriteTime <= HEARTBEAT_SECS && last.None? ==> r
    ensures now - lastWriteTime <= HEARTBEAT_SECS && last.Some? ==>
      (r <==> distance(lat, lon, last.value.sample.latitude, last.value.sample.longitude) > MIN_DISTANCE)
  {
    if now - lastWriteTime > HEARTBEAT_SECS then true
    else if last.None? then true
    else
      // the time difference to the latest row is computed by the code and never used
      distance(lat, lon, last.value.sample.latitude, last.value.sample.longitude) > MIN_DISTANCE
  }

  /** Neither the engine speed nor the new time stamp changes the decision. */
  lemma ShouldUpdateIgnoresRpmAndTimestamp(lat: real, lon: real, t1: real, t2: real, rpm1: Option<real>,
                                           rpm2: Option<real>, last: Option<Row>, lastWriteTime: real,
                                           now: real, distance: Distance)
    ensures ShouldUpdate(lat, lon, t1, rpm1, last, lastWriteTime, now, distance)
         == ShouldUpdate(lat, lon, t2, rpm2, last, lastWriteTime, now, distance)
  {
  }

  /** The row a cycle writes: the current fix and the four cache readings. */
  function SampleOf(p: Poll): Sample
    requires p.Polled?
  {
    Sample(p.tzOffset, p.shiftedTstamp, p.fix.lat, p.fix.lon, p.fix.alt,
           GetLatestCanbus(p.cache, ENGINE_RPM, p.clocks.rpmAt),
           GetLatestCanbus(p.cache, ENGINE_HOURS, p.clocks.hoursAt),
           GetLatestCanbus(p.cache, COOLANT_TEMPERATURE, p.clocks.coolantAt),
           GetLatestCanbus(p.cache, ALTERNATOR_VOLTAGE, p.clocks.voltageAt))
  }

  /**
   * The decision of one cycle, given the answer `last` of the latest-row
   * query: the sample to insert, or None.
   */
  function Decide(p: Poll, lastWriteTime: real, last: Option<Row>, distance: Distance): (r: Option<Sample>)
    ensures p.Raised? ==> r.None?
    ensures p.Polled? && (p.fix.mode == 0 || p.tzOffset == "Unknown") ==> r.None?
    ensures p.Polled? && p.fix.mode != 0 && p.tzOffset != "Unknown" ==>
      (r.Some? <==> ShouldUpdate(p.fix.lat, p.fix.lon, p.shiftedTstamp,
                                 GetLatestCanbus(p.cache, ENGINE_RPM, p.clocks.rpmAt),
                                 last, lastWriteTime, p.clocks.decideAt, distance))
    ensures r.Some? ==> p.Polled? && r.value == SampleOf(p)
  {
    match p
    case Raised => None
    case Polled(fix, tzOffset, shiftedTstamp, cache, clocks) =>
      if fix.mode == 0 || tzOffset == "Unknown" then None
      else if ShouldUpdate(fix.lat, fix.lon, shiftedTstamp, GetLatestCanbus(cache, ENGINE_RPM, clocks.rpmAt),
                           last, lastWriteTime, clocks.decideAt, distance)
      then Some(SampleOf(p))
      else None
  }

  /**
   * Within HEARTBEAT_SECS of the last write, a row is written only into an
   * empty table or after a move of more than MIN_DISTANCE; in particular no
   * heartbeat row can appear in the first minute after start.
   */
  lemma NoWriteWithinHeartbeatUnlessMoved(p: Poll, lastWriteTime: real, last: Option<Row>, distance: Distance)
    requires p.Polled? && p.clocks.decideAt - lastWriteTime <= HEARTBEAT_SECS
    requires Decide(p, lastWriteTime, last, distance).Some?
    ensures last.None? ||
      distance(p.fix.lat, p.fix.lon, last.value.sample.latitude, last.value.sample.longitude) > MIN_DISTANCE
  {
  }

  /** `after` is `before`, followed by the sample `s` as a fresh unsent row, if there is one. */
  predicate Appended(before: seq<Row>, after: seq<Row>, s: Option<Sample>) {
    match s
    case None => after == before
    case Some(sample) =>
      && |after| == |before| + 1
      && after[..|before|] == before
      && after[|before|].sample == sample
      && !after[|before|].uploaded
  }

  /** The table and `last_write_time` after a cycle that decided `s`. */
  predicate CycleEffect(before: seq<Row>, after: seq<Row>, lastWriteTime: real, newWriteTime: real,
                        s: Option<Sample>, p: Poll)
  {
    && Appended(before, after, s)
    && newWriteTime == (if s.Some? && p.Polled? then p.clocks.writtenAt else lastWriteTime)
  }

  /**
   * One iteration of the `while self.running` loop of `run`. It returns the
   * new `last_write_time`, which moves to the clock only when a row is written.
   */
  method Cycle(db: Database, lastWriteTime: real, p: Poll, distance: Distance) returns (newWriteTime: real)
    requires db.Valid()
    modifies db
    ensures db.Valid()
    ensures exists last :: (IsLatest(old(db.rows), last) &&
      CycleEffect(old(db.rows), db.rows, lastWriteTime, newWriteTime, Decide(p, lastWriteTime, last, distance), p))
  {
    ghost var before := db.rows;
    ghost var answer := Latest(before);
    newWriteTime := lastWriteTime;
    match p
    case Raised =>
    case Polled(fix, tzOffset, shiftedTstamp, cache, clocks) =>
      if fix.mode == 0 {
        // no valid fix: skip the cycle
      } else {
        var rpm := GetLatestCanbus(cache, ENGINE_RPM, clocks.rpmAt);
        var engineHours := GetLatestCanbus(cache, ENGINE_HOURS, clocks.hoursAt);
        var coolantTemp := GetLatestCanbus(cache, COOLANT_TEMPERATURE, clocks.coolantAt);
        var alternatorVoltage := GetLatestCanbus(cache, ALTERNATOR_VOLTAGE, clocks.voltageAt);
        if tzOffset == "Unknown" {
          // unknown time zone: skip the cycle
        } else {
          var last := Latest(db.rows);
          if ShouldUpdate(fix.lat, fix.lon, shiftedTstamp, rpm, last, lastWriteTime, clocks.decideAt, distance) {
            var s := Sample(tzOffset, shiftedTstamp, fix.lat, fix.lon, fix.alt,
                            rpm, engineHours, coolantTemp, alternatorVoltage);
            var id := db.Insert(s);
            newWriteTime := clocks.writtenAt;
          }
        }
      }
    assert IsLatest(before, answer);
  }

  /** The samples a sequence of cycles decided to write, in order. */
  function Written(decided: seq<Option<Sample>>): (samples: seq<Sample>)
    ensures |samples| <= |decided|
  {
    if decided == [] then []
    else
      var n := |decided| - 1;
      Written(decided[..n]) + (if decided[n].Some? then [decided[n].value] else [])
  }

  /**
   * `last_write_time` when cycle k of a run begins: the start time, moved to
   * a cycle's write clock by each cycle that wrote a row.
   */
  function WriteTime(startedAt: real, polls: seq<Poll>, decided: seq<Option<Sample>>, k: nat): real
    requires k <= |polls| && k <= |decided|
  {
    if k == 0 then startedAt
    else if decided[k - 1].Some? && polls[k - 1].Polled? then polls[k - 1].clocks.writtenAt
    else WriteTime(startedAt, polls, decided, k - 1)
  }

  /**
   * The trace of a run: `tables[k]` is the table before cycle k, `lasts[k]`
   * the latest-row answer it got, `decided[k]` what it decided given the
   * `last_write_time` of the run so far, and `tables[k + 1]` its outcome.
   */
  ghost predicate IsRun(rows0: seq<Row>, startedAt: real, polls: seq<Poll>, distance: Distance,
                        tables: seq<seq<Row>>, lasts: seq<Option<Row>>, decided: seq<Option<Sample>>)
  {
    && |decided| <= |polls|
    && |tables| == |decided| + 1
    && |lasts| == |decided|
    && tables[0] == rows0
    && forall k :: 0 <= k < |decided| ==>
         && IsLatest(tables[k], lasts[k])
         && decided[k] == Decide(polls[k], WriteTime(startedAt, polls, decided, k), lasts[k], distance)
         && Appended(tables[k], tables[k + 1], decided[k])
  }

  /** Deciding one more cycle does not change `last_write_time` at earlier cycles. */
  lemma {:induction false} WriteTimePrefix(startedAt: real, polls: seq<Poll>, decided: seq<Option<Sample>>,
                                           d: Option<Sample>, k: nat)
    requires k <= |decided| < |polls|
    ensures WriteTime(startedAt, polls, decided + [d], k) == WriteTime(startedAt, polls, decided, k)
  {
    if k > 0 {
      WriteTimePrefix(startedAt, polls, decided, d, k - 1);
    }
  }

  /** Until a cycle writes a row, `last_write_time` is the start time. */
  lemma {:induction false} WriteTimeStaysAtStart(startedAt: real, polls: seq<Poll>, decided: seq<Option<Sample>>, k: nat)
    requires k <= |polls| && k <= |decided|
    requires forall j :: 0 <= j < k ==> decided[j].None?
    ensures WriteTime(startedAt, polls, decided, k) == startedAt
  {
    if k > 0 {
      WriteTimeStaysAtStart(startedAt, polls, decided, k - 1);
    }
  }

  /** `rows` is `rows0` followed by one unsent row per sample, in order. */
  predicate Extends(rows0: seq<Row>, rows: seq<Row>, samples: seq<Sample>) {
    && |rows| == |rows0| + |samples|
    && rows[..|rows0|] == rows0
    && forall i :: 0 <= i < |samples| ==>
         rows[|rows0| + i].sample == samples[i] && !rows[|rows0| + i].uploaded
  }

  lemma ExtendsStep(rows0: seq<Row>, before: seq<Row>, after: seq<Row>, decided: seq<Option<Sample>>, d: Option<Sample>)
    requires Extends(rows0, before, Written(decided))
    requires Appended(before, after, d)
    ensures Extends(rows0, after, Written(decided + [d]))
  {
    assert (decided + [d])[..|decided|] == decided;
    if d.Some? {
      var samples := Written(decided + [d]);
      assert samples == Written(decided) + [d.value];
      assert after[..|rows0|] == before[..|rows0|];
      forall i | 0 <= i < |samples|
        ensures after[|rows0| + i].sample == samples[i] && !after[|rows0| + i].uploaded
      {
        if i < |Written(decided)| {
          assert after[|rows0| + i] == after[..|before|][|rows0| + i];
        }
      }
    }
  }

  /** `last_write_time` after one more cycle, as `Cycle` sets it. */
  lemma WriteTimeStep(startedAt: real, polls: seq<Poll>, decided: seq<Option<Sample>>, d: Option<Sample>)
    requires |decided| < |polls|
    ensures WriteTime(startedAt, polls, decided + [d], |decided| + 1) ==
      if d.Some? && polls[|decided|].Polled? then polls[|decided|].clocks.writtenAt
      else WriteTime(startedAt, polls, decided, |decided|)
  {
    WriteTimePrefix(startedAt, polls, decided, d, |decided|);
  }

  lemma IsRunExtend(rows0: seq<Row>, startedAt: real, polls: seq<Poll>, distance: Distance,
                    tables: seq<seq<Row>>, lasts: seq<Option<Row>>, decided: seq<Option<Sample>>,
                    next: seq<Row>, last: Option<Row>, d: Option<Sample>)
    requires IsRun(rows0, startedAt, polls, distance, tables, lasts, decided) && |decided| < |polls|
    requires IsLatest(tables[|decided|], last)
    requires d == Decide(polls[|decided|], WriteTime(startedAt, polls, decided, |decided|), last, distance)
    requires Appended(tables[|decided|], next, d)
    ensures IsRun(rows0, startedAt, polls, distance, tables + [next], lasts + [last], decided + [d])
  {
    var tables', lasts', decided' := tables + [next], lasts + [last], decided + [d];
    forall k | 0 <= k < |decided'|
      ensures IsLatest(tables'[k], lasts'[k])
      ensures decided'[k] == Decide(polls[k], WriteTime(startedAt, polls, decided', k), lasts'[k], distance)
      ensures Appended(tables'[k], tables'[k + 1], decided'[k])
    {
      WriteTimePrefix(startedAt, polls, decided, d, k);
    }
  }

  /**
   * In a run, no heartbeat row is written in the first HEARTBEAT_SECS after
   * the start: until the first write, a cycle decided within that time
   * writes only into an empty table or after a move of more than MIN_DISTANCE.
   */
  lemma NoHeartbeatWriteInFirstMinute(rows0: seq<Row>, startedAt: real, polls: seq<Poll>, distance: Distance,
                                      tables: seq<seq<Row>>, lasts: seq<Option<Row>>,
                                      decided: seq<Option<Sample>>, k: nat)
    requires IsRun(rows0, startedAt, polls, distance, tables, lasts, decided) && k < |decided|
    requires forall j :: 0 <= j < k ==> decided[j].None?
    requires polls[k].Polled? && polls[k].clocks.decideAt - startedAt <= HEARTBEAT_SECS
    requires decided[k].Some?
    ensures lasts[k].None? ||
      distance(polls[k].fix.lat, polls[k].fix.lon, lasts[k].value.sample.latitude, lasts[k].value.sample.longitude) > MIN_DISTANCE
  {
    WriteTimeStaysAtStart(startedAt, polls, decided, k);
    NoWriteWithinHeartbeatUnlessMoved(polls[k], startedAt, lasts[k], distance);
  }

  /**
   * `run`: `last_write_time` starts at the start time; cycles follow until
   * `running` is cleared. The ghost results are the trace of the run, in
   * which every cycle behaves as `Cycle` promises. The table is the old one
   * followed by the decided samples as unsent rows, and `last_write_time`
   * is the write clock of the last cycle that wrote, or the start time.
   */
  method Run(db: Database, startedAt: real, polls: seq<Poll>, distance: Distance)
    returns (lastWriteTime: real, ghost tables: seq<seq<Row>>, ghost lasts: seq<Option<Row>>,
             ghost decided: seq<Option<Sample>>)
    requires db.Valid()
    modifies db
    ensures db.Valid()
    ensures IsRun(old(db.rows), startedAt, polls, distance, tables, lasts, decided)
    ensures |decided| == |polls| && db.rows == tables[|polls|]
    ensures lastWriteTime == WriteTime(startedAt, polls, decided, |polls|)
    ensures Extends(old(db.rows), db.rows, Written(decided))
  {
    lastWriteTime := startedAt;
    tables, lasts, decided := [db.rows], [], [];
    var k := 0;
    while k < |polls|
      invariant 0 <= k <= |polls| && |decided| == k
      invariant db.Valid()
      invariant IsRun(old(db.rows), startedAt, polls, distance, tables, lasts, decided)
      invariant db.rows == tables[k]
      invariant lastWriteTime == WriteTime(startedAt, polls, decided, k)
      invariant Extends(old(db.rows), db.rows, Written(decided))
    {
      ghost var before := db.rows;
      ghost var writeTime := lastWriteTime;
      lastWriteTime := Cycle(db, lastWriteTime, polls[k], distance);
      ghost var last :| IsLatest(before, last) &&
        CycleEffect(before, db.rows, writeTime, lastWriteTime, Decide(polls[k], writeTime, last, distance), polls[k]);
      ghost var d := Decide(polls[k], writeTime, last, distance);
      IsRunExtend(old(db.rows), startedAt, polls, distance, tables, lasts, decided, db.rows, last, d);
      WriteTimeStep(startedAt, polls, decided, d);
      ExtendsStep(old(db.rows), before, db.rows, decided, d);
      tables, lasts, decided := tables + [db.rows], lasts + [last], decided + [d];
      k := k + 1;
    }
  }
}
