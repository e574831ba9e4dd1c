/**
 * The state the three worker threads share: the CAN bus cache and the
 * SQLite table `gps_data`, with the few facts about them that every
 * worker relies on.
 */
module SharedData {
  import opened Wrappers

  /** One cache entry: the last value received for a signal and its time stamp. */
  datatype Entry = Entry(value: real, timestamp: real)

  /** `latest_canbus_data`: signal name to its latest entry. */
  class TelemetryCache {
    var entries: map<string, Entry>

    constructor ()
      ensures entries == map[]
    {
      entries := map[];
    }
  }

  /**
   * Columns 1 to 9 of a `gps_data` row. This is also exactly the document
   * the uploader sends: everything but `id` and `uploaded`.
   */
  datatype Sample = Sample(
    tzOffset: string,
    shiftedTstamp: real,
    latitude: real,
    longitude: real,
    altitude: real,
    rpm: Option<real>,
    engineHours: Option<real>,
    coolantTemp: Option<real>,
    alternatorVoltage: Option<real>)

  /** A whole row: the AUTOINCREMENT key, the sample and the `uploaded` flag. */
  datatype Row = Row(id: int, sample: Sample, uploaded: bool)

  predicate IdsIncreasing(rows: seq<Row>) {
    forall i, j :: 0 <= i < j < |rows| ==> rows[i].id < rows[j].id
  }

  function Min(a: nat, b: nat): nat {
    if a <= b then a else b
  }

  /** Number of rows whose `uploaded` flag is still 0. */
  function UnsentCount(rows: seq<Row>): (n: nat)
    ensures n <= |rows|
    ensures n == 0 <==> forall i :: 0 <= i < |rows| ==> rows[i].uploaded
  {
    if rows == [] then 0
    else (if rows[0].uploaded then 0 else 1) + UnsentCount(rows[1..])
  }

  /**
   * The table after `UPDATE gps_data SET uploaded = 1 WHERE id = ?` for
   * every id in `ids`: only the flag changes, it is set on exactly the rows
   * whose id is in `ids`, and it is never cleared.
   */
  function MarkIds(rows: seq<Row>, ids: set<int>): (r: seq<Row>)
    ensures |r| == |rows|
    ensures forall i :: 0 <= i < |rows| ==>
      r[i].id == rows[i].id && r[i].sample == rows[i].sample &&
      (r[i].uploaded <==> rows[i].uploaded || rows[i].id in ids)
  {
    if rows == [] then []
    else [rows[0].(uploaded := rows[0].uploaded || rows[0].id in ids)] + MarkIds(rows[1..], ids)
  }

  /** Marking in two steps is marking the union: re-marking is a no-op. */
  lemma MarkIdsCompose(rows: seq<Row>, a: set<int>, b: set<int>)
    ensures MarkIds(MarkIds(rows, a), b) == MarkIds(rows, a + b)
  {
    var lhs, rhs := MarkIds(MarkIds(rows, a), b), MarkIds(rows, a + b);
    assert |lhs| == |rhs|;
    forall i | 0 <= i < |rhs|
      ensures lhs[i] == rhs[i]
    {
    }
  }

  /** Marking never raises the number of unsent rows. */
  lemma {:induction false} MarkNeverIncreasesUnsent(rows: seq<Row>, ids: set<int>)
    ensures UnsentCount(MarkIds(rows, ids)) <= UnsentCount(rows)
  {
    if rows != [] {
      MarkNeverIncreasesUnsent(rows[1..], ids);
      assert MarkIds(rows, ids)[1..] == MarkIds(rows[1..], ids);
    }
  }

  /** Marking a set that holds the id of some unsent row lowers the count. */
  lemma {:induction false} MarkDecreasesUnsent(rows: seq<Row>, ids: set<int>, k: nat)
    requires k < |rows| && !rows[k].uploaded && rows[k].id in ids
    ensures UnsentCount(MarkIds(rows, ids)) < UnsentCount(rows)
  {
    assert MarkIds(rows, ids)[1..] == MarkIds(rows[1..], ids);
    if k == 0 {
      MarkNeverIncreasesUnsent(rows[1..], ids);
    } else {
      MarkDecreasesUnsent(rows[1..], ids, k - 1);
    }
  }

  /**
   * What `SELECT ... ORDER BY utc_shifted_tstamp DESC LIMIT 1` may return:
   * nothing exactly when the table is empty, otherwise one of its rows with
   * the largest time stamp (which one among equals SQL leaves open).
   */
  predicate IsLatest(rows: seq<Row>, last: Option<Row>) {
    && (last.None? <==> rows == [])
    && (last.Some? ==>
          && last.value in rows
          && forall i :: 0 <= i < |rows| ==> rows[i].sample.shiftedTstamp <= last.value.sample.shiftedTstamp)
  }

  /** One admissible answer to that query: the earliest row among the latest. */
  function Latest(rows: seq<Row>): (last: Option<Row>)
    ensures IsLatest(rows, last)
  {
    if rows == [] then None
    else
      var prev := Latest(rows[..|rows| - 1]);
      var row := rows[|rows| - 1];
      assert rows == rows[..|rows| - 1] + [row];
      if prev.None? || prev.value.sample.shiftedTstamp < row.sample.shiftedTstamp then Some(row)
      else prev
  }

  /**
   * The `gps_data` table. `nextId` plays SQLite's AUTOINCREMENT counter:
   * every id ever handed out is below it, so a new id exceeds them all.
   */
  class Database {
    var rows: seq<Row>
    var nextId: int

    ghost predicate Valid()
      reads this
    {
      && IdsIncreasing(rows)
      && forall i :: 0 <= i < |rows| ==> rows[i].id < nextId
    }

    constructor ()
      ensures Valid() && rows == []
    {
      rows := [];
      nextId := 1;
    }

    /** INSERT of one sample; `uploaded` takes its default 0. */
    method Insert(s: Sample) returns (id: int)
      requires Valid()
      modifies this
      ensures Valid()
      ensures rows == old(rows) + [Row(id, s, false)]
      ensures forall i :: 0 <= i < |old(rows)| ==> old(rows)[i].id < id
    {
      id := nextId;
      rows := rows + [Row(id, s, false)];
      nextId := nextId + 1;
    }

    /** `executemany("UPDATE gps_data SET uploaded = 1 WHERE id = ?", ids)`. */
    method MarkUploaded(ids: seq<int>)
      requires Valid()
      modifies this
      ensures Valid() && nextId == old(nextId)
      ensures rows == MarkIds(old(rows), set k | 0 <= k < |ids| :: ids[k])
    {
      var n := 0;
      while n < |ids|
        invariant 0 <= n <= |ids|
        invariant Valid() && nextId == old(nextId)
        invariant rows == MarkIds(old(rows), set k | 0 <= k < n :: ids[k])
      {
        ghost var done := set k | 0 <= k < n :: ids[k];
        MarkIdsCompose(old(rows), done, {ids[n]});
        assert (set k | 0 <= k < n + 1 :: ids[k]) == done + {ids[n]};
        rows := MarkIds(rows, {ids[n]});
        n := n + 1;
      }
    }
  }
}
