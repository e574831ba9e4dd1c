/**
 * The uploader: each cycle selects up to BATCH_SIZE unsent rows, sends
 * them to Firestore in one batch, and only after the commit returns marks
 * exactly those rows as uploaded.
 */
module FirestoreWriter {
  import opened SharedData

  const BATCH_SIZE: nat := 10

  /** What queueing one row into the batch did: `batch.set`, or the exception it raised. */
  datatype QueueStatus = Queued | ApiError | OtherError

  /** The Firestore collection `gps_data1`: the documents committed so far, in order. */
  class Collection {
    var documents: seq<Sample>

    constructor ()
      ensures documents == []
    {
      documents := [];
    }
  }

  /**
   * What `SELECT * FROM gps_data WHERE uploaded = 0 LIMIT 10` may return:
   * as many rows as LIMIT allows, all of them unsent rows of the table, no
   * row twice, in an order SQL leaves open.
   */
  predicate IsSelection(rows: seq<Row>, picked: seq<Row>) {
    && |picked| == Min(BATCH_SIZE, UnsentCount(rows))
    && (forall p :: p in picked ==> p in rows && !p.uploaded)
    && (forall i, j :: 0 <= i < j < |picked| ==> picked[i].id != picked[j].id)
  }

  /** One admissible answer: the first unsent rows in table order. */
  function FirstUnsent(rows: seq<Row>, limit: nat): (picked: seq<Row>)
    ensures |picked| == Min(limit, UnsentCount(rows))
    ensures forall p :: p in picked ==> p in rows && !p.uploaded
    ensures IdsIncreasing(rows) ==> IdsIncreasing(picked)
  {
    if rows == [] || limit == 0 then []
    else if !rows[0].uploaded then [rows[0]] + FirstUnsent(rows[1..], limit - 1)
    else FirstUnsent(rows[1..], limit)
  }

  /** The table always admits a selection. */
  lemma SelectionExists(rows: seq<Row>)
    requires IdsIncreasing(rows)
    ensures IsSelection(rows, FirstUnsent(rows, BATCH_SIZE))
  {
  }

  /** The ids of the selected rows (`row_ids`). */
  function IdsOf(picked: seq<Row>): set<int> {
    set k | 0 <= k < |picked| :: picked[k].id
  }

  /** Some row's queueing raised an exception other than GoogleAPICallError: the cycle aborts. */
  predicate Aborts(picked: seq<Row>, queue: int -> QueueStatus) {
    exists k :: 0 <= k < |picked| && queue(picked[k].id) == OtherError
  }

  /** The documents in the batch: columns 1-9 of each row that was queued, in order. */
  function Batch(picked: seq<Row>, queue: int -> QueueStatus): seq<Sample>
  {
    if picked == [] then []
    else
      var n := |picked| - 1;
      Batch(picked[..n], queue) + (if queue(picked[n].id) == Queued then [picked[n].sample] else [])
  }

  /** Every document in the batch is the sample of a selected row whose queueing succeeded. */
  lemma {:induction false} BatchHoldsQueued(picked: seq<Row>, queue: int -> QueueStatus, j: nat)
    requires j < |Batch(picked, queue)|
    ensures exists k :: 0 <= k < |picked| && Batch(picked, queue)[j] == picked[k].sample && queue(picked[k].id) == Queued
  {
    var n := |picked| - 1;
    var front := Batch(picked[..n], queue);
    if j < |front| {
      BatchHoldsQueued(picked[..n], queue, j);
      var k :| 0 <= k < n && front[j] == picked[..n][k].sample && queue(picked[..n][k].id) == Queued;
      assert picked[..n][k] == picked[k];
    } else {
      assert Batch(picked, queue)[j] == picked[n].sample && queue(picked[n].id) == Queued;
    }
  }

  /** Every selected row is either in the batch or was left out by a GoogleAPICallError. */
  lemma {:induction false} QueuedOrSkipped(picked: seq<Row>, queue: int -> QueueStatus, k: nat)
    requires k < |picked| && !Aborts(picked, queue)
    ensures queue(picked[k].id) == ApiError || picked[k].sample in Batch(picked, queue)
    ensures |Batch(picked, queue)| <= |picked|
  {
    var n := |picked| - 1;
    assert !Aborts(picked[..n], queue) by {
      forall j | 0 <= j < n ensures queue(picked[..n][j].id) != OtherError {
        assert picked[..n][j] == picked[j];
      }
    }
    if k < n {
      QueuedOrSkipped(picked[..n], queue, k);
    } else if n > 0 {
      QueuedOrSkipped(picked[..n], queue, 0);
    }
  }

  /** `row_ids` lists exactly the ids of the selected rows. */
  lemma ListedIds(rows: seq<Row>, rowIds: seq<int>)
    requires |rowIds| == |rows| && forall k :: 0 <= k < |rows| ==> rowIds[k] == rows[k].id
    ensures (set k | 0 <= k < |rowIds| :: rowIds[k]) == IdsOf(rows)
  {
    forall x | x in IdsOf(rows) ensures x in (set k | 0 <= k < |rowIds| :: rowIds[k]) {
      var k :| 0 <= k < |rows| && rows[k].id == x;
      assert rowIds[k] == x;
    }
  }

  /**
   * One iteration of `run`: select, build the batch, commit, mark. The
   * commit's outcome is `commitOk`; `select` stands for SQLite's choice of
   * rows. Nothing changes unless the commit returned; then the batch is
   * appended to the collection and exactly the selected ids are marked,
   * including rows left out of the batch by a GoogleAPICallError.
   */
  method UploadCycle(db: Database, remote: Collection, select: seq<Row> -> seq<Row>,
                     queue: int -> QueueStatus, commitOk: bool) returns (committed: bool)
    requires db.Valid()
    requires IsSelection(db.rows, select(db.rows))
    modifies db, remote
    ensures db.Valid() && db.nextId == old(db.nextId)
    ensures committed <==>
      (select(old(db.rows)) != [] && !Aborts(select(old(db.rows)), queue) && commitOk)
    ensures committed ==>
      && remote.documents == old(remote.documents) + Batch(select(old(db.rows)), queue)
      && db.rows == MarkIds(old(db.rows), IdsOf(select(old(db.rows))))
    ensures !committed ==> remote.documents == old(remote.documents) && db.rows == old(db.rows)
  {
    var rows := select(db.rows);
    if rows == [] {
      return false;
    }
    var batch: seq<Sample> := [];
    var i := 0;
    while i < |rows|
      invariant 0 <= i <= |rows|
      invariant batch == Batch(rows[..i], queue)
      invariant forall k :: 0 <= k < i ==> queue(rows[k].id) != OtherError
    {
      assert rows[..i + 1][..i] == rows[..i];
      var doc := rows[i].sample;
      match queue(rows[i].id) {
        case Queued =>
          batch := batch + [doc];
        case ApiError =>
          // logged; the row stays out of the batch
        case OtherError =>
          assert Aborts(rows, queue) by {
            assert 0 <= i < |rows| && queue(rows[i].id) == OtherError;
          }
          return false;
      }
      i := i + 1;
    }
    assert rows[..|rows|] == rows;
    if !commitOk {
      return false;
    }
    remote.documents := remote.documents + batch;
    var rowIds := seq(|rows|, k requires 0 <= k < |rows| => rows[k].id);
    ListedIds(rows, rowIds);
    db.MarkUploaded(rowIds);
    committed := true;
  }

  /** Every row is still there with its id and sample, and no flag went from 1 back to 0. */
  predicate OnlyMarked(before: seq<Row>, after: seq<Row>) {
    && |after| == |before|
    && forall i :: 0 <= i < |before| ==>
         after[i].id == before[i].id && after[i].sample == before[i].sample &&
         (before[i].uploaded ==> after[i].uploaded)
  }

  /** A committed cycle marks only rows whose document was sent or failed to queue with GoogleAPICallError. */
  lemma MarkedWereSentOrSkipped(rows: seq<Row>, picked: seq<Row>, queue: int -> QueueStatus, i: nat)
    requires IdsIncreasing(rows) && IsSelection(rows, picked) && !Aborts(picked, queue)
    requires i < |rows| && !rows[i].uploaded && MarkIds(rows, IdsOf(picked))[i].uploaded
    ensures queue(rows[i].id) == ApiError || rows[i].sample in Batch(picked, queue)
  {
    var k :| 0 <= k < |picked| && picked[k].id == rows[i].id;
    assert picked[k] in rows;
    var m :| 0 <= m < |rows| && rows[m] == picked[k];
    assert m == i;
    QueuedOrSkipped(picked, queue, k);
  }

  /** Marking the selection of a table with unsent rows lowers the number of unsent rows. */
  lemma SelectionMarkingProgress(rows: seq<Row>, picked: seq<Row>)
    requires IsSelection(rows, picked) && UnsentCount(rows) > 0
    ensures UnsentCount(MarkIds(rows, IdsOf(picked))) < UnsentCount(rows)
  {
    assert picked[0] in rows;
    var m :| 0 <= m < |rows| && rows[m] == picked[0];
    assert picked[0].id in IdsOf(picked);
    MarkDecreasesUnsent(rows, IdsOf(picked), m);
  }

  /** One cycle's inputs: how queueing went for each id, and whether the commit returned. */
  datatype Attempt = Attempt(queue: int -> QueueStatus, commitOk: bool)

  ghost predicate Succeeds(a: Attempt) {
    a.commitOk && forall id :: a.queue(id) != OtherError
  }

  /** A cycle with this selection and these inputs reaches `batch.commit()` and it returns. */
  predicate Commits(picked: seq<Row>, a: Attempt) {
    picked != [] && !Aborts(picked, a.queue) && a.commitOk
  }

  /**
   * The trace of a run: `tables[j]` is the table before cycle j, which
   * selects `select(tables[j])`; `commits[j]` says whether its commit
   * returned, and `tables[j + 1]` is its outcome.
   */
  ghost predicate IsUploadRun(rows0: seq<Row>, select: seq<Row> -> seq<Row>, attempts: seq<Attempt>,
                              tables: seq<seq<Row>>, commits: seq<bool>)
  {
    && |commits| <= |attempts|
    && |tables| == |commits| + 1
    && tables[0] == rows0
    && forall j :: 0 <= j < |commits| ==>
         && (commits[j] <==> Commits(select(tables[j]), attempts[j]))
         && tables[j + 1] == (if commits[j] then MarkIds(tables[j], IdsOf(select(tables[j]))) else tables[j])
  }

  /** The documents a run committed: the batches of the committing cycles, in order. */
  function Sent(select: seq<Row> -> seq<Row>, attempts: seq<Attempt>, tables: seq<seq<Row>>, commits: seq<bool>): seq<Sample>
    requires |commits| <= |attempts| && |tables| == |commits| + 1
  {
    if commits == [] then []
    else
      var n := |commits| - 1;
      Sent(select, attempts, tables[..n + 1], commits[..n]) +
        (if commits[n] then Batch(select(tables[n]), attempts[n].queue) else [])
  }

  /**
   * Some committed cycle of the trace selected the row `id` and failed to
   * queue it with GoogleAPICallError.
   */
  ghost predicate SkippedIn(select: seq<Row> -> seq<Row>, attempts: seq<Attempt>, tables: seq<seq<Row>>,
                            commits: seq<bool>, id: int)
    requires |commits| <= |attempts| && |tables| == |commits| + 1
  {
    exists j :: 0 <= j < |commits| && commits[j] && id in IdsOf(select(tables[j])) && attempts[j].queue(id) == ApiError
  }

  /**
   * Every row whose flag went from 0 to 1 between `before` and `after` had
   * its document in `sent`, or was skipped by GoogleAPICallError in a
   * committed cycle of the trace that selected it.
   */
  ghost predicate MarkedAccounted(before: seq<Row>, after: seq<Row>, sent: seq<Sample>, select: seq<Row> -> seq<Row>,
                                  attempts: seq<Attempt>, tables: seq<seq<Row>>, commits: seq<bool>)
    requires |commits| <= |attempts| && |tables| == |commits| + 1
  {
    && |after| == |before|
    && forall i :: 0 <= i < |before| && !before[i].uploaded && after[i].uploaded ==>
         after[i].sample in sent || SkippedIn(select, attempts, tables, commits, before[i].id)
  }

  /** Every document in `sent` is the sample of a row whose flag went from 0 to 1 between `before` and `after`. */
  ghost predicate SentAccounted(before: seq<Row>, after: seq<Row>, sent: seq<Sample>) {
    && |after| == |before|
    && forall d :: d in sent ==>
         exists i :: 0 <= i < |before| && !before[i].uploaded && after[i].uploaded && after[i].sample == d
  }

  /** Both directions: the rows marked and the documents sent account for each other. */
  ghost predicate Accounted(before: seq<Row>, after: seq<Row>, sent: seq<Sample>, select: seq<Row> -> seq<Row>,
                            attempts: seq<Attempt>, tables: seq<seq<Row>>, commits: seq<bool>)
    requires |commits| <= |attempts| && |tables| == |commits| + 1
  {
    MarkedAccounted(before, after, sent, select, attempts, tables, commits) && SentAccounted(before, after, sent)
  }

  /** A skip recorded in a trace stays recorded when the trace grows by one cycle. */
  lemma SkippedInExtend(select: seq<Row> -> seq<Row>, attempts: seq<Attempt>, tables: seq<seq<Row>>,
                        commits: seq<bool>, next: seq<Row>, c: bool, id: int)
    requires |commits| < |attempts| && |tables| == |commits| + 1
    requires SkippedIn(select, attempts, tables, commits, id)
    ensures SkippedIn(select, attempts, tables + [next], commits + [c], id)
  {
    var j :| 0 <= j < |commits| && commits[j] && id in IdsOf(select(tables[j])) && attempts[j].queue(id) == ApiError;
    assert (tables + [next])[j] == tables[j] && (commits + [c])[j] == commits[j];
  }

  /**
   * After one more cycle, every row marked so far still had its document
   * sent or was skipped by GoogleAPICallError in a committed cycle that
   * selected it.
   */
  lemma MarkedStaysAccounted(o: seq<Row>, select: seq<Row> -> seq<Row>, attempts: seq<Attempt>,
                             tables: seq<seq<Row>>, commits: seq<bool>, sent: seq<Sample>, after: seq<Row>, c: bool)
    requires |commits| < |attempts| && |tables| == |commits| + 1
    requires var before := tables[|commits|];
      && MarkedAccounted(o, before, sent, select, attempts, tables, commits) && OnlyMarked(o, before)
      && IdsIncreasing(before) && IsSelection(before, select(before))
      && (c ==> !Aborts(select(before), attempts[|commits|].queue) && after == MarkIds(before, IdsOf(select(before))))
      && (!c ==> after == before)
    ensures var k := |commits|;
      MarkedAccounted(o, after, sent + (if c then Batch(select(tables[k]), attempts[k].queue) else []), select, attempts,
                      tables + [after], commits + [c])
  {
    var k := |commits|;
    var before := tables[k];
    var picked := select(before);
    var q := attempts[k].queue;
    var sent' := sent + (if c then Batch(picked, q) else []);
    var tables', commits' := tables + [after], commits + [c];
    forall i | 0 <= i < |o| && !o[i].uploaded && after[i].uploaded
      ensures after[i].sample in sent' || SkippedIn(select, attempts, tables', commits', o[i].id)
    {
      if before[i].uploaded {
        if SkippedIn(select, attempts, tables, commits, o[i].id) {
          SkippedInExtend(select, attempts, tables, commits, after, c, o[i].id);
        }
      } else if c {
        MarkedWereSentOrSkipped(before, picked, q, i);
        if q(before[i].id) == ApiError {
          assert tables'[k] == before && commits'[k];
          assert 0 <= k < |commits'| && commits'[k] && o[i].id in IdsOf(select(tables'[k]))
            && attempts[k].queue(o[i].id) == ApiError;
        }
      }
    }
  }

  /** After one more cycle, every document sent so far is still the sample of a row marked so far. */
  lemma SentStaysAccounted(o: seq<Row>, before: seq<Row>, after: seq<Row>, sent: seq<Sample>,
                           picked: seq<Row>, q: int -> QueueStatus, c: bool)
    requires SentAccounted(o, before, sent) && OnlyMarked(o, before) && IsSelection(before, picked)
    requires c ==> after == MarkIds(before, IdsOf(picked))
    requires !c ==> after == before
    ensures SentAccounted(o, after, sent + (if c then Batch(picked, q) else []))
  {
    var sent' := sent + (if c then Batch(picked, q) else []);
    forall d | d in sent'
      ensures exists i :: 0 <= i < |o| && !o[i].uploaded && after[i].uploaded && after[i].sample == d
    {
      if d in sent {
        var i :| 0 <= i < |o| && !o[i].uploaded && before[i].uploaded && before[i].sample == d;
        assert after[i].uploaded && after[i].sample == d;
      } else {
        var batch := Batch(picked, q);
        var j :| 0 <= j < |batch| && batch[j] == d;
        BatchHoldsQueued(picked, q, j);
        var m :| 0 <= m < |picked| && batch[j] == picked[m].sample && q(picked[m].id) == Queued;
        assert picked[m] in before;
        var i :| 0 <= i < |before| && before[i] == picked[m];
        assert picked[m].id in IdsOf(picked);
        assert !o[i].uploaded && after[i].uploaded && after[i].sample == d;
      }
    }
  }

  /** One more cycle that selects and commits as `UploadCycle` says extends the trace. */
  lemma UploadRunExtend(o: seq<Row>, select: seq<Row> -> seq<Row>, attempts: seq<Attempt>,
                        tables: seq<seq<Row>>, commits: seq<bool>, after: seq<Row>, c: bool)
    requires IsUploadRun(o, select, attempts, tables, commits) && |commits| < |attempts|
    requires var before := tables[|commits|];
      && (c <==> Commits(select(before), attempts[|commits|]))
      && after == (if c then MarkIds(before, IdsOf(select(before))) else before)
    ensures IsUploadRun(o, select, attempts, tables + [after], commits + [c])
  {
    var tables', commits' := tables + [after], commits + [c];
    forall j | 0 <= j < |commits'|
      ensures (commits'[j] <==> Commits(select(tables'[j]), attempts[j]))
      ensures tables'[j + 1] == (if commits'[j] then MarkIds(tables'[j], IdsOf(select(tables'[j]))) else tables'[j])
    {
    }
  }

  /** One more cycle appends its batch, if it committed, to what the run sent (after any earlier documents `docs0`). */
  lemma SentExtend(select: seq<Row> -> seq<Row>, attempts: seq<Attempt>, tables: seq<seq<Row>>, commits: seq<bool>,
                   after: seq<Row>, c: bool, docs0: seq<Sample>)
    requires |commits| < |attempts| && |tables| == |commits| + 1
    ensures docs0 + Sent(select, attempts, tables + [after], commits + [c]) ==
      docs0 + Sent(select, attempts, tables, commits) +
        (if c then Batch(select(tables[|commits|]), attempts[|commits|].queue) else [])
  {
    var k := |commits|;
    var tables', commits' := tables + [after], commits + [c];
    assert tables'[..k + 1] == tables && commits'[..k] == commits;
    assert tables'[k] == tables[k];
  }

  /**
   * One cycle of `run` extends the trace, appends its batch to what was
   * sent (after any earlier documents `docs0`), and keeps the flags
   * monotone and the account of marked rows and sent documents.
   */
  lemma CycleKeepsAccount(o: seq<Row>, select: seq<Row> -> seq<Row>, attempts: seq<Attempt>,
                          tables: seq<seq<Row>>, commits: seq<bool>, after: seq<Row>, c: bool,
                          docs0: seq<Sample>)
    requires IsUploadRun(o, select, attempts, tables, commits) && |commits| < |attempts|
    requires var before := tables[|commits|];
      && Accounted(o, before, Sent(select, attempts, tables, commits), select, attempts, tables, commits)
      && OnlyMarked(o, before) && IdsIncreasing(before) && IsSelection(before, select(before))
      && (c <==> Commits(select(before), attempts[|commits|]))
      && after == (if c then MarkIds(before, IdsOf(select(before))) else before)
    ensures IsUploadRun(o, select, attempts, tables + [after], commits + [c])
    ensures docs0 + Sent(select, attempts, tables + [after], commits + [c]) ==
      docs0 + Sent(select, attempts, tables, commits) +
        (if c then Batch(select(tables[|commits|]), attempts[|commits|].queue) else [])
    ensures OnlyMarked(o, after)
    ensures Accounted(o, after, Sent(select, attempts, tables + [after], commits + [c]), select, attempts,
                      tables + [after], commits + [c])
  {
    var k := |commits|;
    var before := tables[k];
    var sent := Sent(select, attempts, tables, commits);
    UploadRunExtend(o, select, attempts, tables, commits, after, c);
    SentExtend(select, attempts, tables, commits, after, c, docs0);
    SentExtend(select, attempts, tables, commits, after, c, []);
    assert [] + sent == sent;
    MarkedStaysAccounted(o, select, attempts, tables, commits, sent, after, c);
    SentStaysAccounted(o, before, after, sent, select(before), attempts[k].queue, c);
  }

  /**
   * `run`: cycles follow until `running` is cleared. The ghost results are
   * the trace of the run, in which each cycle behaves as `UploadCycle`
   * says: it marks exactly its selection when its commit returns, and
   * changes nothing otherwise. The collection gains exactly the batches of
   * the committing cycles, in order. Rows are never lost or altered except
   * for their flag, which never reverts. Every row marked during the run
   * had its document sent or was skipped by GoogleAPICallError in a
   * committed cycle that selected it, and every document sent is the
   * sample of a row marked during the run. When every commit succeeds and
   * nothing is inserted meanwhile, each cycle that finds unsent rows marks
   * at least one, so as many cycles as there were unsent rows leave none
   * unsent.
   */
  method Run(db: Database, remote: Collection, select: seq<Row> -> seq<Row>, attempts: seq<Attempt>)
    returns (ghost tables: seq<seq<Row>>, ghost commits: seq<bool>)
    requires db.Valid()
    requires forall rows :: IdsIncreasing(rows) ==> IsSelection(rows, select(rows))
    modifies db, remote
    ensures db.Valid()
    ensures IsUploadRun(old(db.rows), select, attempts, tables, commits) && |commits| == |attempts|
    ensures db.rows == tables[|attempts|]
    ensures remote.documents == old(remote.documents) + Sent(select, attempts, tables, commits)
    ensures OnlyMarked(old(db.rows), db.rows)
    ensures |old(remote.documents)| <= |remote.documents|
    ensures remote.documents[..|old(remote.documents)|] == old(remote.documents)
    ensures Accounted(old(db.rows), db.rows, Sent(select, attempts, tables, commits), select, attempts, tables, commits)
    ensures (forall k :: 0 <= k < |attempts| ==> Succeeds(attempts[k])) ==>
      UnsentCount(db.rows) <= UnsentCount(old(db.rows)) - Min(|attempts|, UnsentCount(old(db.rows)))
  {
    ghost var allSucceed := forall j :: 0 <= j < |attempts| ==> Succeeds(attempts[j]);
    ghost var initial := UnsentCount(db.rows);
    tables, commits := [db.rows], [];
    var k := 0;
    while k < |attempts|
      invariant 0 <= k <= |attempts| && |commits| == k
      invariant db.Valid()
      invariant IsUploadRun(old(db.rows), select, attempts, tables, commits)
      invariant db.rows == tables[k]
      invariant OnlyMarked(old(db.rows), db.rows)
      invariant remote.documents == old(remote.documents) + Sent(select, attempts, tables, commits)
      invariant Accounted(old(db.rows), db.rows, Sent(select, attempts, tables, commits), select, attempts, tables, commits)
      invariant allSucceed ==> UnsentCount(db.rows) <= initial - Min(k, initial)
    {
      ghost var before := db.rows;
      ghost var picked := select(before);
      ghost var docs := remote.documents;
      var committed := UploadCycle(db, remote, select, attempts[k].queue, attempts[k].commitOk);
      ghost var batch := if committed then Batch(picked, attempts[k].queue) else [];
      assert remote.documents == docs + batch;
      if committed {
        MarkNeverIncreasesUnsent(before, IdsOf(picked));
        if UnsentCount(before) > 0 {
          SelectionMarkingProgress(before, picked);
        }
      } else if allSucceed {
        assert Succeeds(attempts[k]);
        assert UnsentCount(before) == 0;
      }
      CycleKeepsAccount(old(db.rows), select, attempts, tables, commits, db.rows, committed, old(remote.documents));
      tables, commits := tables + [db.rows], commits + [committed];
      k := k + 1;
    }
  }
}
