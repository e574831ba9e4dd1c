# boat-tracker: sampling and upload core, in Dafny

A model of the part of the boat tracker that decides what to record and what to ship:

- **Sampler** (`LocalDbWriter`, from `local_db_writer.py`): each cycle reads a GPS fix from gpsd and four engine signals from the CAN bus cache. It then decides whether to append a row to the SQLite table `gps_data`. It writes after a 60 s heartbeat, into an empty table, or after a move of more than 0.1 mile from the latest row.
- **Uploader** (`FirestoreWriter`, from `firestore_writer.py`): each cycle selects up to 10 rows with `uploaded = 0` and sends them to Firestore as one batch. Only after the commit returns does it set `uploaded = 1` on exactly the selected ids.
- **CAN bus reader** (`CanbusPipeReader`, from `canbus_pipe_reader.py`): each JSON line read from the named pipe overwrites the cache entry (value, time stamp) for its signal name.
- **GPS snapshot** (`GpsSnapshot` and `ToolsGpsSnapshot`, from `gps_snapshot.py` and its copy `tools/gps_snapshot.py`): the receive loop keeps the first report with the highest fix mode, and stops early at a 3D fix. The fix mode is then shown as a status string.
- **Shared state** (`SharedData`, from `shared_data.py` and the SQL in the two writers): the cache map and the table. The table is a sequence of rows. Its ids are strictly increasing (AUTOINCREMENT, played by the counter `nextId`), and new rows start with `uploaded` false.

Environment interactions become inputs:
- gpsd, the time-zone helper `mytime` and the clock are per-cycle inputs (`Poll`, `Clocks`).
- geopy's distance is a function-typed parameter (`Distance`).
- SQLite's choice of rows in an unordered `LIMIT` query is a chooser function constrained by `IsSelection`.
- Which row `ORDER BY ... LIMIT 1` returns among rows with equal time stamps is left open (`IsLatest`).
- The Firestore commit is a boolean outcome.
- The pipe and the gpsd socket are finite streams of already-decoded items. Each stream ends when the `running` flag is cleared or the time budget runs out.

Where the code is simpler than one might expect, the model follows the code:
- Only `mode == 0` is skipped, so a gpsd fix of mode 1 ("no fix") is still recorded.
- The heartbeat is a fixed 60 s, measured from the last write in memory. It does not depend on the engine.
- A heartbeat row stores the current fix, not the previous row's position.
- The uploader has no retry, no backoff and no ordering by id. It drains at most one batch per 30 s cycle.

## Model

| member | source | states |
|---|---|---|
| SharedData.UnsentCount | firestore_writer.py:27 | the number of rows with `uploaded = 0`; it is zero exactly when every row is marked |
| SharedData.MarkIds | firestore_writer.py:60-61 | the UPDATE changes only the flag, sets it on exactly the rows whose id was listed, and never clears one |
| SharedData.MarkIdsCompose | firestore_writer.py:61 | marking in two rounds equals marking the union, so re-marking a marked row is a no-op |
| SharedData.MarkNeverIncreasesUnsent | firestore_writer.py:60-62 | marking never raises the number of unsent rows |
| SharedData.MarkDecreasesUnsent | firestore_writer.py:60-62 | marking a set holding the id of an unsent row strictly lowers the number of unsent rows |
| SharedData.Latest | local_db_writer.py:100-104 | an admissible answer of the latest-row query: none exactly for an empty table, else a row of the table with the largest shifted time stamp |
| SharedData.TelemetryCache.constructor | shared_data.py:6 | the CAN bus cache starts empty |
| SharedData.Database.constructor | shared_data.py:13-26 | a freshly created table is empty and valid; since `CREATE TABLE IF NOT EXISTS` reuses an existing file, every operation accepts any valid table, not only a fresh one |
| SharedData.Database.Insert | local_db_writer.py:59-67 | the sample is appended as one new row with `uploaded` false; its id exceeds every earlier id, so ids stay strictly increasing |
| SharedData.Database.MarkUploaded | firestore_writer.py:61-62 | the table after the executemany UPDATE is the old one with exactly the listed ids marked; ids and the counter are unchanged |
| CanbusPipeReader.Update | canbus_pipe_reader.py:31-39 | a line with `PGNname` and `value` sets that name's entry to (value, its `timestamp` or else the clock); every other name, and every other kind of line, leaves the cache as it was |
| CanbusPipeReader.HandleLine | canbus_pipe_reader.py:26-39 | one line updates the cache as `Update` says; the line raises exactly when it is not JSON or has a name without a value, and the cache is then unchanged |
| CanbusPipeReader.Run | canbus_pipe_reader.py:22-43 | the cache after the nested loops is the in-order replay of all lines, and the pipe is reopened once per raising line |
| CanbusPipeReader.ReplayLastWriteWins | canbus_pipe_reader.py:35-39 | after a stream, a name holds the entry of the last line that stored it |
| CanbusPipeReader.ReplayUntouched | canbus_pipe_reader.py:35-39 | a name no line stored keeps its old entry, or stays absent |
| LocalDbWriter.GetLatestCanbus | local_db_writer.py:85-91 | a value is returned exactly when the name is cached and its entry is at most 10 s old (10 s is still fresh), and it is the cached value; otherwise None |
| LocalDbWriter.ReadBackAfterStore | local_db_writer.py:88-91 | a value the pipe reader stored is read back while at most 10 s old, and as None after that |
| LocalDbWriter.ShouldUpdate | local_db_writer.py:93-114 | true whenever more than 60 s passed since the last write; within that window, true on an empty table, and otherwise true exactly when the distance to the latest row exceeds 0.1 (strictly) |
| LocalDbWriter.ShouldUpdateIgnoresRpmAndTimestamp | local_db_writer.py:106-114 | neither `rpm` nor the shifted time stamp affects the decision |
| LocalDbWriter.Decide | local_db_writer.py:32-58 | no row after an exception, for mode 0 or for time zone "Unknown"; otherwise a row exactly when `should_update` holds, and the row holds the time zone, the shifted time stamp, the current fix and the four cache readings |
| LocalDbWriter.NoWriteWithinHeartbeatUnlessMoved | local_db_writer.py:95-114 | within 60 s of the last write, a row is written only into an empty table or after a move of more than 0.1 |
| LocalDbWriter.Cycle | local_db_writer.py:31-81 | for some admissible latest-row answer, the table gains exactly the decided row or nothing, and `last_write_time` becomes the clock exactly when a row was written |
| LocalDbWriter.Run | local_db_writer.py:23-83 | the run has a trace in which each cycle decides as `Decide` says, given an admissible latest-row answer on the table at that point and the `last_write_time` of the run so far; the table ends as the old table followed by exactly the decided samples, in order, as unsent rows; `last_write_time` ends as the write clock of the last cycle that wrote, or the start time |
| LocalDbWriter.WriteTimeStaysAtStart | local_db_writer.py:28-69 | until a cycle writes a row, `last_write_time` is the start time |
| LocalDbWriter.NoHeartbeatWriteInFirstMinute | local_db_writer.py:28-114 | until the first write, a cycle decided within 60 s of the start writes only into an empty table or after a move of more than 0.1 |
| FirestoreWriter.FirstUnsent | firestore_writer.py:27-28 | one admissible answer to the unordered `LIMIT` query: min(limit, number of unsent) rows, all unsent rows of the table, ids increasing |
| FirestoreWriter.SelectionExists | firestore_writer.py:27-28 | every table with increasing ids admits a selection of at most 10 unsent rows, no row twice |
| FirestoreWriter.BatchHoldsQueued | firestore_writer.py:37-50 | every document in the batch is columns 1-9 of a selected row whose `batch.set` succeeded |
| FirestoreWriter.QueuedOrSkipped | firestore_writer.py:37-54 | unless the cycle aborts, each selected row's columns 1-9 are in the batch or its queueing raised GoogleAPICallError; the batch is no longer than the selection |
| FirestoreWriter.UploadCycle | firestore_writer.py:24-65 | the cycle commits exactly when the selection is non-empty, no queueing raised another exception, and the commit returned. It then appends the batch to the collection and marks exactly the selected ids, including rows left out by GoogleAPICallError. Otherwise neither the collection nor the table changes |
| FirestoreWriter.MarkedWereSentOrSkipped | firestore_writer.py:49-61 | a row marked by a committed cycle had its document sent, or its queueing raised GoogleAPICallError |
| FirestoreWriter.SelectionMarkingProgress | firestore_writer.py:27-62 | marking the selection of a table with unsent rows strictly lowers the number of unsent rows |
| FirestoreWriter.MarkedStaysAccounted | firestore_writer.py:49-62 | after one more cycle, every row marked so far had its document sent or was skipped by GoogleAPICallError in a committed cycle that selected it; a cycle whose commit did not return marks nothing |
| FirestoreWriter.SentStaysAccounted | firestore_writer.py:37-62 | after one more cycle, every document sent so far is the sample of a row marked so far, since a committed batch holds only selected rows and the commit marks them all |
| FirestoreWriter.CycleKeepsAccount | firestore_writer.py:24-65 | one cycle extends the run's trace, appends its batch to the documents sent exactly when it commits, and keeps flags monotone and every marked row and sent document accounted for |
| FirestoreWriter.Run | firestore_writer.py:20-69 | the run has a trace in which each cycle selects from the table at that point, commits exactly when the selection is non-empty, nothing aborted and the commit returned, and then marks exactly its selection, else changes nothing; the collection gains exactly the committing cycles' batches, in order; rows keep their ids and samples and flags never revert; every row marked during the run had its document sent or was skipped by GoogleAPICallError in a committed cycle that selected it, and every document sent is the sample of a row marked during the run; when every cycle succeeds and nothing is inserted meanwhile, n cycles mark at least min(n, unsent) rows |
| FirestoreWriter.Collection.constructor | firestore_writer.py:14-17 | the model of the collection starts with no documents committed by this process |
| GpsSnapshot.BestSoFar | gps_snapshot.py:31-34 | a kept report always has a mode |
| GpsSnapshot.BestSoFarIsFirstMax | gps_snapshot.py:31-34 | the kept report is absent exactly when no report had a mode, and otherwise is the first report that attains the highest mode |
| GpsSnapshot.BestModeNeverDecreases | gps_snapshot.py:33-34 | the mode of `best_fix` never decreases as reports arrive |
| GpsSnapshot.Consumed | gps_snapshot.py:22-38 | the loop reads items until one raises or `best_fix` has mode 3, or until the stream ends |
| GpsSnapshot.GetBestGpsFix | gps_snapshot.py:8-47 | the loop returns the first report with the highest mode among the items read, or None when the item that ended it raised |
| GpsSnapshot.NoModeNoFix | gps_snapshot.py:13-34 | with no report carrying a mode, the result is None |
| GpsSnapshot.FailureDiscardsFix | gps_snapshot.py:43-45 | an exception before the loop stopped yields None, discarding any fix found |
| GpsSnapshot.StopsAtThreeD | gps_snapshot.py:36-38 | once a 3D fix is kept, nothing received afterwards matters, and the result has mode 3 |
| GpsSnapshot.FixStatus | gps_snapshot.py:60-61 | modes 1, 2, 3 map to "No Fix", "2D Fix", "3D Fix", and anything else, a missing mode included, to "Unknown Fix" |
| GpsSnapshot.BestFixHasMode | gps_snapshot.py:53-60 | a fix returned to `main` always has a mode, so the default 0 is never used |
| ToolsGpsSnapshot.GetBestGpsFix | tools/gps_snapshot.py:8-47 | the tools copy returns the same result as the loop above, and any fix it returns has a mode |
| ToolsGpsSnapshot.FixStatus | tools/gps_snapshot.py:60-61 | the tools copy maps modes 1, 2, 3 and anything else to the same four status strings |

## Left out

- Threads, `canbus_lock` and the `running` flags: each worker is modelled on its own. A flag cleared from outside is the end of the worker's input stream. Interleavings of the sampler, the uploader and the reader are not modelled.
- `boat_tracker.py` (thread start and join, logging setup, the idle wait), `dump_sqlite.py`, `tools/dump_sqlite.py` and `tools/upload_stats.py`: wiring and reporting output only.
- `initialize_sqlite`: the SQL DDL is reduced to the row type and the `Database` constructor.
- gpsd, `mytime.get_tz_offset` and `mytime.get_shifted_timestamp`: not part of this model. Their results are per-cycle inputs.
- `calculate_distance` (geopy geodesic): floating point and a foreign library. It is a function parameter.
- Floating point in general: readings, clocks and distances are `real`.
- `time.sleep`, logging and `print`: not modelled.
- JSON decoding: lines and gpsd reports arrive already decoded. A pipe line that is valid JSON but not an object (`42`, `[1]`, `"x"`) makes `message.get` raise AttributeError, with the same effect as undecodable JSON: it is one `Malformed` line. A non-numeric `value` or `timestamp` (which would make `float()` or the subtraction raise) is not represented. A sampler cycle in which that happens is covered by `Poll.Raised`.
- LocalDbWriter.Cycle: every exception in a cycle is one `Raised` input with no effect. An INSERT that executed but whose commit raised (it would stay pending in the connection's transaction) is not modelled.
- LocalDbWriter.Cycle: `gpsd.connect()` and `sqlite3.connect()` failing before the loop are not modelled.
- CanbusPipeReader.Run: after a raising line the pipe is reopened. Lines the old file object had buffered but not yet returned would be lost; the model hands the next line to the reopened pipe.
- FirestoreWriter.UploadCycle: a failure of the local UPDATE or its commit after a successful Firestore commit is not modelled. The commit outcome stands for every exception before marking.
- FirestoreWriter.Run: the drain property is stated per cycle count (at least min(n, unsent) rows marked after n successful cycles). The 30 s pacing is not modelled.
- GpsSnapshot.GetBestGpsFix: a `recv` chunk holding several reports, or half of one, is one `BadJson` item. A JSON list or string without "mode" in it raises nothing and counts as a report without a mode (`Json` with no mode). A number, `true`, `false`, `null`, or a list or string containing "mode" makes the `"mode" in report` test or the indexing raise TypeError: one `Failed` item.
- Printing the fix details in `main`: output only. Its mode-to-status mapping is modelled.
