/** The `jobs` and `portals` tables and the five operations the scrapers use
    on them, with the behaviour the SQL states: the unique key
    `(req_id, portal_id)`, `ON CONFLICT DO NOTHING`, the `VARCHAR(50)` and
    `NOT NULL` columns, the foreign key from `jobs.portal_id` to `portals.id`,
    and a batch that commits only when every statement in it succeeded. */
module Database {

  import opened Values
  import opened JobModel
  import opened PortalModel

  /** Width of the `req_id` and `recent_job_id` columns (`VARCHAR(50)`). */
  const VarcharLimit: nat := 50

  /** A row of `jobs` (the serial id and `scraped_at` columns are left out). */
  datatype JobRow = JobRow(reqId: string, portalId: int, position: JString, location: JString, jobUrl: JString)

  /** A row of `portals`, keyed by its id; `workday` is a nullable boolean column. */
  datatype PortalRow = PortalRow(name: string, link: string, recentJobId: JString, workday: Option<bool>)

  /** The SQL errors the statements can raise. */
  datatype DbError = NullReqId | ReqIdTooLong | UnknownPortal | CursorTooLong

  datatype StoreState = StoreState(jobs: seq<JobRow>, portals: map<int, PortalRow>)

  type Key = (string, int)

  function KeyOf(row: JobRow): Key {
    (row.reqId, row.portalId)
  }

  function TableKeys(rows: seq<JobRow>): set<Key> {
    set k | 0 <= k < |rows| :: KeyOf(rows[k])
  }

  predicate HasKey(rows: seq<JobRow>, reqId: string, portalId: int) {
    (reqId, portalId) in TableKeys(rows)
  }

  /** The unique constraint: no two rows share `(req_id, portal_id)`. */
  predicate KeysUnique(rows: seq<JobRow>) {
    forall i, j :: 0 <= i < j < |rows| ==> KeyOf(rows[i]) != KeyOf(rows[j])
  }

  /** Every constraint of the two tables. */
  predicate TablesValid(s: StoreState) {
    && KeysUnique(s.jobs)
    && (forall k :: 0 <= k < |s.jobs| ==> s.jobs[k].portalId in s.portals && |s.jobs[k].reqId| <= VarcharLimit)
    && (forall id :: id in s.portals && s.portals[id].recentJobId.Some? ==>
          |s.portals[id].recentJobId.value| <= VarcharLimit)
  }

  /** `jobExists(reqId, portalId)`: a null req id compares unknown in SQL and matches no row. */
  predicate JobExistsIn(s: StoreState, reqId: JString, portalId: int) {
    reqId.Some? && HasKey(s.jobs, reqId.value, portalId)
  }

  /** A job the insert statement accepts in a table that does not yet hold its key. */
  predicate Admissible(j: JobRecord, portals: map<int, PortalRow>) {
    j.reqId.Some? && |j.reqId.value| <= VarcharLimit && j.portalId in portals
  }

  function RowOf(j: JobRecord): JobRow
    requires j.reqId.Some?
  {
    JobRow(j.reqId.value, j.portalId, j.position, j.location, j.jobUrl)
  }

  // ---------------------------------------------------------------------
  // INSERT ... ON CONFLICT (req_id, portal_id) DO NOTHING
  // ---------------------------------------------------------------------

  /** One execution of the insert statement: the new table, or the error it raises.
      The column checks come first; a conflicting key then makes the statement a no-op. */
  function InsertOne(rows: seq<JobRow>, portals: map<int, PortalRow>, j: JobRecord): Result<seq<JobRow>, DbError> {
    if j.reqId.None? then Failure(NullReqId)
    else if |j.reqId.value| > VarcharLimit then Failure(ReqIdTooLong)
    else if HasKey(rows, j.reqId.value, j.portalId) then Ok(rows)
    else if j.portalId !in portals then Failure(UnknownPortal)
    else Ok(rows + [RowOf(j)])
  }

  /** The table after an executed batch and the row count of each statement. */
  datatype BatchRun = BatchRun(rows: seq<JobRow>, results: seq<int>)

  /** `executeBatch`: the statements in list order, each seeing the rows of the ones
      before; the first error aborts the whole batch. */
  function ExecuteBatch(rows: seq<JobRow>, portals: map<int, PortalRow>, batch: seq<JobRecord>): Result<BatchRun, DbError>
    decreases |batch|
  {
    if batch == [] then Ok(BatchRun(rows, []))
    else
      match InsertOne(rows, portals, batch[0])
      case Failure(e) => Failure(e)
      case Ok(next) =>
        match ExecuteBatch(next, portals, batch[1..])
        case Failure(e) => Failure(e)
        case Ok(run) => Ok(BatchRun(run.rows, [if |next| > |rows| then 1 else 0] + run.results))
  }

  /** Number of statements that reported an inserted row. */
  function CountPositive(results: seq<int>): (n: nat)
    ensures n <= |results|
  {
    if results == [] then 0
    else CountPositive(results[..|results| - 1]) + (if results[|results| - 1] > 0 then 1 else 0)
  }

  /** `insertJobs` on a store: `(returned count or error, store afterwards)`. A null or
      empty list returns 0 at once; a failed batch is never committed. */
  function InsertJobsSpec(s: StoreState, batch: Option<seq<JobRecord>>): (Result<int, DbError>, StoreState) {
    if batch.None? || batch.value == [] then (Ok(0), s)
    else
      match ExecuteBatch(s.jobs, s.portals, batch.value)
      case Failure(e) => (Failure(e), s)
      case Ok(run) => (Ok(CountPositive(run.results)), s.(jobs := run.rows))
  }

  /** `UPDATE portals SET recent_job_id = ? WHERE id = ?`. */
  function UpdateCursorSpec(s: StoreState, portalId: int, reqId: JString): Result<StoreState, DbError> {
    if reqId.Some? && |reqId.value| > VarcharLimit then Failure(CursorTooLong)
    else if portalId in s.portals then
      Ok(s.(portals := s.portals[portalId := s.portals[portalId].(recentJobId := reqId)]))
    else Ok(s)
  }

  // ---------------------------------------------------------------------
  // Properties of the table semantics
  // ---------------------------------------------------------------------

  lemma TableKeysAppend(rows: seq<JobRow>, row: JobRow)
    ensures TableKeys(rows + [row]) == TableKeys(rows) + {KeyOf(row)}
  {
    var r := rows + [row];
    forall key | key in TableKeys(r) ensures key in TableKeys(rows) + {KeyOf(row)} {
      var k :| 0 <= k < |r| && KeyOf(r[k]) == key;
      if k < |rows| { assert KeyOf(rows[k]) == key; }
    }
    forall key | key in TableKeys(rows) ensures key in TableKeys(r) {
      var k :| 0 <= k < |rows| && KeyOf(rows[k]) == key;
      assert KeyOf(r[k]) == key;
    }
    assert KeyOf(r[|rows|]) == KeyOf(row);
  }

  /** `insertJob`: true and one appended row iff the key was absent and the row is
      admissible; false and an unchanged table iff the key was present. */
  lemma InsertOneCases(s: StoreState, j: JobRecord)
    requires TablesValid(s)
    ensures InsertOne(s.jobs, s.portals, j) == Ok(s.jobs) <==>
            j.reqId.Some? && |j.reqId.value| <= VarcharLimit && HasKey(s.jobs, j.reqId.value, j.portalId)
    ensures InsertOne(s.jobs, s.portals, j).Ok? && InsertOne(s.jobs, s.portals, j) != Ok(s.jobs) <==>
            Admissible(j, s.portals) && !HasKey(s.jobs, j.reqId.value, j.portalId)
    ensures Admissible(j, s.portals) && !HasKey(s.jobs, j.reqId.value, j.portalId) ==>
            InsertOne(s.jobs, s.portals, j) == Ok(s.jobs + [RowOf(j)])
    ensures InsertOne(s.jobs, s.portals, j).Failure? <==> !Admissible(j, s.portals)
  {
    if j.reqId.Some? && |j.reqId.value| <= VarcharLimit && HasKey(s.jobs, j.reqId.value, j.portalId) {
      var k :| 0 <= k < |s.jobs| && KeyOf(s.jobs[k]) == (j.reqId.value, j.portalId);
      assert j.portalId in s.portals;
    }
    if Admissible(j, s.portals) && !HasKey(s.jobs, j.reqId.value, j.portalId) {
      assert |s.jobs + [RowOf(j)]| > |s.jobs|;
    }
  }

  /** One accepted statement keeps every constraint. */
  lemma InsertOneValid(s: StoreState, j: JobRecord)
    requires TablesValid(s) && InsertOne(s.jobs, s.portals, j).Ok?
    ensures TablesValid(s.(jobs := InsertOne(s.jobs, s.portals, j).value))
  {
    var rows := InsertOne(s.jobs, s.portals, j).value;
    if rows != s.jobs {
      var row := RowOf(j);
      assert rows == s.jobs + [row];
      forall i | 0 <= i < |s.jobs| ensures KeyOf(s.jobs[i]) != KeyOf(row) {
        assert KeyOf(s.jobs[i]) in TableKeys(s.jobs);
      }
      assert forall i, k :: 0 <= i < k < |rows| ==> KeyOf(rows[i]) != KeyOf(rows[k]) by {
        forall i, k | 0 <= i < k < |rows| ensures KeyOf(rows[i]) != KeyOf(rows[k]) {
          if k < |s.jobs| {
            assert rows[i] == s.jobs[i] && rows[k] == s.jobs[k];
          } else {
            assert rows[i] == s.jobs[i] && rows[k] == row;
          }
        }
      }
    }
  }

  /** A committed batch keeps every constraint, leaves the old rows as they were, and
      reports one result per statement whose positive ones count the appended rows. */
  lemma {:induction false} BatchShape(s: StoreState, batch: seq<JobRecord>)
    requires TablesValid(s) && ExecuteBatch(s.jobs, s.portals, batch).Ok?
    ensures var run := ExecuteBatch(s.jobs, s.portals, batch).value;
      && TablesValid(s.(jobs := run.rows))
      && |s.jobs| <= |run.rows|
      && run.rows[..|s.jobs|] == s.jobs
      && |run.results| == |batch|
      && CountPositive(run.results) == |run.rows| - |s.jobs|
    decreases |batch|
  {
    if batch != [] {
      var next := InsertOne(s.jobs, s.portals, batch[0]).value;
      InsertOneValid(s, batch[0]);
      var s' := s.(jobs := next);
      BatchShape(s', batch[1..]);
      var tail := ExecuteBatch(next, s.portals, batch[1..]).value;
      var run := ExecuteBatch(s.jobs, s.portals, batch).value;
      assert run.rows == tail.rows;
      assert run.results == [if |next| > |s.jobs| then 1 else 0] + tail.results;
      assert next == s.jobs || next == s.jobs + [RowOf(batch[0])];
      assert run.rows[..|s.jobs|] == next[..|s.jobs|];
      CountPositiveCons(if |next| > |s.jobs| then 1 else 0, tail.results);
    }
  }

  lemma {:induction false} CountPositiveCons(x: int, rs: seq<int>)
    ensures CountPositive([x] + rs) == (if x > 0 then 1 else 0) + CountPositive(rs)
    decreases |rs|
  {
    if rs != [] {
      var init := rs[..|rs| - 1];
      assert ([x] + rs)[..|[x] + rs| - 1] == [x] + init;
      CountPositiveCons(x, init);
    }
  }

  function BatchKeys(batch: seq<JobRecord>): set<Key> {
    set k | 0 <= k < |batch| && batch[k].reqId.Some? :: (batch[k].reqId.value, batch[k].portalId)
  }

  /** `BatchKeys` of a non-empty batch: its first key and the keys of the rest. */
  lemma BatchKeysCons(batch: seq<JobRecord>)
    requires batch != [] && batch[0].reqId.Some?
    ensures BatchKeys(batch) == {(batch[0].reqId.value, batch[0].portalId)} + BatchKeys(batch[1..])
  {
    var rest := batch[1..];
    forall key | key in BatchKeys(rest) ensures key in BatchKeys(batch) {
      var k :| 0 <= k < |rest| && rest[k].reqId.Some? && (rest[k].reqId.value, rest[k].portalId) == key;
      assert batch[k + 1] == rest[k];
    }
    forall key | key in BatchKeys(batch) ensures key in {(batch[0].reqId.value, batch[0].portalId)} + BatchKeys(rest) {
      var k :| 0 <= k < |batch| && batch[k].reqId.Some? && (batch[k].reqId.value, batch[k].portalId) == key;
      if k > 0 { assert rest[k - 1] == batch[k]; }
    }
  }

  /** One unfolding of `ExecuteBatch` on a batch whose first statement succeeds. */
  lemma ExecuteBatchStep(rows: seq<JobRow>, portals: map<int, PortalRow>, batch: seq<JobRecord>)
    requires batch != [] && InsertOne(rows, portals, batch[0]).Ok?
    requires ExecuteBatch(rows, portals, batch).Ok?
    ensures var next := InsertOne(rows, portals, batch[0]).value;
      && ExecuteBatch(next, portals, batch[1..]).Ok?
      && ExecuteBatch(rows, portals, batch).value.rows == ExecuteBatch(next, portals, batch[1..]).value.rows
      && ExecuteBatch(rows, portals, batch).value.results
         == [if |next| > |rows| then 1 else 0] + ExecuteBatch(next, portals, batch[1..]).value.results
  {
  }

  lemma {:induction false} BatchAddsKeys(rows: seq<JobRow>, portals: map<int, PortalRow>, batch: seq<JobRecord>)
    requires ExecuteBatch(rows, portals, batch).Ok?
    ensures TableKeys(ExecuteBatch(rows, portals, batch).value.rows) == TableKeys(rows) + BatchKeys(batch)
    decreases |batch|
  {
    if batch == [] {
      assert BatchKeys(batch) == {};
    } else {
      var j := batch[0];
      var next := InsertOne(rows, portals, j).value;
      ExecuteBatchStep(rows, portals, batch);
      BatchAddsKeys(next, portals, batch[1..]);
      BatchKeysCons(batch);
      if !HasKey(rows, j.reqId.value, j.portalId) {
        TableKeysAppend(rows, RowOf(j));
      }
    }
  }

  /** The count `insertJobs` returns is the number of distinct keys of the batch that
      the table did not hold before: a key repeated within the batch counts once. */
  lemma {:induction false} BatchCountsNewKeys(rows: seq<JobRow>, portals: map<int, PortalRow>, batch: seq<JobRecord>)
    requires ExecuteBatch(rows, portals, batch).Ok?
    ensures CountPositive(ExecuteBatch(rows, portals, batch).value.results)
            == |BatchKeys(batch) - TableKeys(rows)|
    decreases |batch|
  {
    if batch == [] {
      assert BatchKeys(batch) == {};
    } else {
      var j := batch[0];
      var next := InsertOne(rows, portals, j).value;
      ExecuteBatchStep(rows, portals, batch);
      BatchCountsNewKeys(next, portals, batch[1..]);
      var tail := ExecuteBatch(next, portals, batch[1..]).value;
      CountPositiveCons(if |next| > |rows| then 1 else 0, tail.results);
      BatchKeysCons(batch);
      var key := (j.reqId.value, j.portalId);
      NewKeysStep(key, BatchKeys(batch[1..]), TableKeys(rows));
      if !HasKey(rows, j.reqId.value, j.portalId) {
        TableKeysAppend(rows, RowOf(j));
      }
    }
  }

  lemma NewKeysStep(key: Key, rest: set<Key>, t: set<Key>)
    ensures key in t ==> ({key} + rest) - t == rest - t
    ensures key !in t ==> |({key} + rest) - t| == 1 + |rest - (t + {key})|
  {
    if key !in t {
      assert ({key} + rest) - t == {key} + (rest - (t + {key}));
    }
  }

  /** A batch fails, and so is not committed, iff some job in it is not admissible:
      a null req id, a req id over the column width, or a portal id with no row. */
  lemma {:induction false} BatchFailsIff(s: StoreState, batch: seq<JobRecord>)
    requires TablesValid(s)
    ensures ExecuteBatch(s.jobs, s.portals, batch).Failure? <==>
            exists k :: 0 <= k < |batch| && !Admissible(batch[k], s.portals)
    decreases |batch|
  {
    if batch != [] {
      InsertOneCases(s, batch[0]);
      if Admissible(batch[0], s.portals) {
        InsertOneValid(s, batch[0]);
        var next := InsertOne(s.jobs, s.portals, batch[0]).value;
        BatchFailsIff(s.(jobs := next), batch[1..]);
        if exists k :: 0 <= k < |batch| && !Admissible(batch[k], s.portals) {
          var k :| 0 <= k < |batch| && !Admissible(batch[k], s.portals);
          assert batch[1..][k - 1] == batch[k];
        }
        if exists k :: 0 <= k < |batch[1..]| && !Admissible(batch[1..][k], s.portals) {
          var k :| 0 <= k < |batch[1..]| && !Admissible(batch[1..][k], s.portals);
          assert batch[k + 1] == batch[1..][k];
        }
      }
    }
  }

  /** After a successful `insertJobs`, `jobExists` holds for every job of the list. */
  lemma InsertedJobsExist(s: StoreState, batch: seq<JobRecord>)
    requires TablesValid(s) && batch != []
    requires InsertJobsSpec(s, Some(batch)).0.Ok?
    ensures forall k :: 0 <= k < |batch| ==> JobExistsIn(InsertJobsSpec(s, Some(batch)).1, batch[k].reqId, batch[k].portalId)
    ensures InsertJobsSpec(s, Some(batch)).1.portals == s.portals
  {
    BatchAddsKeys(s.jobs, s.portals, batch);
    BatchFailsIff(s, batch);
    forall k | 0 <= k < |batch|
      ensures JobExistsIn(InsertJobsSpec(s, Some(batch)).1, batch[k].reqId, batch[k].portalId)
    {
      assert Admissible(batch[k], s.portals);
      assert (batch[k].reqId.value, batch[k].portalId) in BatchKeys(batch);
    }
  }

  /** `insertJobs` returns at most the list size, keeps the old rows, and keeps the store valid. */
  lemma InsertJobsBounds(s: StoreState, batch: Option<seq<JobRecord>>)
    requires TablesValid(s)
    ensures var (r, s') := InsertJobsSpec(s, batch);
      && TablesValid(s')
      && s'.portals == s.portals
      && |s.jobs| <= |s'.jobs| && s'.jobs[..|s.jobs|] == s.jobs
      && (r.Ok? ==> 0 <= r.value <= (if batch.None? then 0 else |batch.value|))
      && (r.Failure? ==> s' == s)
  {
    if batch.Some? && batch.value != [] && ExecuteBatch(s.jobs, s.portals, batch.value).Ok? {
      BatchShape(s, batch.value);
    }
  }

  /** `updateRecentJobId` changes only the cursor of the portal with that id, if there is one. */
  lemma UpdateCursorOnlyTarget(s: StoreState, portalId: int, reqId: JString)
    requires TablesValid(s)
    ensures UpdateCursorSpec(s, portalId, reqId).Failure? <==> reqId.Some? && |reqId.value| > VarcharLimit
    ensures UpdateCursorSpec(s, portalId, reqId).Ok? ==>
      var s' := UpdateCursorSpec(s, portalId, reqId).value;
      && TablesValid(s')
      && s'.jobs == s.jobs
      && s'.portals.Keys == s.portals.Keys
      && (forall id :: id in s.portals && id != portalId ==> s'.portals[id] == s.portals[id])
      && (portalId in s.portals ==> s'.portals[portalId] == s.portals[portalId].(recentJobId := reqId))
  {
  }

  // ---------------------------------------------------------------------
  // The store object
  // ---------------------------------------------------------------------

  class DatabaseManager {
    var jobs: seq<JobRow>
    var portals: map<int, PortalRow>

    function State(): StoreState
      reads this
    {
      StoreState(jobs, portals)
    }

    predicate Valid()
      reads this
    {
      TablesValid(State())
    }

    constructor (initial: StoreState)
      requires TablesValid(initial)
      ensures Valid() && State() == initial
    {
      jobs := initial.jobs;
      portals := initial.portals;
    }

    predicate JobExists(reqId: JString, portalId: int)
      reads this
    {
      JobExistsIn(State(), reqId, portalId)
    }

    method InsertJob(job: Job) returns (r: Result<bool, DbError>)
      requires Valid()
      modifies this
      ensures Valid() && portals == old(portals)
      ensures r.Failure? <==> InsertOne(old(jobs), portals, job.Record()).Failure?
      ensures r.Failure? ==> jobs == old(jobs)
      ensures r.Ok? ==> jobs == InsertOne(old(jobs), portals, job.Record()).value
      ensures r == Ok(true) <==> Admissible(job.Record(), portals) && !HasKey(old(jobs), job.reqId.value, job.portalId)
      ensures r == Ok(false) <==> job.reqId.Some? && |job.reqId.value| <= VarcharLimit && HasKey(old(jobs), job.reqId.value, job.portalId)
    {
      var record := job.Record();
      InsertOneCases(State(), record);
      match InsertOne(jobs, portals, record)
      case Failure(e) =>
        r := Failure(e);
      case Ok(rows) =>
        InsertOneValid(State(), record);
        r := Ok(|rows| > |jobs|);
        jobs := rows;
    }

    method InsertJobs(list: Option<seq<Job>>) returns (r: Result<int, DbError>)
      requires Valid()
      modifies this
      ensures Valid() && portals == old(portals)
      ensures (r, State()) == InsertJobsSpec(old(State()), if list.None? then None else Some(Records(list.value)))
    {
      if list.None? || list.value == [] {
        return Ok(0);
      }
      var batch := BindBatch(list.value);
      match ExecuteBatch(jobs, portals, batch)
      case Failure(e) =>
        // No commit: the transaction is rolled back when the connection closes.
        r := Failure(e);
      case Ok(run) =>
        BatchShape(State(), batch);
        jobs := run.rows;
        var inserted := CountInserted(run.results);
        r := Ok(inserted);
    }

    method UpdateRecentJobId(portalId: int, reqId: JString) returns (r: Result<(), DbError>)
      requires Valid()
      modifies this
      ensures Valid()
      ensures UpdateCursorSpec(old(State()), portalId, reqId).Failure? ==>
                r == Failure(UpdateCursorSpec(old(State()), portalId, reqId).error) && State() == old(State())
      ensures UpdateCursorSpec(old(State()), portalId, reqId).Ok? ==>
                r.Ok? && State() == UpdateCursorSpec(old(State()), portalId, reqId).value
    {
      if reqId.Some? && |reqId.value| > VarcharLimit {
        return Failure(CursorTooLong);
      }
      if portalId in portals {
        portals := portals[portalId := portals[portalId].(recentJobId := reqId)];
      }
      r := Ok(());
    }

    /** `SELECT ... FROM portals ORDER BY id`, one `Portal` per row of the result set. */
    method FetchAllPortals() returns (ps: seq<Portal>)
      ensures forall i, j :: 0 <= i < j < |ps| ==> ps[i].id < ps[j].id
      ensures forall id :: id in portals <==> exists k :: 0 <= k < |ps| && ps[k].id == id
      ensures |ps| == |portals.Keys|
      ensures forall k :: 0 <= k < |ps| ==> fresh(ps[k]) && ps[k].id in portals && PortalMatchesRow(ps[k], portals[ps[k].id])
    {
      var ids := OrderedIds(portals.Keys);
      ps := [];
      for i := 0 to |ids|
        invariant |ps| == i
        invariant forall k :: 0 <= k < i ==> ps[k].id == ids[k]
        invariant forall k :: 0 <= k < i ==> fresh(ps[k]) && PortalMatchesRow(ps[k], portals[ids[k]])
      {
        assert ids[i] in ids;
        var row := portals[ids[i]];
        var p := new Portal(ids[i], row.workday != Some(false), Some(row.name), Some(row.link), row.recentJobId);
        ps := ps + [p];
      }
      forall id | id in portals ensures exists k :: 0 <= k < |ps| && ps[k].id == id {
        var k :| 0 <= k < |ids| && ids[k] == id;
        assert ps[k].id == id;
      }
    }
  }

  /** One parameter set per job, in list order. */
  method BindBatch(js: seq<Job>) returns (batch: seq<JobRecord>)
    ensures batch == Records(js)
  {
    batch := [];
    for i := 0 to |js|
      invariant batch == Records(js[..i])
    {
      assert js[..i + 1] == js[..i] + [js[i]];
      RecordsAppend(js[..i], [js[i]]);
      batch := batch + [js[i].Record()];
    }
    assert js[..|js|] == js;
  }

  /** The rows `executeBatch` reports as inserted. */
  method CountInserted(results: seq<int>) returns (inserted: int)
    ensures inserted == CountPositive(results)
  {
    inserted := 0;
    for i := 0 to |results|
      invariant inserted == CountPositive(results[..i])
    {
      assert results[..i + 1][..i] == results[..i];
      if results[i] > 0 {
        inserted := inserted + 1;
      }
    }
    assert results[..|results|] == results;
  }

  /** The loop state of `OrderedIds`: `ids` lists `taken` in increasing order, and every
      id still to be taken is larger than all of them. */
  ghost predicate Sorting(keys: set<int>, remaining: set<int>, taken: set<int>, ids: seq<int>) {
    && remaining + taken == keys && remaining !! taken
    && |ids| == |taken|
    && (forall i, j :: 0 <= i < j < |ids| ==> ids[i] < ids[j])
    && (forall id :: id in taken <==> id in ids)
    && (forall k, id :: 0 <= k < |ids| && id in remaining ==> ids[k] < id)
  }

  /** Taking the least remaining id keeps the loop state. */
  lemma TakeLeast(keys: set<int>, remaining: set<int>, taken: set<int>, ids: seq<int>, id: int)
    requires Sorting(keys, remaining, taken, ids)
    requires id in remaining && forall o :: o in remaining ==> id <= o
    ensures Sorting(keys, remaining - {id}, taken + {id}, ids + [id])
  {
    TakeLeastOrder(remaining, ids, id);
    TakeLeastMembers(taken, ids, id);
    assert id !in taken;
    assert |taken + {id}| == |taken| + 1;
  }

  lemma TakeLeastOrder(remaining: set<int>, ids: seq<int>, id: int)
    requires forall i, j :: 0 <= i < j < |ids| ==> ids[i] < ids[j]
    requires forall k, o :: 0 <= k < |ids| && o in remaining ==> ids[k] < o
    requires id in remaining && forall o :: o in remaining ==> id <= o
    ensures forall i, j :: 0 <= i < j < |ids + [id]| ==> (ids + [id])[i] < (ids + [id])[j]
    ensures forall k, o :: 0 <= k < |ids + [id]| && o in remaining - {id} ==> (ids + [id])[k] < o
  {
    var ids' := ids + [id];
    forall k, o | 0 <= k < |ids'| && o in remaining - {id} ensures ids'[k] < o {
      if k < |ids| { assert ids'[k] == ids[k]; }
    }
    forall i, j | 0 <= i < j < |ids'| ensures ids'[i] < ids'[j] {
      if j < |ids| { assert ids'[i] == ids[i] && ids'[j] == ids[j]; }
      else { assert ids'[i] == ids[i]; }
    }
  }

  lemma TakeLeastMembers(taken: set<int>, ids: seq<int>, id: int)
    requires forall x :: x in taken <==> x in ids
    ensures forall x :: x in taken + {id} <==> x in ids + [id]
  {
    forall x ensures x in taken + {id} <==> x in ids + [id] {
      assert x in ids + [id] <==> x in ids || x == id;
    }
  }

  /** The ids of a set in increasing order: the `ORDER BY id` of the portal query. */
  method OrderedIds(keys: set<int>) returns (ids: seq<int>)
    ensures forall i, j :: 0 <= i < j < |ids| ==> ids[i] < ids[j]
    ensures forall id :: id in keys <==> id in ids
    ensures |ids| == |keys|
  {
    ids := [];
    var remaining := keys;
    ghost var taken: set<int> := {};
    while remaining != {}
      invariant Sorting(keys, remaining, taken, ids)
      decreases |remaining|
    {
      MinimumExists(remaining);
      var id :| id in remaining && forall o :: o in remaining ==> id <= o;
      TakeLeast(keys, remaining, taken, ids, id);
      ids := ids + [id];
      remaining := remaining - {id};
      taken := taken + {id};
    }
  }

  /** The fields of a fetched `Portal`: a null `workday` column reads as true. */
  predicate PortalMatchesRow(p: Portal, row: PortalRow)
    reads p
  {
    && p.workday == (row.workday != Some(false))
    && p.portal == Some(row.name)
    && p.link == Some(row.link)
    && p.recentJobId == row.recentJobId
  }

  lemma HasElement(s: set<int>)
    requires s != {}
    ensures exists x :: x in s
  {
    if forall x :: x !in s { assert false; }
  }

  lemma MinimumExists(s: set<int>)
    requires s != {}
    ensures exists m :: m in s && forall o :: o in s ==> m <= o
    decreases |s|
  {
    HasElement(s);
    var x :| x in s;
    var s' := s - {x};
    assert forall o :: o in s ==> o == x || o in s';
    if s' == {} {
      assert forall o :: o in s ==> x <= o;
    } else {
      MinimumExists(s');
      var m :| m in s' && forall o :: o in s' ==> m <= o;
      if x < m {
        assert forall o :: o in s ==> x <= o;
      } else {
        assert forall o :: o in s ==> m <= o;
      }
    }
  }
}
