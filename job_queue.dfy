/** The scheduler's job queue, stored in the job_queue table: Put inserts an
    unlocked row, Get locks and returns the oldest unlocked row, Delete and
    CancelByExecID remove rows. The table is held in memory as a sequence of
    rows; the SERIAL id column is a counter. */
module JobQueue {
  import opened Common

  /** A row's data: id, exec_id, payload and created_at. */
  datatype Job = Job(id: int, execId: string, payload: string, createdAt: int)

  /** A row of job_queue: its data and the is_locked column. */
  datatype Row = Row(job: Job, locked: bool)

  datatype GetResult = Got(job: Job) | ErrNoJobs | DbError(message: string)

  /** Row i can be taken: it is not locked, and no other transaction holds
      its row lock (the subquery's FOR UPDATE SKIP LOCKED passes over the
      rows in `held`, the ids other transactions have locked). */
  predicate Takeable(rows: seq<Row>, held: set<int>, i: int)
    requires 0 <= i < |rows|
  {
    !rows[i].locked && rows[i].job.id !in held
  }

  /** Row i is takeable and no takeable row was created before it. */
  ghost predicate IsOldestTakeable(rows: seq<Row>, held: set<int>, i: int)
  {
    && 0 <= i < |rows|
    && Takeable(rows, held, i)
    && forall j :: 0 <= j < |rows| && Takeable(rows, held, j) ==> rows[i].job.createdAt <= rows[j].job.createdAt
  }

  ghost predicate NoneTakeable(rows: seq<Row>, held: set<int>)
  {
    forall i :: 0 <= i < |rows| ==> !Takeable(rows, held, i)
  }

  ghost function Ids(rows: seq<Row>): set<int>
  {
    set i | 0 <= i < |rows| :: rows[i].job.id
  }

  ghost function LockedIds(rows: seq<Row>): set<int>
  {
    set i | 0 <= i < |rows| && rows[i].locked :: rows[i].job.id
  }

  /** The ids of the rows a DELETE's WHERE clause matches. */
  ghost function DroppedIds(rows: seq<Row>, drop: Row -> bool): set<int>
  {
    set i | 0 <= i < |rows| && drop(rows[i]) :: rows[i].job.id
  }

  ghost predicate DistinctIds(rows: seq<Row>)
  {
    forall i, j :: 0 <= i < j < |rows| ==> rows[i].job.id != rows[j].job.id
  }

  /** The WHERE clause of Delete: the row has this id. */
  function HasId(id: int): Row -> bool
  {
    (row: Row) => row.job.id == id
  }

  /** The WHERE clause of CancelByExecID: the row belongs to this execution. */
  function HasExecId(execId: string): Row -> bool
  {
    (row: Row) => row.job.execId == execId
  }

  /** DELETE FROM job_queue WHERE ...: the rows the clause does not match,
      in their order. */
  function Without(rows: seq<Row>, drop: Row -> bool): (r: seq<Row>)
    ensures forall x :: x in r <==> x in rows && !drop(x)
    ensures |r| <= |rows|
  {
    if rows == [] then []
    else if drop(rows[0]) then Without(rows[1..], drop)
    else [rows[0]] + Without(rows[1..], drop)
  }

  /** The oldest takeable row is not among the locked ids, since ids are
      unique: a locked job is never handed out again. */
  lemma OldestIsNotLocked(rows: seq<Row>, held: set<int>, i: int)
    requires DistinctIds(rows)
    requires IsOldestTakeable(rows, held, i)
    ensures rows[i].job.id !in LockedIds(rows)
  {
    forall j | 0 <= j < |rows| && rows[j].locked
      ensures rows[j].job.id != rows[i].job.id
    {
      if i < j {
        assert rows[i].job.id != rows[j].job.id;
      } else {
        assert j < i;
      }
    }
  }

  /** A delete keeps ids distinct, and exactly the matched ids leave the ids
      and the locked ids. */
  lemma {:induction false} WithoutKeepsDistinct(rows: seq<Row>, drop: Row -> bool)
    requires DistinctIds(rows)
    ensures DistinctIds(Without(rows, drop))
    ensures Ids(Without(rows, drop)) == Ids(rows) - DroppedIds(rows, drop)
    ensures LockedIds(Without(rows, drop)) == LockedIds(rows) - DroppedIds(rows, drop)
  {
    if rows != [] {
      var tail := rows[1..];
      DistinctTail(rows);
      WithoutKeepsDistinct(tail, drop);
      SubIds(rows, drop);
      HeadIdFresh(rows);
      var rest := Without(tail, drop);
      if !drop(rows[0]) {
        var r := [rows[0]] + rest;
        assert r == Without(rows, drop);
        assert r[1..] == rest;
        SubIds(r, drop);
        ConsDistinct(rows[0], rest);
      }
    }
  }

  /** Deleting by id removes exactly that id from the ids and the locked ids. */
  lemma DroppedById(rows: seq<Row>, id: int)
    ensures Ids(rows) - DroppedIds(rows, HasId(id)) == Ids(rows) - {id}
    ensures LockedIds(rows) - DroppedIds(rows, HasId(id)) == LockedIds(rows) - {id}
  {
    forall x | x in DroppedIds(rows, HasId(id)) ensures x == id {
      var i :| 0 <= i < |rows| && HasId(id)(rows[i]) && rows[i].job.id == x;
    }
    forall x | x == id && x in Ids(rows) ensures x in DroppedIds(rows, HasId(id)) {
      var i :| 0 <= i < |rows| && rows[i].job.id == x;
      assert HasId(id)(rows[i]);
    }
  }

  lemma DistinctTail(rows: seq<Row>)
    requires rows != [] && DistinctIds(rows)
    ensures DistinctIds(rows[1..])
  {
    var tail := rows[1..];
    forall i, j | 0 <= i < j < |tail| ensures tail[i].job.id != tail[j].job.id {
      assert tail[i] == rows[i + 1] && tail[j] == rows[j + 1];
    }
  }

  /** The first row's id occurs nowhere else. */
  lemma HeadIdFresh(rows: seq<Row>)
    requires rows != [] && DistinctIds(rows)
    ensures rows[0].job.id !in Ids(rows[1..])
  {
    var tail := rows[1..];
    forall i | 0 <= i < |tail| ensures tail[i].job.id != rows[0].job.id {
      assert tail[i] == rows[i + 1];
    }
  }

  lemma ConsDistinct(h: Row, rest: seq<Row>)
    requires DistinctIds(rest) && h.job.id !in Ids(rest)
    ensures DistinctIds([h] + rest)
  {
    var r := [h] + rest;
    forall i, j | 0 <= i < j < |r| ensures r[i].job.id != r[j].job.id {
      assert r[j] == rest[j - 1];
      if i > 0 {
        assert r[i] == rest[i - 1];
      } else {
        assert rest[j - 1].job.id in Ids(rest);
      }
    }
  }

  lemma SubIds(rows: seq<Row>, drop: Row -> bool)
    requires rows != []
    ensures Ids(rows) == {rows[0].job.id} + Ids(rows[1..])
    ensures LockedIds(rows) == (if rows[0].locked then {rows[0].job.id} else {}) + LockedIds(rows[1..])
    ensures DroppedIds(rows, drop) == (if drop(rows[0]) then {rows[0].job.id} else {}) + DroppedIds(rows[1..], drop)
    ensures DroppedIds(rows[1..], drop) <= Ids(rows[1..])
  {
    var tail := rows[1..];
    assert forall i :: 0 <= i < |tail| ==> tail[i] == rows[i + 1];
    forall x | x in Ids(rows) ensures x in {rows[0].job.id} + Ids(tail) {
      var i :| 0 <= i < |rows| && rows[i].job.id == x;
      if i > 0 { assert tail[i - 1].job.id == x; }
    }
    forall x | x in LockedIds(rows)
      ensures x in (if rows[0].locked then {rows[0].job.id} else {}) + LockedIds(tail)
    {
      var i :| 0 <= i < |rows| && rows[i].locked && rows[i].job.id == x;
      if i > 0 { assert tail[i - 1].locked && tail[i - 1].job.id == x; }
    }
    forall x | x in DroppedIds(rows, drop)
      ensures x in (if drop(rows[0]) then {rows[0].job.id} else {}) + DroppedIds(tail, drop)
    {
      var i :| 0 <= i < |rows| && drop(rows[i]) && rows[i].job.id == x;
      if i > 0 { assert drop(tail[i - 1]) && tail[i - 1].job.id == x; }
    }
  }

  /** Where Get's transaction fails, if it does: at BEGIN, in the UPDATE
      with an error other than "no rows", or at COMMIT. */
  datatype GetFault = NoFault | BeginFails(message: string) | QueryFails(message: string) | CommitFails(message: string)

  class PostgresStorage {
    /** The rows of job_queue, in insertion order. */
    var rows: seq<Row>
    /** The next value of the id SERIAL. */
    var nextId: int

    ghost predicate Valid()
      reads this
    {
      && (forall i :: 0 <= i < |rows| ==> rows[i].job.id < nextId)
      && DistinctIds(rows)
    }

    /** NewPostgresStorage wraps a database whose job_queue table may
        already hold rows; its SERIAL continues from `serial`. The primary
        key keeps ids distinct and the SERIAL is past every id it issued. */
    constructor (existing: seq<Row>, serial: int)
      requires forall i :: 0 <= i < |existing| ==> existing[i].job.id < serial
      requires DistinctIds(existing)
      ensures Valid() && rows == existing && nextId == serial
    {
      rows := existing;
      nextId := serial;
    }

    /** INSERT INTO job_queue (exec_id, payload, created_at): a new unlocked
        row with a fresh id, or the database's error and no row. The id the
        insert returns is read into the caller's copy of the job and is lost,
        so Put returns only the error. */
    method Put(job: Job, fault: Option<string>) returns (err: Option<string>)
      requires Valid()
      modifies this
      ensures Valid() && err == fault
      ensures fault.Some? ==> rows == old(rows) && nextId == old(nextId)
      ensures fault.None? ==>
        && old(nextId) !in Ids(old(rows))
        && rows == old(rows) + [Row(Job(old(nextId), job.execId, job.payload, job.createdAt), false)]
        && LockedIds(rows) == LockedIds(old(rows))
    {
      err := fault;
      if fault.Some? {
        return;
      }
      ghost var before := rows;
      rows := rows + [Row(Job(nextId, job.execId, job.payload, job.createdAt), false)];
      nextId := nextId + 1;
      assert forall i :: 0 <= i < |before| ==> rows[i] == before[i];
      assert rows[|before|].locked == false;
      forall x | x in LockedIds(rows) ensures x in LockedIds(before) {
        var i :| 0 <= i < |rows| && rows[i].locked && rows[i].job.id == x;
        assert i < |before|;
      }
    }

    /** The subquery SELECT id ... WHERE is_locked = FALSE ORDER BY
        created_at ASC LIMIT 1 FOR UPDATE SKIP LOCKED: the position of an
        oldest row that is neither locked nor held by another transaction.
        Among rows created at the same instant this scan takes the first;
        the database may take any of them. */
    method FindOldest(held: set<int>) returns (idx: Option<nat>)
      ensures idx.None? <==> NoneTakeable(rows, held)
      ensures idx.Some? ==> IsOldestTakeable(rows, held, idx.value)
    {
      idx := None;
      var i := 0;
      while i < |rows|
        invariant 0 <= i <= |rows|
        invariant idx.None? ==> forall j :: 0 <= j < i ==> !Takeable(rows, held, j)
        invariant idx.Some? ==> idx.value < i && Takeable(rows, held, idx.value)
        invariant idx.Some? ==> forall j :: 0 <= j < i && Takeable(rows, held, j) ==>
          rows[idx.value].job.createdAt <= rows[j].job.createdAt
      {
        if Takeable(rows, held, i) && (idx.None? || rows[i].job.createdAt < rows[idx.value].job.createdAt) {
          idx := Some(i);
        }
        i := i + 1;
      }
    }

    /** Get: in one transaction, lock the oldest takeable row and return its
        data, or ErrNoJobs when there is none. A failure at BEGIN, in the
        UPDATE or at COMMIT returns the error and the transaction rolls
        back, leaving the table as it was. */
    method Get(held: set<int>, fault: GetFault) returns (r: GetResult)
      requires Valid()
      modifies this
      ensures Valid() && nextId == old(nextId)
      ensures !r.Got? ==> rows == old(rows)
      ensures fault.BeginFails? || fault.QueryFails? ==> r == DbError(fault.message)
      ensures fault.NoFault? || fault.CommitFails? ==> (r.ErrNoJobs? <==> NoneTakeable(old(rows), held))
      ensures fault.CommitFails? && !NoneTakeable(old(rows), held) ==> r == DbError(fault.message)
      ensures r.Got? ==> fault.NoFault? && exists i ::
        && IsOldestTakeable(old(rows), held, i)
        && r.job == old(rows)[i].job
        && rows == old(rows)[i := Row(r.job, true)]
      ensures r.Got? ==> r.job.id !in LockedIds(old(rows)) && LockedIds(rows) == LockedIds(old(rows)) + {r.job.id}
    {
      if fault.BeginFails? {
        return DbError(fault.message);
      }
      if fault.QueryFails? {
        return DbError(fault.message);
      }
      var idx := FindOldest(held);
      if idx.None? {
        return ErrNoJobs;
      }
      if fault.CommitFails? {
        return DbError(fault.message);
      }
      var i := idx.value;
      ghost var before := rows;
      OldestIsNotLocked(rows, held, i);
      r := Got(rows[i].job);
      rows := rows[i := Row(rows[i].job, true)];
      assert forall j :: 0 <= j < |rows| && j != i ==> rows[j] == before[j];
      forall x | x in LockedIds(rows) ensures x in LockedIds(before) + {r.job.id} {
        var j :| 0 <= j < |rows| && rows[j].locked && rows[j].job.id == x;
        if j != i { assert before[j].locked; }
      }
      forall x | x in LockedIds(before) + {r.job.id} ensures x in LockedIds(rows) {
        if x != r.job.id {
          var j :| 0 <= j < |before| && before[j].locked && before[j].job.id == x;
          assert rows[j] == before[j];
        } else {
          assert rows[i].locked && rows[i].job.id == x;
        }
      }
    }

    /** Delete: remove the row with this id; every other row stays. On a
        database error nothing is removed. */
    method Delete(jobId: int, fault: Option<string>) returns (err: Option<string>)
      requires Valid()
      modifies this
      ensures Valid() && nextId == old(nextId) && err == fault
      ensures fault.Some? ==> rows == old(rows)
      ensures fault.None? ==> rows == Without(old(rows), HasId(jobId))
      ensures fault.None? ==> Ids(rows) == Ids(old(rows)) - {jobId}
      ensures fault.None? ==> LockedIds(rows) == LockedIds(old(rows)) - {jobId}
    {
      err := fault;
      if fault.Some? {
        return;
      }
      WithoutKeepsDistinct(rows, HasId(jobId));
      DroppedById(rows, jobId);
      var kept := Without(rows, HasId(jobId));
      forall i | 0 <= i < |kept| ensures kept[i].job.id < nextId {
        assert kept[i].job.id in Ids(kept);
      }
      rows := kept;
    }

    /** CancelByExecID: remove every row of this execution; the rows of
        other executions stay. On a database error nothing is removed. */
    method CancelByExecID(execId: string, fault: Option<string>) returns (err: Option<string>)
      requires Valid()
      modifies this
      ensures Valid() && nextId == old(nextId) && err == fault
      ensures fault.Some? ==> rows == old(rows)
      ensures fault.None? ==> rows == Without(old(rows), HasExecId(execId))
      ensures fault.None? ==> Ids(rows) == Ids(old(rows)) - DroppedIds(old(rows), HasExecId(execId))
    {
      err := fault;
      if fault.Some? {
        return;
      }
      WithoutKeepsDistinct(rows, HasExecId(execId));
      var kept := Without(rows, HasExecId(execId));
      forall i | 0 <= i < |kept| ensures kept[i].job.id < nextId {
        assert kept[i].job.id in Ids(kept);
      }
      rows := kept;
    }

    /** Close leaves the table and its connection alone. */
    method Close()
      ensures unchanged(this)
    {
    }
  }
}
