/**
 The rows of the workflow action tasks and the conditional statements many workers run on them.
 The e-mail, webhook and Slack tables carry the same statements; one table stands for all three.
 */
module TaskRows {
  import opened Wrappers

  datatype TaskStatus = Pending | Completed | Error

  datatype Row = Row(
    status: TaskStatus,
    retryCount: nat,
    errorReason: Option<string>,
    lockedBy: Option<string>,
    lockedAt: Option<int>,
    occ: nat)

  // What an update writes; the reason is written only along with an ERROR status.
  datatype Payload = Payload(status: TaskStatus, retryCount: nat, errorReason: string)

  // The statements, each atomic. Update and Release name the occ and the owner their WHERE clause asks for.
  datatype Op =
    | Create
    | Lock(owner: string, now: int)
    | Update(owner: string, occ: nat, payload: Payload)
    | Release(owner: string, occ: nat)

  const NEW_ROW := Row(Pending, 0, None, None, None, 0)

  // The statement finds its row, so it will write.
  predicate Matches(row: Option<Row>, op: Op) {
    match op
    case Create => row.None?
    case Lock(_, _) => row.Some? && row.value.lockedBy.None?
    case Update(owner, occ, _) => row.Some? && row.value.occ == occ && row.value.lockedBy == Some(owner)
    case Release(owner, occ) => row.Some? && row.value.occ == occ && row.value.lockedBy == Some(owner)
  }

  function Written(row: Option<Row>, op: Op): Row
    requires Matches(row, op)
  {
    match op
    case Create => NEW_ROW
    case Lock(owner, now) => row.value.(lockedBy := Some(owner), lockedAt := Some(now), occ := row.value.occ + 1)
    case Update(_, _, p) =>
      row.value.(
        status := p.status,
        retryCount := p.retryCount,
        errorReason := if p.status == Error then Some(p.errorReason) else row.value.errorReason,
        occ := row.value.occ + 1)
    case Release(_, _) => row.value.(lockedBy := None, lockedAt := None, occ := row.value.occ + 1)
  }

  function Apply(row: Option<Row>, op: Op): Option<Row> {
    if Matches(row, op) then Some(Written(row, op)) else row
  }

  // How a failed update or release is explained from a later read of the row.
  datatype Explanation = NotFound | LockedByOther | ConcurrentUpdate | Unknown

  function Categorize(row: Option<Row>, owner: string, occ: nat): Explanation {
    if row.None? then NotFound
    else if row.value.lockedBy != Some(owner) then LockedByOther
    else if row.value.occ != occ then ConcurrentUpdate
    else Unknown
  }

  datatype TaskError =
    | TaskAlreadyExists
    | TaskNotFound
    | TaskLockedByOther
    | TaskConcurrentUpdate
    | UnknownError
    | LockInconsistent
    | InvalidLock
    | InvalidRetryCount
    | InvalidErrorReason
    | ResponseMissing

  function UpdateError(e: Explanation): TaskError {
    match e
    case NotFound => TaskConcurrentUpdate
    case LockedByOther => TaskLockedByOther
    case ConcurrentUpdate => TaskConcurrentUpdate
    case Unknown => UnknownError
  }

  // ---- The domain side: reading a row back and the two transitions ----

  // Only these rows come back as a task. Webhook and Slack tasks need a response once they are completed, and rows
  // are read without one; e-mail tasks need none.
  function ReadTask(row: Row, isLock: (string, int) -> bool, needsResponse: bool): Result<Row, TaskError> {
    if row.lockedBy.Some? != row.lockedAt.Some? then Err(LockInconsistent)
    else if row.status == Pending && row.retryCount != 0 then Err(InvalidRetryCount)
    else if row.status == Error && row.errorReason.None? then Err(InvalidErrorReason)
    else if row.lockedBy.Some? && !isLock(row.lockedBy.value, row.lockedAt.value) then Err(InvalidLock)
    else if row.status == Completed && needsResponse then Err(ResponseMissing)
    else Ok(row)
  }

  function ToFailed(task: Row, reason: string): Payload {
    Payload(Error, task.retryCount + 1, reason)
  }

  function ToCompleted(task: Row): Payload {
    Payload(Completed, task.retryCount, "")
  }

  // ---- The repository ----

  function Get(rows: map<string, Row>, id: string): Option<Row> {
    if id in rows then Some(rows[id]) else None
  }

  function ApplyTo(rows: map<string, Row>, id: string, op: Op): map<string, Row> {
    if Matches(Get(rows, id), op) then rows[id := Written(Get(rows, id), op)] else rows
  }

  // A statement on one task is a step of that task's row and of no other.
  lemma RowsAreIndependent(rows: map<string, Row>, id: string, op: Op, other: string)
    ensures Get(ApplyTo(rows, id, op), other) ==
      if other == id then Apply(Get(rows, id), op) else Get(rows, other)
  {
  }

  // A statement and the task it is about.
  datatype Statement = Statement(id: string, op: Op)

  function ApplyAll(rows: map<string, Row>, statements: seq<Statement>): map<string, Row> {
    if statements == [] then rows
    else
      var last := statements[|statements| - 1];
      ApplyTo(ApplyAll(rows, statements[..|statements| - 1]), last.id, last.op)
  }

  // A conditional statement that matches no row is followed by a separate read that finds out why. `between` is
  // whatever other workers execute in the meantime.
  function AfterMiss(rows: map<string, Row>, id: string, op: Op, between: seq<Statement>): map<string, Row> {
    if Matches(Get(rows, id), op) then ApplyTo(rows, id, op) else ApplyAll(rows, between)
  }

  // The error a failed update or release ends in says what the later read found: a holder other than the caller, or
  // no row or the caller's own lock at another occ; only a row as the statement wanted it leaves it unexplained.
  predicate Explains(error: TaskError, rows: map<string, Row>, id: string, owner: string, occ: nat) {
    && (error == TaskLockedByOther <==> id in rows && rows[id].lockedBy != Some(owner))
    && (error == TaskConcurrentUpdate <==> id !in rows || (rows[id].lockedBy == Some(owner) && rows[id].occ != occ))
    && (error == UnknownError <==> id in rows && rows[id].lockedBy == Some(owner) && rows[id].occ == occ)
  }

  // A failure that was written reads back as a failed task with its reason and one more attempt counted; a completion
  // keeps the count, and reads back where no response is asked for.
  lemma TransitionReadsBack(
    row: Row, owner: string, reason: string, isLock: (string, int) -> bool, needsResponse: bool)
    requires row.lockedBy == Some(owner) && row.lockedAt.Some? && isLock(owner, row.lockedAt.value)
    ensures var failed := Apply(Some(row), Update(owner, row.occ, ToFailed(row, reason)));
      failed.Some? && ReadTask(failed.value, isLock, needsResponse) ==
        Ok(Row(Error, row.retryCount + 1, Some(reason), Some(owner), row.lockedAt, row.occ + 1))
    ensures var done := Apply(Some(row), Update(owner, row.occ, ToCompleted(row)));
      done.Some? && ReadTask(done.value, isLock, needsResponse) ==
        if needsResponse then Err(ResponseMissing)
        else Ok(Row(Completed, row.retryCount, row.errorReason, Some(owner), row.lockedAt, row.occ + 1))
  {
  }

  // Which stored rows come back as a task.
  lemma ReadTaskExactly(row: Row, isLock: (string, int) -> bool, needsResponse: bool)
    ensures ReadTask(row, isLock, needsResponse) == Ok(row) <==>
      && (row.lockedBy.Some? <==> row.lockedAt.Some?)
      && (row.lockedBy.Some? ==> isLock(row.lockedBy.value, row.lockedAt.value))
      && (row.status == Pending ==> row.retryCount == 0)
      && (row.status == Error ==> row.errorReason.Some?)
      && (row.status == Completed ==> !needsResponse)
    ensures ReadTask(row, isLock, needsResponse) == Err(LockInconsistent)
      <==> (row.lockedBy.Some? <==> row.lockedAt.None?)
  {
  }

  class TaskTable {
    var rows: map<string, Row>

    constructor ()
      ensures rows == map[]
    {
      rows := map[];
    }

    method CreateTask(id: string) returns (r: Result<(), TaskError>)
      modifies this
      ensures rows == ApplyTo(old(rows), id, Create)
      ensures r == if id in old(rows) then Err(TaskAlreadyExists) else Ok(())
      ensures r.Ok? ==> rows == old(rows)[id := Row(Pending, 0, None, None, None, 0)]
      ensures r.Err? ==> rows == old(rows)
    {
      if id in rows {
        return Err(TaskAlreadyExists);
      }
      rows := rows[id := NEW_ROW];
      r := Ok(());
    }

    // The bare conditional statements answer with the new occ, or nothing when no row matched.
    method LockStatement(id: string, owner: string, now: int) returns (newOcc: Option<nat>)
      modifies this
      ensures rows == ApplyTo(old(rows), id, Lock(owner, now))
      ensures newOcc.Some? <==> id in old(rows) && old(rows)[id].lockedBy == None
      ensures newOcc.Some? ==>
        var was := old(rows)[id];
        && newOcc.value == was.occ + 1
        && rows == old(rows)[id := was.(lockedBy := Some(owner), lockedAt := Some(now), occ := newOcc.value)]
      ensures newOcc.None? ==> rows == old(rows)
    {
      newOcc := None;
      if id in rows && rows[id].lockedBy == None {
        var row := rows[id];
        rows := rows[id := row.(lockedBy := Some(owner), lockedAt := Some(now), occ := row.occ + 1)];
        newOcc := Some(row.occ + 1);
      }
    }

    method OthersExecute(statements: seq<Statement>)
      modifies this
      ensures rows == ApplyAll(old(rows), statements)
    {
      for i := 0 to |statements|
        invariant rows == ApplyAll(old(rows), statements[..i])
      {
        assert statements[..i + 1][..i] == statements[..i];
        rows := ApplyTo(rows, statements[i].id, statements[i].op);
      }
      assert statements[..|statements|] == statements;
    }

    method LockTask(id: string, owner: string, now: int, between: seq<Statement>) returns (r: Result<nat, TaskError>)
      modifies this
      ensures rows == AfterMiss(old(rows), id, Lock(owner, now), between)
      ensures match r
        case Ok(occ) => id in rows && rows[id].lockedBy == Some(owner) && rows[id].occ == occ
        case Err(TaskNotFound) => id !in rows
        case Err(e) => e == TaskLockedByOther && id in rows && rows[id].lockedBy != Some(owner)
      ensures id in old(rows) && old(rows)[id].lockedBy == None ==> r == Ok(old(rows)[id].occ + 1)
    {
      var newOcc := LockStatement(id, owner, now);
      if newOcc.Some? {
        return Ok(newOcc.value);
      }
      OthersExecute(between);
      // The second read decides; the lock may already be ours.
      if id !in rows {
        return Err(TaskNotFound);
      }
      if rows[id].lockedBy == Some(owner) {
        return Ok(rows[id].occ);
      }
      r := Err(TaskLockedByOther);
    }

    method UpdateTask(id: string, task: Payload, owner: string, occ: nat, between: seq<Statement>)
      returns (r: Result<nat, TaskError>)
      modifies this
      ensures rows == AfterMiss(old(rows), id, Update(owner, occ, task), between)
      ensures r.Ok? <==> id in old(rows) && old(rows)[id].occ == occ && old(rows)[id].lockedBy == Some(owner)
      ensures r.Ok? ==>
        var was := old(rows)[id];
        var reason := if task.status == Error then Some(task.errorReason) else was.errorReason;
        && r.value == occ + 1
        && rows == old(rows)[id := Row(task.status, task.retryCount, reason, was.lockedBy, was.lockedAt, r.value)]
      ensures r.Err? ==> Explains(r.error, rows, id, owner, occ)
    {
      if id in rows && rows[id].occ == occ && rows[id].lockedBy == Some(owner) {
        var row := rows[id];
        row := row.(status := task.status, retryCount := task.retryCount, occ := row.occ + 1);
        if task.status == Error {
          row := row.(errorReason := Some(task.errorReason));
        }
        rows := rows[id := row];
        return Ok(row.occ);
      }
      OthersExecute(between);
      r := Err(UpdateError(Categorize(Get(rows, id), owner, occ)));
    }

    method ReleaseLock(id: string, owner: string, occ: nat, between: seq<Statement>) returns (r: Result<(), TaskError>)
      modifies this
      ensures rows == AfterMiss(old(rows), id, Release(owner, occ), between)
      ensures r.Ok? <==> id in old(rows) && old(rows)[id].occ == occ && old(rows)[id].lockedBy == Some(owner)
      ensures r.Ok? ==> rows == old(rows)[id := old(rows)[id].(lockedBy := None, lockedAt := None, occ := occ + 1)]
      ensures r.Err? ==> Explains(r.error, rows, id, owner, occ)
    {
      if id in rows && rows[id].occ == occ && rows[id].lockedBy == Some(owner) {
        var row := rows[id];
        rows := rows[id := row.(lockedBy := None, lockedAt := None, occ := row.occ + 1)];
        return Ok(());
      }
      OthersExecute(between);
      r := Err(UpdateError(Categorize(Get(rows, id), owner, occ)));
    }
  }
}
