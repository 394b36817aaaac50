/** What holds of a task row over every interleaving of the statements of all workers. */
module TaskRuns {
  import opened Wrappers
  import opened TaskRows

  function Run(row: Option<Row>, ops: seq<Op>): Option<Row> {
    if ops == [] then row else Apply(Run(row, ops[..|ops| - 1]), ops[|ops| - 1])
  }

  // The row right before statement i, and whether that statement writes.
  function At(row: Option<Row>, ops: seq<Op>, i: nat): Option<Row>
    requires i <= |ops|
  {
    Run(row, ops[..i])
  }

  predicate Commits(row: Option<Row>, ops: seq<Op>, i: nat)
    requires i < |ops|
  {
    Matches(At(row, ops, i), ops[i])
  }

  lemma AtNext(row: Option<Row>, ops: seq<Op>, i: nat)
    requires i < |ops|
    ensures At(row, ops, i + 1) == Apply(At(row, ops, i), ops[i])
  {
    assert ops[..i + 1][..i] == ops[..i];
  }

  lemma {:induction false} RunAppend(row: Option<Row>, a: seq<Op>, b: seq<Op>)
    ensures Run(row, a + b) == Run(Run(row, a), b)
  {
    if b == [] {
      assert a + b == a;
    } else {
      assert (a + b)[..|a + b| - 1] == a + b[..|b| - 1];
      RunAppend(row, a, b[..|b| - 1]);
    }
  }

  // ---- The lock ----

  ghost predicate LockedBy(row: Option<Row>, owner: string) {
    row.Some? && row.value.lockedBy == Some(owner)
  }

  ghost predicate NeverReleases(row: Option<Row>, ops: seq<Op>, owner: string) {
    forall i | 0 <= i < |ops| && Commits(row, ops, i) :: !(ops[i].Release? && ops[i].owner == owner)
  }

  lemma {:induction false} LockHeld(row: Option<Row>, ops: seq<Op>, owner: string, n: nat)
    requires LockedBy(row, owner) && NeverReleases(row, ops, owner) && n <= |ops|
    ensures LockedBy(At(row, ops, n), owner)
  {
    if n > 0 {
      LockHeld(row, ops, owner, n - 1);
      AtNext(row, ops, n - 1);
    } else {
      assert ops[..0] == [];
    }
  }

  // From a lock to its release, the only writes that go through are updates by the lock's owner.
  lemma LockExclusion(row: Option<Row>, ops: seq<Op>, owner: string, i: nat)
    requires LockedBy(row, owner) && NeverReleases(row, ops, owner)
    requires i < |ops| && Commits(row, ops, i)
    ensures ops[i].Update? && ops[i].owner == owner
  {
    LockHeld(row, ops, owner, i);
  }

  // ---- The version number ----

  // How many of the statements from i up to j write.
  function Writes(row: Option<Row>, ops: seq<Op>, i: nat, j: nat): nat
    requires i <= j <= |ops|
  {
    if i == j then 0 else Writes(row, ops, i, j - 1) + if Commits(row, ops, j - 1) then 1 else 0
  }

  // The occ of a row counts the writes that went through.
  lemma {:induction false} OccCountsWrites(row: Option<Row>, ops: seq<Op>, i: nat, j: nat)
    requires i <= j <= |ops| && At(row, ops, i).Some?
    ensures At(row, ops, j).Some? && At(row, ops, j).value.occ == At(row, ops, i).value.occ + Writes(row, ops, i, j)
  {
    if i < j {
      OccCountsWrites(row, ops, i, j - 1);
      AtNext(row, ops, j - 1);
    }
  }

  predicate Conditional(op: Op) {
    op.Update? || op.Release?
  }

  // Whoever shares an owner or a lock: for each value of occ, at most one conditional write goes through.
  lemma OneWritePerOcc(row: Option<Row>, ops: seq<Op>, i: nat, j: nat)
    requires i < j < |ops| && Commits(row, ops, i) && Commits(row, ops, j)
    requires Conditional(ops[i]) && Conditional(ops[j])
    ensures ops[i].occ < ops[j].occ
  {
    AtNext(row, ops, i);
    OccCountsWrites(row, ops, i + 1, j);
  }

  // The row stays as it is while its occ does.
  lemma {:induction false} SameOccSameRow(row: Option<Row>, ops: seq<Op>, i: nat, j: nat)
    requires i <= j <= |ops| && At(row, ops, i).Some? && At(row, ops, j).Some?
    requires At(row, ops, j).value.occ == At(row, ops, i).value.occ
    ensures At(row, ops, j) == At(row, ops, i)
  {
    if i < j {
      OccCountsWrites(row, ops, i, j - 1);
      AtNext(row, ops, j - 1);
      SameOccSameRow(row, ops, i, j - 1);
    }
  }

  // ---- Explaining a failure ----

  // A write that carried an occ once seen on the row and then failed is always explained by the later read,
  // however many other writes come in between the three moments.
  lemma FailureIsExplained(row: Option<Row>, ops: seq<Op>, seen: nat, failed: nat, read: nat, owner: string, occ: nat)
    requires seen <= failed <= read <= |ops|
    requires At(row, ops, seen).Some? && At(row, ops, seen).value.occ == occ
    requires !(At(row, ops, failed).Some? && At(row, ops, failed).value.occ == occ
               && At(row, ops, failed).value.lockedBy == Some(owner))
    ensures At(row, ops, read).Some?
    ensures Categorize(At(row, ops, read), owner, occ) ==
      if At(row, ops, read).value.lockedBy != Some(owner) then LockedByOther else ConcurrentUpdate
  {
    OccCountsWrites(row, ops, seen, failed);
    OccCountsWrites(row, ops, failed, read);
    if At(row, ops, read).value.occ == occ {
      SameOccSameRow(row, ops, failed, read);
    }
  }

  // What the statements on a whole table do to one of its rows.
  function OpsOn(statements: seq<Statement>, id: string): seq<Op> {
    if statements == [] then []
    else
      var last := statements[|statements| - 1];
      OpsOn(statements[..|statements| - 1], id) + if last.id == id then [last.op] else []
  }

  lemma {:induction false} RowOfTable(rows: map<string, Row>, statements: seq<Statement>, id: string)
    ensures Get(ApplyAll(rows, statements), id) == Run(Get(rows, id), OpsOn(statements, id))
  {
    if statements != [] {
      var init, last := statements[..|statements| - 1], statements[|statements| - 1];
      RowOfTable(rows, init, id);
      RowsAreIndependent(ApplyAll(rows, init), last.id, last.op, id);
      RunAppend(Get(rows, id), OpsOn(init, id), OpsOn(statements, id)[|OpsOn(init, id)|..]);
      assert [last.op][..0] == [];
    }
  }

  // So an update or release never ends in the unknown error, whatever the other workers execute before it and
  // between it and the read that follows its failure, if its occ was on the row at some time before.
  lemma FailureIsKnown(seen: map<string, Row>, before: seq<Statement>, between: seq<Statement>, id: string, op: Op)
    requires Conditional(op) && id in seen && seen[id].occ == op.occ
    requires !Matches(Get(ApplyAll(seen, before), id), op)
    ensures var found := Get(ApplyAll(ApplyAll(seen, before), between), id);
      && found.Some?
      && UpdateError(Categorize(found, op.owner, op.occ)) ==
         if found.value.lockedBy != Some(op.owner) then TaskLockedByOther else TaskConcurrentUpdate
  {
    var row := Some(seen[id]);
    var a, b := OpsOn(before, id), OpsOn(between, id);
    RowOfTable(seen, before, id);
    RowOfTable(ApplyAll(seen, before), between, id);
    RunAppend(row, a, b);
    assert (a + b)[..0] == [] && (a + b)[..|a|] == a && (a + b)[..|a + b|] == a + b;
    FailureIsExplained(row, a + b, 0, |a|, |a + b|, op.owner, op.occ);
  }

  // ---- What a stored row looks like ----

  ghost predicate LockConsistent(row: Option<Row>) {
    row.Some? ==> (row.value.lockedBy.Some? <==> row.value.lockedAt.Some?)
  }

  lemma {:induction false} LocksAreConsistent(ops: seq<Op>, n: nat)
    requires n <= |ops|
    ensures LockConsistent(At(None, ops, n))
  {
    if n > 0 {
      LocksAreConsistent(ops, n - 1);
      AtNext(None, ops, n - 1);
    } else {
      assert ops[..0] == [];
    }
  }

  // ---- Stale snapshots ----

  datatype Content = Content(status: TaskStatus, retryCount: nat, errorReason: Option<string>)

  function ContentOf(row: Row): Content {
    Content(row.status, row.retryCount, row.errorReason)
  }

  // The least number of writes after which the row can be locked by this owner.
  function Slack(row: Row, owner: string): nat {
    if row.lockedBy == Some(owner) then 0 else if row.lockedBy == None then 1 else 2
  }

  // The least occ at which this owner can come to hold the lock of the row, created first if need be.
  function LeastLock(row: Option<Row>, owner: string): nat {
    match row
    case None => 1
    case Some(s) => s.occ + Slack(s, owner)
  }

  lemma {:induction false} LeastLockGrows(row: Option<Row>, ops: seq<Op>, owner: string)
    ensures LeastLock(Run(row, ops), owner) >= LeastLock(row, owner)
  {
    if ops != [] {
      LeastLockGrows(row, ops[..|ops| - 1], owner);
    }
  }

  // Every write pays either for bringing the lock nearer to the owner or for a change of content.
  lemma {:induction false} WritesPay(s: Row, ops: seq<Op>, owner: string)
    ensures var r := Run(Some(s), ops);
      && r.Some? && r.value.occ + Slack(r.value, owner) >= s.occ + Slack(s, owner)
      && (ContentOf(r.value) != ContentOf(s) ==> r.value.occ + Slack(r.value, owner) > s.occ + Slack(s, owner))
  {
    if ops != [] {
      WritesPay(s, ops[..|ops| - 1], owner);
    }
  }

  // A statement a worker can execute: what it writes was computed from some task, with a reason that validates.
  ghost predicate WorkerMade(op: Op, isReason: string -> bool) {
    op.Update? ==>
      && (exists task :: ComputedFrom(op.payload, task))
      && (op.payload.status == Error ==> isReason(op.payload.errorReason))
  }

  ghost predicate AllWorkerMade(ops: seq<Op>, isReason: string -> bool) {
    forall op | op in ops :: WorkerMade(op, isReason)
  }

  // No run of workers takes the row from s to a lock by this owner at this occ and changes its content on the way.
  ghost predicate AlwaysFresh(s: Row, owner: string, occ: nat, isReason: string -> bool) {
    forall ops | AllWorkerMade(ops, isReason) ::
      LockedAt(Run(Some(s), ops), owner, occ) ==> ContentOf(Run(Some(s), ops).value) == ContentOf(s)
  }

  ghost predicate LockedAt(row: Option<Row>, owner: string, occ: nat) {
    row.Some? && row.value.occ == occ && row.value.lockedBy == Some(owner)
  }

  // Exactly when a worker may trust a snapshot read before it took the lock: the check compares
  // what it read, lock holder included, with the occ the lock gave it.
  lemma FreshExactly(s: Row, owner: string, occ: nat, isReason: string -> bool, reason: string)
    requires isReason(reason)
    ensures AlwaysFresh(s, owner, occ, isReason) <==> occ <= s.occ + Slack(s, owner)
  {
    if occ <= s.occ + Slack(s, owner) {
      forall ops | AllWorkerMade(ops, isReason)
        ensures LockedAt(Run(Some(s), ops), owner, occ) ==> ContentOf(Run(Some(s), ops).value) == ContentOf(s)
      {
        WritesPay(s, ops, owner);
      }
    } else {
      var ops := LockWitness(s, owner, occ, isReason, reason);
      assert ContentOf(Run(Some(s), ops).value) != ContentOf(s);
    }
  }

  // Workers can bring the row to a lock by this owner at any occ from the least one on; above that one they
  // change its content on the way.
  lemma LockWitness(s: Row, owner: string, occ: nat, isReason: string -> bool, reason: string) returns (ops: seq<Op>)
    requires occ >= s.occ + Slack(s, owner) && isReason(reason)
    ensures AllWorkerMade(ops, isReason)
    ensures LockedAt(Run(Some(s), ops), owner, occ)
    ensures occ > s.occ + Slack(s, owner) ==> ContentOf(Run(Some(s), ops).value) != ContentOf(s)
  {
    var take := if s.lockedBy == Some(owner) then [] else [Lock(owner, 0)];
    var free := if s.lockedBy == Some(owner) || s.lockedBy == None then [] else [Release(s.lockedBy.value, s.occ)];
    RunAppend(Some(s), free, take);
    if take != [] { assert take[..0] == []; }
    if free != [] { assert free[..0] == []; }
    var mid := Run(Some(s), free + take).value;
    assert mid.occ == s.occ + Slack(s, owner) && mid.lockedBy == Some(owner);
    var p := ToFailed(s, reason);
    assert ComputedFrom(p, s);
    var updates := RepeatUpdates(mid, owner, p, occ - mid.occ);
    RunAppend(Some(s), free + take, updates);
    ops := free + take + updates;
  }

  lemma {:induction false} RepeatUpdates(row: Row, owner: string, p: Payload, n: nat) returns (ops: seq<Op>)
    requires row.lockedBy == Some(owner)
    ensures forall op | op in ops :: op.Update? && op.payload == p
    ensures LockedAt(Run(Some(row), ops), owner, row.occ + n)
    ensures n > 0 ==> Run(Some(row), ops).value.retryCount == p.retryCount
    ensures n == 0 ==> ops == []
  {
    if n == 0 {
      ops := [];
    } else {
      var before := RepeatUpdates(row, owner, p, n - 1);
      ops := before + [Update(owner, row.occ + n - 1, p)];
      assert ops[..|ops| - 1] == before;
    }
  }

  // ---- Exactly which failures are explained ----

  ghost predicate AlwaysExplained(row: Option<Row>, owner: string, occ: nat, isReason: string -> bool) {
    forall ops | AllWorkerMade(ops, isReason) :: Categorize(Run(row, ops), owner, occ) != Unknown
  }

  // However the others go on after a write failed on this row, the later read explains the failure: exactly if the
  // occ lies below the least one the owner can still come to hold the lock at.
  lemma ExplainedExactly(row: Option<Row>, owner: string, occ: nat, isReason: string -> bool, reason: string)
    requires isReason(reason)
    ensures AlwaysExplained(row, owner, occ, isReason) <==> occ < LeastLock(row, owner)
  {
    if occ < LeastLock(row, owner) {
      forall ops | AllWorkerMade(ops, isReason) ensures Categorize(Run(row, ops), owner, occ) != Unknown {
        LeastLockGrows(row, ops, owner);
      }
    } else {
      var start := if row.None? then [Create] else [];
      var s := if row.None? then NEW_ROW else row.value;
      if start != [] { assert start[..0] == []; }
      var ops := LockWitness(s, owner, occ, isReason, reason);
      RunAppend(row, start, ops);
      assert AllWorkerMade(start + ops, isReason);
      assert Categorize(Run(row, start + ops), owner, occ) == Unknown;
    }
  }

  // ---- No update is lost, as long as every worker makes that check ----

  ghost predicate ComputedFrom(p: Payload, task: Row) {
    p == ToFailed(task, p.errorReason) || p == ToCompleted(task)
  }

  // Each update that goes through was computed from the row as it stood at moment src[j], and passed the check.
  ghost predicate Checked(ops: seq<Op>, src: seq<nat>) {
    && |src| == |ops|
    && forall j | 0 <= j < |ops| && ops[j].Update? && Commits(None, ops, j) ::
        && src[j] <= j
        && At(None, ops, src[j]).Some?
        && ComputedFrom(ops[j].payload, At(None, ops, src[j]).value)
        && ops[j].occ <= At(None, ops, src[j]).value.occ + Slack(At(None, ops, src[j]).value, ops[j].owner)
  }

  function Transitions(ops: seq<Op>, n: nat): nat
    requires n <= |ops|
  {
    if n == 0 then 0
    else Transitions(ops, n - 1) + if ops[n - 1].Update? && Commits(None, ops, n - 1) then 1 else 0
  }

  function Failures(ops: seq<Op>, n: nat): nat
    requires n <= |ops|
  {
    if n == 0 then 0
    else Failures(ops, n - 1) +
         if ops[n - 1].Update? && ops[n - 1].payload.status == Error && Commits(None, ops, n - 1) then 1 else 0
  }

  lemma CheckedIsCurrent(ops: seq<Op>, src: seq<nat>, j: nat)
    requires Checked(ops, src) && j < |ops| && ops[j].Update? && Commits(None, ops, j)
    ensures ComputedFrom(ops[j].payload, At(None, ops, j).value)
  {
    var s := At(None, ops, src[j]).value;
    assert ops[..j] == ops[..src[j]] + ops[src[j]..j];
    RunAppend(None, ops[..src[j]], ops[src[j]..j]);
    WritesPay(s, ops[src[j]..j], ops[j].owner);
  }

  // The retry counter counts the committed failures, and the task is pending until its first transition.
  lemma {:induction false} NoLostUpdates(ops: seq<Op>, src: seq<nat>, n: nat)
    requires Checked(ops, src) && n <= |ops|
    ensures match At(None, ops, n)
      case None => Transitions(ops, n) == 0 && Failures(ops, n) == 0
      case Some(row) =>
        && row.retryCount == Failures(ops, n)
        && (row.status == Pending <==> Transitions(ops, n) == 0)
        && (row.status == Error ==> row.errorReason.Some?)
  {
    if n == 0 {
      assert ops[..0] == [];
    } else {
      var j := n - 1;
      NoLostUpdates(ops, src, j);
      AtNext(None, ops, j);
      if ops[j].Update? && Commits(None, ops, j) {
        CheckedIsCurrent(ops, src, j);
      }
    }
  }

  // So a worker reading a task is only ever turned away by a lock it cannot parse or because the task is done.
  lemma ReadFailsOnlyWhenDone(ops: seq<Op>, src: seq<nat>, n: nat, isLock: (string, int) -> bool, needsResponse: bool)
    requires Checked(ops, src) && n <= |ops| && At(None, ops, n).Some?
    ensures var row := At(None, ops, n).value;
      && (row.lockedBy.Some? <==> row.lockedAt.Some?)
      && ReadTask(row, isLock, needsResponse) ==
      if row.lockedBy.Some? && !isLock(row.lockedBy.value, row.lockedAt.value) then Err(InvalidLock)
      else if needsResponse && row.status == Completed then Err(ResponseMissing)
      else Ok(row)
  {
    NoLostUpdates(ops, src, n);
    LocksAreConsistent(ops, n);
    FailuresAreTransitions(ops, n);
  }

  lemma FailuresAreTransitions(ops: seq<Op>, n: nat)
    requires n <= |ops|
    ensures Failures(ops, n) <= Transitions(ops, n)
  {
  }

  // The workers make no such check: they read the task, then lock it, then write what they computed
  // from the first read under the occ of the lock. Two failures go through and one is counted.
  lemma UncheckedUpdateIsLost(a: string, b: string, reason: string, now: int)
    ensures var task := NEW_ROW;
      var ops := [Create,
                  Lock(b, now), Update(b, 1, ToFailed(task, reason)), Release(b, 2),
                  Lock(a, now), Update(a, 4, ToFailed(task, reason))];
      && At(None, ops, 1) == Some(task)
      && Failures(ops, 6) == 2
      && At(None, ops, 6).Some? && At(None, ops, 6).value.retryCount == 1
  {
    var task := NEW_ROW;
    var p := ToFailed(task, reason);
    var ops := [Create, Lock(b, now), Update(b, 1, p), Release(b, 2), Lock(a, now), Update(a, 4, p)];
    assert ops[..0] == [];
    AtNext(None, ops, 0);
    AtNext(None, ops, 1);
    AtNext(None, ops, 2);
    AtNext(None, ops, 3);
    AtNext(None, ops, 4);
    AtNext(None, ops, 5);
    assert Failures(ops, 1) == 0 && Failures(ops, 2) == 0;
    assert Failures(ops, 3) == 1 && Failures(ops, 4) == 1 && Failures(ops, 5) == 1;
  }
}
