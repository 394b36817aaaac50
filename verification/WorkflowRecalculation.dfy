/**
 One workflow row shared by voters, recalculation jobs, the expiration sweep and template deprecation.
 Every database call is one atomic step; the steps of any number of jobs interleave freely.
 */
module WorkflowRecalculation {
  import opened Wrappers
  import opened Votes
  import opened ApprovalRules
  import opened Workflows
  import opened VoteReplay
  import opened ReplayTheorems

  // ---- The stored row and the statements on it ----

  datatype Stored = Stored(status: Status, recalculationRequired: bool, occ: nat, votes: seq<Vote>)

  const FRESH := Stored(EvaluationInProgress, false, 0, [])

  // Insert the vote, set the flag and bump occ, in one transaction.
  function AppendVote(s: Stored, v: Vote): Stored {
    Stored(s.status, true, s.occ + 1, s.votes + [v])
  }

  function Mark(s: Stored): Stored {
    s.(recalculationRequired := true)
  }

  // The conditional update. It does not bump occ.
  function UpdateIf(s: Stored, occCheck: nat, status: Status, flag: Option<bool>): Stored {
    if s.occ != occCheck then s
    else s.(status := status, recalculationRequired := if flag.Some? then flag.value else s.recalculationRequired)
  }

  class WorkflowRow {
    var status: Status
    var recalculationRequired: bool
    var occ: nat
    var votes: seq<Vote>

    function Contents(): Stored
      reads this
    {
      Stored(status, recalculationRequired, occ, votes)
    }

    constructor ()
      ensures Contents() == FRESH
    {
      status, recalculationRequired, occ, votes := EvaluationInProgress, false, 0, [];
    }

    method PersistVoteAndMarkWorkflowRecalculation(v: Vote)
      modifies this
      ensures Contents() == AppendVote(old(Contents()), v)
      ensures votes == old(votes) + [v] && recalculationRequired && occ == old(occ) + 1 && status == old(status)
    {
      votes := votes + [v];
      recalculationRequired := true;
      occ := occ + 1;
    }

    method MarkAsRecalculationRequired()
      modifies this
      ensures Contents() == Mark(old(Contents()))
      ensures recalculationRequired && status == old(status) && occ == old(occ) && votes == old(votes)
    {
      recalculationRequired := true;
    }

    method UpdateWorkflowConcurrentSafe(occCheck: nat, newStatus: Status, flag: Option<bool>) returns (updated: bool)
      modifies this
      ensures updated <==> old(occ) == occCheck
      ensures Contents() == UpdateIf(old(Contents()), occCheck, newStatus, flag)
      ensures occ == old(occ) && votes == old(votes)
      ensures status == if updated then newStatus else old(status)
      ensures recalculationRequired == if updated && flag.Some? then flag.value else old(recalculationRequired)
    {
      updated := occ == occCheck;
      if updated {
        status := newStatus;
        if flag.Some? {
          recalculationRequired := flag.value;
        }
      }
    }

    method GetWorkflow() returns (loaded: Status, loadedOcc: nat)
      ensures recalculationRequired ==> loaded == EvaluationInProgress
      ensures !recalculationRequired ==> loaded == status
      ensures loadedOcc == occ
    {
      loaded, loadedOcc := Masked(status, recalculationRequired), occ;
    }
  }

  // ---- Jobs and runs ----

  // `at` remembers which clock the loaded status was evaluated at; it is bookkeeping for the statements below.
  datatype Job =
    | Loaded(seen: Status, occ: nat, at: Option<int>)
    | WithVotes(seen: Status, occ: nat, at: Option<int>, votes: seq<Vote>)
    | Evaluated(seen: Status, occ: nat, at: Option<int>, result: Status)

  // evaluatedAt is the clock behind the stored status, if any; cancelled says whether a cancellation ever went through.
  datatype System = System(stored: Stored, jobs: map<nat, Job>, evaluatedAt: Option<int>, cancelled: bool)

  datatype Step =
    | Cast(vote: Vote)
    | Sweep
    | Cancel(occCheck: nat)
    | Load(job: nat)
    | ReadVotes(job: nat, rows: seq<Vote>)
    | Evaluate(job: nat, now: int)
    | Commit(job: nat)
    | Abandon(job: nat)

  const START := System(FRESH, map[], None, false)

  // A step whose job is not at that point leaves the system as it is.
  function Next(sys: System, step: Step, rule: Rule, expiresAt: int): System {
    var s := sys.stored;
    match step
    case Cast(v) => sys.(stored := AppendVote(s, v))
    case Sweep => sys.(stored := Mark(s))
    case Cancel(occCheck) =>
      sys.(stored := UpdateIf(s, occCheck, Canceled, None), cancelled := sys.cancelled || s.occ == occCheck)
    case Load(j) =>
      sys.(jobs := sys.jobs[j := Loaded(Masked(s.status, s.recalculationRequired), s.occ, sys.evaluatedAt)])
    case ReadVotes(j, rows) =>
      // The rows come back by time; the order of simultaneous votes is up to the database.
      if j in sys.jobs && sys.jobs[j].Loaded? && multiset(rows) == multiset(s.votes) then
        var job := sys.jobs[j];
        sys.(jobs := sys.jobs[j := WithVotes(job.seen, job.occ, job.at, rows)])
      else sys
    case Evaluate(j, now) =>
      if j in sys.jobs && sys.jobs[j].WithVotes? then
        var job := sys.jobs[j];
        var at := if Terminal(job.seen) then job.at else Some(now);
        var result := EvaluatedStatus(job.seen, expiresAt, rule, job.votes, now);
        sys.(jobs := sys.jobs[j := Evaluated(job.seen, job.occ, at, result)])
      else sys
    case Commit(j) =>
      if j in sys.jobs && sys.jobs[j].Evaluated? then
        var job := sys.jobs[j];
        System(UpdateIf(s, job.occ, job.result, Some(false)), sys.jobs - {j},
               if s.occ == job.occ then job.at else sys.evaluatedAt, sys.cancelled)
      else sys
    case Abandon(j) => sys.(jobs := sys.jobs - {j})
  }

  function Run(sys: System, steps: seq<Step>, rule: Rule, expiresAt: int): System
    decreases |steps|
  {
    if steps == [] then sys else Run(Next(sys, steps[0], rule, expiresAt), steps[1..], rule, expiresAt)
  }

  // ---- No vote is missed ----

  // The status the complete list of votes evaluates to at that clock, in some order of simultaneous votes.
  ghost predicate IsEvaluation(status: Status, votes: seq<Vote>, clock: int, rule: Rule, expiresAt: int) {
    exists p :: multiset(p) == multiset(votes)
      && status == EvaluatedStatus(EvaluationInProgress, expiresAt, rule, p, clock)
  }

  // A status that is accounted for by these votes.
  ghost predicate Justified(
    status: Status, votes: seq<Vote>, at: Option<int>, cancelled: bool, rule: Rule, expiresAt: int)
  {
    match at
    case None => (status == EvaluationInProgress && votes == []) || (status == Canceled && cancelled)
    case Some(clock) => IsEvaluation(status, votes, clock, rule, expiresAt) || (status == Canceled && cancelled)
  }

  ghost predicate JobInv(sys: System, job: Job, rule: Rule, expiresAt: int) {
    && job.occ <= sys.stored.occ
    && (job.occ == sys.stored.occ ==>
      && (!job.Evaluated? && Terminal(job.seen) ==>
          Justified(job.seen, sys.stored.votes, job.at, sys.cancelled, rule, expiresAt))
      && (job.WithVotes? ==> multiset(job.votes) == multiset(sys.stored.votes))
      && (job.Evaluated? ==> Justified(job.result, sys.stored.votes, job.at, sys.cancelled, rule, expiresAt)))
  }

  ghost predicate Inv(sys: System, rule: Rule, expiresAt: int) {
    && (!sys.stored.recalculationRequired ==>
        Justified(sys.stored.status, sys.stored.votes, sys.evaluatedAt, sys.cancelled, rule, expiresAt))
    && forall j | j in sys.jobs :: JobInv(sys, sys.jobs[j], rule, expiresAt)
  }

  lemma JobInvKept(sys: System, step: Step, rule: Rule, expiresAt: int, j: nat)
    requires Inv(sys, rule, expiresAt)
    ensures var sys' := Next(sys, step, rule, expiresAt); j in sys'.jobs ==> JobInv(sys', sys'.jobs[j], rule, expiresAt)
  {
    hide Outcome, Covers;
    var sys' := Next(sys, step, rule, expiresAt);
    if step.Evaluate? && j == step.job && j in sys.jobs && sys.jobs[j].WithVotes? && !Terminal(sys.jobs[j].seen) {
      var job := sys.jobs[j];
      var result := sys'.jobs[j].result;
      assert result == EvaluatedStatus(EvaluationInProgress, expiresAt, rule, job.votes, step.now);
      assert job.occ == sys.stored.occ ==> IsEvaluation(result, sys.stored.votes, step.now, rule, expiresAt);
    }
  }

  lemma InvKept(sys: System, step: Step, rule: Rule, expiresAt: int)
    requires Inv(sys, rule, expiresAt)
    ensures Inv(Next(sys, step, rule, expiresAt), rule, expiresAt)
  {
    var sys' := Next(sys, step, rule, expiresAt);
    forall j | j in sys'.jobs ensures JobInv(sys', sys'.jobs[j], rule, expiresAt) {
      JobInvKept(sys, step, rule, expiresAt, j);
    }
  }

  lemma {:induction false} InvOverRun(sys: System, steps: seq<Step>, rule: Rule, expiresAt: int)
    requires Inv(sys, rule, expiresAt)
    ensures Inv(Run(sys, steps, rule, expiresAt), rule, expiresAt)
    decreases |steps|
  {
    if steps != [] {
      InvKept(sys, steps[0], rule, expiresAt);
      InvOverRun(Next(sys, steps[0], rule, expiresAt), steps[1..], rule, expiresAt);
    }
  }

  // However votes, sweeps, cancellations and jobs interleave: once the flag is down, the stored status accounts
  // for every stored vote, or is the one a cancellation put there.
  lemma NoVoteMissed(steps: seq<Step>, rule: Rule, expiresAt: int)
    ensures var sys := Run(START, steps, rule, expiresAt);
      !sys.stored.recalculationRequired ==>
        if sys.stored.status == Canceled then sys.cancelled
        else match sys.evaluatedAt
          case None => sys.stored.status == EvaluationInProgress && sys.stored.votes == []
          case Some(clock) =>
            && IsEvaluation(sys.stored.status, sys.stored.votes, clock, rule, expiresAt)
            && (HarmlessTies(multiset(sys.stored.votes)) ==>
                sys.stored.status == EvaluatedStatus(EvaluationInProgress, expiresAt, rule, sys.stored.votes, clock))
  {
    InvOverRun(START, steps, rule, expiresAt);
    var sys := Run(START, steps, rule, expiresAt);
    var status, votes := sys.stored.status, sys.stored.votes;
    if
      && !sys.stored.recalculationRequired && status != Canceled
      && sys.evaluatedAt.Some? && HarmlessTies(multiset(votes))
    {
      var clock := sys.evaluatedAt.value;
      var p :| multiset(p) == multiset(votes)
        && status == EvaluatedStatus(EvaluationInProgress, expiresAt, rule, p, clock);
      OrderIndependence(EvaluationInProgress, expiresAt, rule, p, votes, clock);
    }
  }

  // ---- Cancellation is not protected in the same way ----

  // No evaluation cancels a workflow or takes a cancellation back that it saw.
  lemma EvaluationNeverCancels(seen: Status, expiresAt: int, rule: Rule, votes: seq<Vote>, now: int)
    ensures EvaluatedStatus(seen, expiresAt, rule, votes, now) == Canceled <==> seen == Canceled
  {
  }

  // The job can only write Canceled, should it get to its commit.
  predicate WillCancel(job: Job) {
    if job.Evaluated? then job.result == Canceled else job.seen == Canceled
  }

  // What a cancelled workflow needs to stay so: nobody is to recalculate it, and every job that could still
  // commit saw it cancelled.
  ghost predicate Protected(sys: System) {
    && !sys.stored.recalculationRequired
    && forall j | j in sys.jobs && sys.jobs[j].occ == sys.stored.occ :: WillCancel(sys.jobs[j])
  }

  // No new vote and no sweep.
  predicate Quiet(steps: seq<Step>) {
    forall step | step in steps :: !step.Cast? && !step.Sweep?
  }

  ghost predicate StaysCanceled(sys: System, rule: Rule, expiresAt: int) {
    forall steps | Quiet(steps) :: Run(sys, steps, rule, expiresAt).stored.status == Canceled
  }

  // Exactly when a cancellation lasts for as long as no vote is cast and no sweep comes by.
  lemma CancellationLastsExactly(sys: System, rule: Rule, expiresAt: int)
    requires sys.stored.status == Canceled
    ensures StaysCanceled(sys, rule, expiresAt) <==> Protected(sys)
  {
    if Protected(sys) {
      forall steps | Quiet(steps) ensures Run(sys, steps, rule, expiresAt).stored.status == Canceled {
        ProtectedOverRun(sys, steps, rule, expiresAt);
      }
    } else if sys.stored.recalculationRequired {
      var steps := LoadAndFinish(sys, 0, rule, expiresAt);
    } else {
      var j :| j in sys.jobs && sys.jobs[j].occ == sys.stored.occ && !WillCancel(sys.jobs[j]);
      var steps := FinishJob(sys, j, rule, expiresAt);
    }
  }

  lemma {:induction false} ProtectedOverRun(sys: System, steps: seq<Step>, rule: Rule, expiresAt: int)
    requires sys.stored.status == Canceled && Protected(sys) && Quiet(steps)
    ensures Run(sys, steps, rule, expiresAt).stored.status == Canceled
    decreases |steps|
  {
    if steps != [] {
      ProtectedKept(sys, steps[0], rule, expiresAt);
      ProtectedOverRun(Next(sys, steps[0], rule, expiresAt), steps[1..], rule, expiresAt);
    }
  }

  lemma ProtectedKept(sys: System, step: Step, rule: Rule, expiresAt: int)
    requires sys.stored.status == Canceled && Protected(sys) && !step.Cast? && !step.Sweep?
    ensures var sys' := Next(sys, step, rule, expiresAt); sys'.stored.status == Canceled && Protected(sys')
  {
    hide Outcome;
  }

  // A job that did not see the cancellation erases it by going on to its end.
  lemma FinishJob(sys: System, j: nat, rule: Rule, expiresAt: int) returns (steps: seq<Step>)
    requires j in sys.jobs && sys.jobs[j].occ == sys.stored.occ && !WillCancel(sys.jobs[j])
    ensures Quiet(steps)
    ensures Run(sys, steps, rule, expiresAt).stored.status != Canceled
  {
    hide EvaluatedStatus;
    match sys.jobs[j]
    case Evaluated(_, _, _, _) =>
      steps := [Commit(j)];
      assert [Commit(j)] == [Commit(j)] + [];
      RunStep(sys, Commit(j), [], rule, expiresAt);
    case WithVotes(seen, _, _, votes) =>
      EvaluationNeverCancels(seen, expiresAt, rule, votes, 0);
      steps := [Evaluate(j, 0), Commit(j)];
      RunFinish(sys, j, 0, rule, expiresAt);
    case Loaded(seen, _, _) =>
      EvaluationNeverCancels(seen, expiresAt, rule, sys.stored.votes, 0);
      var sys' := Next(sys, ReadVotes(j, sys.stored.votes), rule, expiresAt);
      steps := [ReadVotes(j, sys.stored.votes)] + [Evaluate(j, 0), Commit(j)];
      RunStep(sys, ReadVotes(j, sys.stored.votes), [Evaluate(j, 0), Commit(j)], rule, expiresAt);
      RunFinish(sys', j, 0, rule, expiresAt);
  }

  // While the flag is up the cancellation is masked, so a job that starts after it does not see it either.
  lemma LoadAndFinish(sys: System, j: nat, rule: Rule, expiresAt: int) returns (steps: seq<Step>)
    requires sys.stored.recalculationRequired
    ensures Quiet(steps)
    ensures Run(sys, steps, rule, expiresAt).stored.status != Canceled
  {
    var rest := FinishJob(Next(sys, Load(j), rule, expiresAt), j, rule, expiresAt);
    steps := [Load(j)] + rest;
    RunStep(sys, Load(j), rest, rule, expiresAt);
  }

  lemma RunStep(sys: System, step: Step, rest: seq<Step>, rule: Rule, expiresAt: int)
    ensures Run(sys, [step] + rest, rule, expiresAt) == Run(Next(sys, step, rule, expiresAt), rest, rule, expiresAt)
  {
    hide Next;
    assert ([step] + rest)[1..] == rest;
  }

  lemma RunFinish(sys: System, j: nat, now: int, rule: Rule, expiresAt: int)
    ensures Run(sys, [Evaluate(j, now), Commit(j)], rule, expiresAt)
      == Next(Next(sys, Evaluate(j, now), rule, expiresAt), Commit(j), rule, expiresAt)
  {
    hide Next;
    assert [Evaluate(j, now), Commit(j)] == [Evaluate(j, now)] + [Commit(j)];
    assert [Commit(j)] == [Commit(j)] + [];
    RunStep(sys, Evaluate(j, now), [Commit(j)], rule, expiresAt);
    RunStep(Next(sys, Evaluate(j, now), rule, expiresAt), Commit(j), [], rule, expiresAt);
  }

  // A vote or a sweep that comes after the cancellation takes away whatever protection it had.
  lemma LateStepUnprotects(sys: System, step: Step, rule: Rule, expiresAt: int)
    requires sys.stored.status == Canceled && (step.Cast? || step.Sweep?)
    ensures !StaysCanceled(Next(sys, step, rule, expiresAt), rule, expiresAt)
  {
    CancellationLastsExactly(Next(sys, step, rule, expiresAt), rule, expiresAt);
  }

  // A vote is cast, the workflow is cancelled, and the recalculation the vote asked for runs only then: the
  // cancellation is written over by the evaluation of the vote, flag down and nothing left to notice it.
  lemma CancellationCanBeLost(v: Vote, rule: Rule, expiresAt: int, now: int)
    ensures var steps := [Cast(v), Cancel(1), Load(0), ReadVotes(0, [v]), Evaluate(0, now), Commit(0)];
      var sys := Run(START, steps, rule, expiresAt);
      && sys.cancelled && sys.jobs == map[]
      && sys.stored == Stored(EvaluatedStatus(EvaluationInProgress, expiresAt, rule, [v], now), false, 1, [v])
      && sys.stored.status != Canceled
  {
    hide Outcome;
    var a := Next(START, Cast(v), rule, expiresAt);
    var b := Next(a, Cancel(1), rule, expiresAt);
    var c := Next(b, Load(0), rule, expiresAt);
    var d := Next(c, ReadVotes(0, [v]), rule, expiresAt);
    var rest := [Evaluate(0, now), Commit(0)];
    assert [Cast(v), Cancel(1), Load(0), ReadVotes(0, [v]), Evaluate(0, now), Commit(0)]
      == [Cast(v)] + ([Cancel(1)] + ([Load(0)] + ([ReadVotes(0, [v])] + rest)));
    RunStep(START, Cast(v), [Cancel(1)] + ([Load(0)] + ([ReadVotes(0, [v])] + rest)), rule, expiresAt);
    RunStep(a, Cancel(1), [Load(0)] + ([ReadVotes(0, [v])] + rest), rule, expiresAt);
    RunStep(b, Load(0), [ReadVotes(0, [v])] + rest, rule, expiresAt);
    RunStep(c, ReadVotes(0, [v]), rest, rule, expiresAt);
    RunFinish(d, 0, now, rule, expiresAt);
    assert d.jobs[0] == WithVotes(EvaluationInProgress, 1, None, [v]);
    EvaluationNeverCancels(EvaluationInProgress, expiresAt, rule, [v], now);
  }
}
