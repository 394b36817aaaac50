/** What nested transactions promise: bounded work, strict enough isolation, and all or nothing. */
module TransactionTheorems {
  import opened Wrappers
  import opened Retry
  import opened Transactions

  // How many queries a computation contains.
  function Queries(p: Prog): nat {
    match p
    case Query(_) => 1
    case Reject(_) => 0
    case Then(first, second) => Queries(first) + Queries(second)
    case OrElse(first, fallback) => Queries(first) + Queries(fallback)
    case TryCatch(body, _) => Queries(body)
    case Throwing(body) => Queries(body)
    case Settled(body) => Queries(body)
    case Transactional(_, body) => Queries(body)
  }

  function RunsPerQuery(db: Database, active: Option<Level>): nat {
    if active.Some? then 1 else MaxRuns(db.config)
  }

  // Going from `s` to `s'`: at most `runs` query runs, and inside a transaction nothing is committed.
  predicate Grows(active: Option<Level>, s: State, s': State, runs: nat) {
    && s.trace <= s'.trace && |s'.trace| <= |s.trace| + runs
    && (if active.Some? then s'.committed == s.committed && s.pending <= s'.pending
        else s.committed <= s'.committed && s'.pending == [])
  }

  // However deep transactions nest, no query runs more often than the retry limit, and inside a transaction only once.
  lemma {:induction false} NestingDoesNotMultiply(
    db: Database, p: Prog, active: Option<Level>, asked: seq<Level>, s: State)
    requires active.None? ==> s.pending == []
    ensures Grows(active, s, Eval(db, p, active, asked, s).1, RunsPerQuery(db, active) * Queries(p))
    decreases p, 1
  {
    hide Retried, Finish, RunQuery, Strictness, Grows;
    var m := RunsPerQuery(db, active);
    GrowsStill(active, s, m * Queries(p));
    match p
    case Query(id) => QueryGrows(db, id, active, asked, s);
    case Reject(_) =>
    case Then(first, second) => SequenceGrows(db, p, first, second, active, asked, s);
    case OrElse(first, fallback) => SequenceGrows(db, p, first, fallback, active, asked, s);
    case TryCatch(body, _) => NestingDoesNotMultiply(db, body, active, asked, s);
    case Throwing(body) => NestingDoesNotMultiply(db, body, active, asked, s);
    case Settled(body) => NestingDoesNotMultiply(db, body, active, asked, s);
    case Transactional(requested, body) =>
      if active.Some? {
        NestingDoesNotMultiply(db, body, active, asked + [LevelOf(requested)], s);
      } else {
        AttemptsGrow(db, body, LevelOf(requested), asked, s);
      }
  }

  lemma QueryGrows(db: Database, id: nat, active: Option<Level>, asked: seq<Level>, s: State)
    requires active.None? ==> s.pending == []
    ensures Grows(active, s, Eval(db, Query(id), active, asked, s).1, RunsPerQuery(db, active) * 1)
  {
    hide RetryWithBackoff;
    if active.None? {
      RetryKeeps(QueryAttempts(db, id, asked), IsTransient, db.config, s, (n: nat, x: State) => Grows(active, s, x, n));
    }
  }

  // Running the second part or not, the two together stay within the sum of their bounds.
  lemma {:induction false} SequenceGrows(
    db: Database, whole: Prog, p: Prog, q: Prog, active: Option<Level>, asked: seq<Level>, s: State)
    requires p < whole && q < whole
    requires active.None? ==> s.pending == []
    ensures var s1 := Eval(db, p, active, asked, s).1;
      var runs := RunsPerQuery(db, active) * (Queries(p) + Queries(q));
      Grows(active, s, s1, runs) && Grows(active, s, Eval(db, q, active, asked, s1).1, runs)
    decreases whole, 0
  {
    hide Eval, Queries, RunsPerQuery;
    var m := RunsPerQuery(db, active);
    NestingDoesNotMultiply(db, p, active, asked, s);
    var s1 := Eval(db, p, active, asked, s).1;
    NestingDoesNotMultiply(db, q, active, asked, s1);
    GrowsOn(active, s, s1, s1, m, Queries(p), Queries(q));
    GrowsOn(active, s, s1, Eval(db, q, active, asked, s1).1, m, Queries(p), Queries(q));
  }

  lemma GrowsStill(active: Option<Level>, s: State, runs: nat)
    requires active.None? ==> s.pending == []
    ensures Grows(active, s, s, runs)
  {
  }

  lemma GrowsOn(active: Option<Level>, s: State, s1: State, s2: State, m: nat, a: nat, b: nat)
    requires Grows(active, s, s1, m * a) && Grows(active, s1, s2, m * b)
    ensures Grows(active, s, s2, m * (a + b))
  {
    Distribute(m, a, b);
  }

  lemma Distribute(m: nat, a: nat, b: nat)
    ensures m * (a + b) == m * a + m * b
  {
  }

  lemma FinishGrows(db: Database, r: Reaction, level: Level, s: State, end: State, runs: nat)
    requires Grows(Some(level), Opened(s), end, runs)
    ensures Grows(None, s, Finish(db, r, end).1, runs)
  {
  }

  lemma OpeningGrows(s: State, x: State, q: nat, k: nat)
    requires Grows(None, s, x, q * k)
    ensures Grows(None, s, Opened(x), q * (k + 1))
  {
    Distribute(q, k, 1);
  }

  lemma {:induction false} AttemptsGrow(db: Database, body: Prog, level: Level, asked: seq<Level>, s: State)
    requires s.pending == []
    ensures var s' := Retried(db, TransactionAttempts(db, body, level, asked), s).1;
      Grows(None, s, s', MaxRuns(db.config) * Queries(body))
    decreases body, 2
  {
    hide RetryWithBackoff, Strictness, Eval, Finish, Queries, Grows, MaxRuns;
    var q := Queries(body);
    var attempts := TransactionAttempts(db, body, level, asked);
    var inv := (n: nat, x: State) => Grows(None, s, x, q * n);
    GrowsStill(None, s, q * 0);
    forall k: nat, x: State | inv(k, x) ensures inv(k + 1, attempts(k + 1, x).1) {
      var (r, end) := Eval(db, body, Some(level), asked + [level], Opened(x));
      NestingDoesNotMultiply(db, body, Some(level), asked + [level], Opened(x));
      assert RunsPerQuery(db, Some(level)) * q == q * 1;
      FinishGrows(db, r, level, x, end, q * 1);
      GrowsOn(None, s, x, Finish(db, r, end).1, q, k, 1);
      OpeningGrows(s, x, q, k);
    }
    RetryKeeps(attempts, IsTransient, db.config, s, inv);
    var o := RetryWithBackoff(attempts, IsTransient, db.config, s);
    GrowsAtMost(None, s, o.state, q, o.attempts, MaxRuns(db.config));
  }

  lemma GrowsAtMost(active: Option<Level>, s: State, s': State, q: nat, n: nat, m: nat)
    requires Grows(active, s, s', q * n) && n <= m
    ensures Grows(active, s, s', m * q)
  {
    assert (m - n) * q >= 0;
  }

  // ---- Isolation ----

  // Which levels give at least the guarantees that were asked for.
  predicate Suffices(active: Level, asked: Level) {
    match asked
    case ReadUncommitted => true
    case ReadCommitted => active != ReadUncommitted
    case RepeatableRead => active == RepeatableRead || active == Serializable
    case Serializable => active == Serializable
  }

  // A transaction runs at the level its outermost request asked for, and no inner request asked for a stricter one.
  predicate StrictEnough(active: Option<Level>, asked: seq<Level>) {
    && active == (if asked == [] then None else Some(asked[0]))
    && forall level | level in asked :: Suffices(active.value, level)
  }

  // Inside a transaction, a request is joined to it if its level suffices and refused otherwise, nothing having run;
  // a request without a level asks for ReadCommitted.
  lemma NestedRequest(db: Database, requested: Option<Level>, body: Prog, active: Level, asked: seq<Level>, s: State)
    ensures var level := if requested.Some? then requested.value else ReadCommitted;
      Eval(db, Transactional(requested, body), Some(active), asked, s) ==
      if Suffices(active, level) then Eval(db, body, Some(active), asked + [level], s) else (Err(Conflict), s)
  {
  }

  // The queries of a computation, each with the levels requested around it.
  function Requests(p: Prog, asked: seq<Level>): set<(nat, seq<Level>)> {
    match p
    case Query(id) => {(id, asked)}
    case Reject(_) => {}
    case Then(first, second) => Requests(first, asked) + Requests(second, asked)
    case OrElse(first, fallback) => Requests(first, asked) + Requests(fallback, asked)
    case TryCatch(body, _) => Requests(body, asked)
    case Throwing(body) => Requests(body, asked)
    case Settled(body) => Requests(body, asked)
    case Transactional(requested, body) => Requests(body, asked + [LevelOf(requested)])
  }

  predicate AllStrictEnough(trace: seq<Event>, requests: set<(nat, seq<Level>)>) {
    forall i | 0 <= i < |trace| ::
      StrictEnough(trace[i].active, trace[i].asked) && (trace[i].query, trace[i].asked) in requests
  }

  // Every query of every attempt runs at a level at least as strict as each computation around it asked for.
  lemma {:induction false} IsolationIsStrictEnough(
    db: Database, p: Prog, active: Option<Level>, asked: seq<Level>, s: State, requests: set<(nat, seq<Level>)>)
    requires Requests(p, asked) <= requests
    requires StrictEnough(active, asked) && AllStrictEnough(s.trace, requests)
    ensures AllStrictEnough(Eval(db, p, active, asked, s).1.trace, requests)
    decreases p, 0
  {
    match p
    case Query(id) =>
      if active.None? {
        var inv := (n: nat, x: State) => AllStrictEnough(x.trace, requests);
        RetryKeeps(QueryAttempts(db, id, asked), IsTransient, db.config, s, inv);
      }
    case Reject(_) =>
    case Then(first, second) =>
      IsolationIsStrictEnough(db, first, active, asked, s, requests);
      IsolationIsStrictEnough(db, second, active, asked, Eval(db, first, active, asked, s).1, requests);
    case OrElse(first, fallback) =>
      IsolationIsStrictEnough(db, first, active, asked, s, requests);
      IsolationIsStrictEnough(db, fallback, active, asked, Eval(db, first, active, asked, s).1, requests);
    case TryCatch(body, _) => IsolationIsStrictEnough(db, body, active, asked, s, requests);
    case Throwing(body) => IsolationIsStrictEnough(db, body, active, asked, s, requests);
    case Settled(body) => IsolationIsStrictEnough(db, body, active, asked, s, requests);
    case Transactional(requested, body) =>
      var level := LevelOf(requested);
      if active.Some? {
        if Strictness(level) <= Strictness(active.value) {
          IsolationIsStrictEnough(db, body, active, asked + [level], s, requests);
        }
      } else {
        AttemptsAreStrictEnough(db, body, level, s, requests);
      }
  }

  lemma {:induction false} AttemptsAreStrictEnough(
    db: Database, body: Prog, level: Level, s: State, requests: set<(nat, seq<Level>)>)
    requires Requests(body, [] + [level]) <= requests && AllStrictEnough(s.trace, requests)
    ensures AllStrictEnough(Retried(db, TransactionAttempts(db, body, level, []), s).1.trace, requests)
    decreases body, 1
  {
    hide Eval, RetryWithBackoff, Strictness, Requests;
    var attempts := TransactionAttempts(db, body, level, []);
    var inv := (n: nat, x: State) => AllStrictEnough(x.trace, requests);
    forall k: nat, x: State | inv(k, x) ensures inv(k + 1, attempts(k + 1, x).1) {
      var (r, end) := Eval(db, body, Some(level), [] + [level], Opened(x));
      IsolationIsStrictEnough(db, body, Some(level), [] + [level], Opened(x), requests);
      assert attempts(k + 1, x).1.trace == if db.reply(x.asks).Failed? then x.trace else end.trace;
    }
    RetryKeeps(attempts, IsTransient, db.config, s, inv);
  }

  // ---- Composition ----

  // A Right goes on to the second computation and never to the fallback, a Left to the fallback and never to the second
  // computation, and whatever is thrown to neither.
  lemma CompositionExactly(db: Database, p: Prog, q: Prog, active: Option<Level>, asked: seq<Level>, s: State)
    ensures var (r, s') := Eval(db, p, active, asked, s);
      && (r == Ok(Right) ==>
          && Eval(db, Then(p, q), active, asked, s) == Eval(db, q, active, asked, s')
          && Eval(db, OrElse(p, q), active, asked, s) == (r, s'))
      && (r.Ok? && r.value.Left? ==>
          && Eval(db, Then(p, q), active, asked, s) == (r, s')
          && Eval(db, OrElse(p, q), active, asked, s) == Eval(db, q, active, asked, s'))
      && (r.Err? ==>
          && Eval(db, Then(p, q), active, asked, s) == (r, s')
          && Eval(db, OrElse(p, q), active, asked, s) == (r, s')
          && forall e :: Eval(db, TryCatch(p, e), active, asked, s) == (Ok(Left(e)), s'))
      && (r.Ok? ==> forall e :: Eval(db, TryCatch(p, e), active, asked, s) == (r, s'))
  {
    hide Strictness, Retried, RunQuery;
  }

  // ---- What stands of an outermost transaction ----

  datatype Call = Call(db: Database, requested: Option<Level>, body: Prog, asked: seq<Level>, s: State)

  function AttemptsOf(c: Call): (nat, State) -> (Reaction, State) {
    TransactionAttempts(c.db, c.body, LevelOf(c.requested), c.asked)
  }

  function Outcome(c: Call): (Reaction, State) {
    Eval(c.db, Transactional(c.requested, c.body), None, c.asked, c.s)
  }

  // How many attempts the call makes.
  function Tries(c: Call): (n: nat)
    ensures 1 <= n <= MaxRuns(c.db.config)
  {
    RetryOutcome(AttemptsOf(c), IsTransient, c.db.config, c.s);
    RetryWithBackoff(AttemptsOf(c), IsTransient, c.db.config, c.s).attempts
  }

  function Before(c: Call, n: nat): State
    requires n >= 1
  {
    After(AttemptsOf(c), c.s, n - 1)
  }

  function OpenReply(c: Call, n: nat): Reply
    requires n >= 1
  {
    c.db.reply(Before(c, n).asks)
  }

  // What the given computation gives when attempt n enters it.
  function Entered(c: Call, p: Prog, n: nat): (Reaction, State)
    requires n >= 1
  {
    Eval(c.db, p, Some(LevelOf(c.requested)), c.asked + [LevelOf(c.requested)], Opened(Before(c, n)))
  }

  // Attempt n got as far as its commit.
  predicate Commits(c: Call, n: nat)
    requires n >= 1
  {
    OpenReply(c, n).Fine? && Entered(c, c.body, n).0.Ok?
  }

  function CommitReply(c: Call, n: nat): Reply
    requires n >= 1
  {
    c.db.reply(Entered(c, c.body, n).1.asks)
  }

  // The commit took effect although it was reported as failed.
  predicate AckLost(c: Call, n: nat)
    requires n >= 1
  {
    Commits(c, n) && CommitReply(c, n).Failed? && CommitReply(c, n).applied
  }

  predicate Stands(c: Call, n: nat)
    requires n >= 1
  {
    Commits(c, n) && Took(CommitReply(c, n))
  }

  function Writes(c: Call, n: nat): seq<nat>
    requires n >= 1
  {
    Entered(c, c.body, n).1.pending
  }

  // All that the first n attempts committed.
  function Standing(c: Call, n: nat): seq<nat> {
    if n == 0 then [] else Standing(c, n - 1) + if Stands(c, n) then Writes(c, n) else []
  }

  lemma OutermostIsRetried(c: Call)
    ensures Outcome(c) == Retried(c.db, AttemptsOf(c), c.s)
  {
    hide Retried, Strictness;
  }

  lemma AttemptGives(c: Call, n: nat)
    requires n >= 1
    ensures Answer(AttemptsOf(c), c.s, n) ==
      if OpenReply(c, n).Failed? then Err(FaultOf(OpenReply(c, n)))
      else if Commits(c, n) then Reported(CommitReply(c, n), Entered(c, c.body, n).0)
      else Entered(c, c.body, n).0
  {
    hide Eval;
  }

  lemma {:induction false} AttemptsLeave(c: Call, n: nat)
    requires c.s.pending == []
    ensures var x := After(AttemptsOf(c), c.s, n);
      x.pending == [] && x.committed == c.s.committed + Standing(c, n)
  {
    if n > 0 {
      AttemptsLeave(c, n - 1);
      var level := LevelOf(c.requested);
      NestingDoesNotMultiply(c.db, c.body, Some(level), c.asked + [level], Opened(Before(c, n)));
      hide Eval, Standing;
      var added := if Stands(c, n) then Writes(c, n) else [];
      assert After(AttemptsOf(c), c.s, n).committed == Before(c, n).committed + added;
      StandingNext(c, n);
    }
  }

  lemma StandingNext(c: Call, n: nat)
    requires n >= 1
    ensures Standing(c, n) == Standing(c, n - 1) + if Stands(c, n) then Writes(c, n) else []
  {
  }

  // The call leaves exactly the writes of the attempts whose commit took effect. They are the last one, if the call
  // succeeds, and those whose acknowledgement was lost.
  lemma WhatStands(c: Call)
    requires c.s.pending == []
    ensures var (r, s') := Outcome(c);
      var n := Tries(c);
      && s'.committed == c.s.committed + Standing(c, n)
      && (r.Ok? ==> Stands(c, n) && !AckLost(c, n) && r == Entered(c, c.body, n).0)
      && forall k | 1 <= k <= n && !(r.Ok? && k == n) :: Stands(c, k) <==> AckLost(c, k)
  {
    hide Eval, Standing;
    var n := Tries(c);
    OutermostIsRetried(c);
    RetryOutcome(AttemptsOf(c), IsTransient, c.db.config, c.s);
    AttemptsLeave(c, n);
    AttemptGives(c, n);
    forall k | 1 <= k < n ensures Stands(c, k) <==> AckLost(c, k) {
      AttemptGives(c, k);
      assert !Stops(Answer(AttemptsOf(c), c.s, k), IsTransient);
    }
  }

  lemma {:induction false} NothingStands(c: Call, n: nat)
    ensures Standing(c, n) == [] <==> forall k | 1 <= k <= n && Stands(c, k) :: Writes(c, k) == []
  {
    hide Stands, Writes;
    if n > 0 { NothingStands(c, n - 1); }
  }

  // No acknowledgement is lost for a commit that had something to write.
  predicate NoWriteUnacknowledged(c: Call) {
    forall k | 1 <= k <= Tries(c) && AckLost(c, k) :: Writes(c, k) == []
  }

  // All or nothing, exactly while acknowledgements arrive: then, and only then, a call that throws has committed
  // nothing, and one that does not has committed the writes of the single run that gave its result.
  lemma AllOrNothing(c: Call)
    requires c.s.pending == []
    ensures var (r, s') := Outcome(c);
      s'.committed == c.s.committed + (if r.Ok? then Writes(c, Tries(c)) else []) <==> NoWriteUnacknowledged(c)
  {
    WhatStands(c);
    var n := Tries(c);
    var r := Outcome(c).0;
    NothingStands(c, n);
    NothingStands(c, n - 1);
    StandingNext(c, n);
    hide Stands, AckLost, Writes, Outcome, Tries, Standing;
    if r.Ok? {
      SameBase(c.s.committed, Standing(c, n - 1), Writes(c, n));
    } else {
      SameBase(c.s.committed, Standing(c, n), []);
    }
  }

  lemma SameBase(base: seq<nat>, extra: seq<nat>, last: seq<nat>)
    ensures base + (extra + last) == base + last <==> extra == []
  {
    assert |base + (extra + last)| == |base| + |extra| + |last|;
  }

  // ---- `execute` ----

  // The call that `execute` makes of a computation.
  function Exec(c: Call): Call {
    c.(body := Throwing(c.body))
  }

  function Executed(c: Call): (Reaction, State) {
    Eval(c.db, Execute(c.requested, c.body), None, c.asked, c.s)
  }

  // What the computation itself gives in attempt n.
  function Own(c: Call, n: nat): Reaction
    requires n >= 1
  {
    Entered(Exec(c), c.body, n).0
  }

  lemma ThrowingGives(c: Call, n: nat)
    requires n >= 1
    ensures var r := Own(c, n);
      Entered(Exec(c), Exec(c).body, n) ==
      (if r.Ok? && r.value.Left? then Err(Rollback(r.value.error)) else r, Entered(Exec(c), c.body, n).1)
  {
    hide Strictness, RunQuery, Retried;
  }

  lemma SettledOutcome(c: Call)
    ensures var (r, s') := Outcome(Exec(c));
      Executed(c) == (if r.Err? then Ok(Left(ErrorOf(r.error))) else r, s')
  {
    hide Retried, Strictness;
    var p := Transactional(c.requested, Throwing(c.body));
    assert Eval(c.db, p, None, c.asked, c.s) == Outcome(Exec(c));
  }

  // `execute` never throws. A Right comes from a run that itself ended Right. As long as no acknowledgement is lost,
  // and only then, Left means that nothing was committed and Right that the writes of exactly that run were.
  lemma ExecuteIsAllOrNothing(c: Call)
    requires c.s.pending == []
    ensures var (r, s') := Executed(c);
      var n := Tries(Exec(c));
      && r.Ok?
      && (r.value.Right? ==> Stands(Exec(c), n) && Own(c, n) == Ok(Right))
      && (s'.committed == c.s.committed + (if r.value.Right? then Writes(Exec(c), n) else [])
          <==> NoWriteUnacknowledged(Exec(c)))
  {
    hide Eval, Standing, NoWriteUnacknowledged;
    WhatStands(Exec(c));
    AllOrNothing(Exec(c));
    SettledOutcome(c);
    ThrowingGives(c, Tries(Exec(c)));
    hide Outcome, Executed, Tries, Stands, AckLost, Entered;
  }

  // ---- What is retried ----

  predicate FailsTransiently(reply: Reply) {
    reply.Failed? && reply.transient
  }

  // An attempt is followed by another exactly when attempts are left and opening the transaction failed transiently,
  // or the computation threw a transient failure, or it did not throw and the commit failed transiently.
  lemma FollowedByAnother(c: Call, n: nat)
    requires 1 <= n <= Tries(c)
    ensures n < Tries(c) <==>
      && n < MaxRuns(c.db.config)
      && (|| FailsTransiently(OpenReply(c, n))
          || (OpenReply(c, n).Fine? && Entered(c, c.body, n).0 == Err(Transient))
          || (Commits(c, n) && FailsTransiently(CommitReply(c, n))))
  {
    hide Eval, RetryWithBackoff, Before, Entered;
    RetryOutcome(AttemptsOf(c), IsTransient, c.db.config, c.s);
    AttemptGives(c, n);
    assert n < Tries(c) ==> !Stops(Answer(AttemptsOf(c), c.s, n), IsTransient);
  }

  // A Left is never retried: the attempt that gives it is the last, and its error is the outcome.
  lemma LeftEndsTheRetry(c: Call, n: nat, error: string)
    requires 1 <= n <= Tries(Exec(c)) && OpenReply(Exec(c), n).Fine?
    requires Own(c, n) == Ok(Left(error))
    ensures n == Tries(Exec(c)) && Executed(c).0 == Ok(Left(error))
  {
    hide Eval, RetryWithBackoff, Before, Entered;
    ThrowingGives(c, n);
    FollowedByAnother(Exec(c), n);
    AttemptGives(Exec(c), n);
    RetryOutcome(AttemptsOf(Exec(c)), IsTransient, c.db.config, c.s);
    OutermostIsRetried(Exec(c));
    SettledOutcome(c);
  }

  // What `execute` answers, read off its last attempt: the computation's own outcome if it committed, the error it
  // ended in or asked to roll back with, and otherwise one word for a level conflict and one for everything else.
  lemma ExecuteAnswers(c: Call)
    ensures var n := Tries(Exec(c));
      Executed(c).0 == Ok(
        if OpenReply(Exec(c), n).Failed? then Left("unknown_error")
        else match Own(c, n)
          case Ok(Left(error)) => Left(error)
          case Ok(Right) => if CommitReply(Exec(c), n).Fine? then Right else Left("unknown_error")
          case Err(Conflict) => Left("conflicting_isolation_level")
          case Err(Rollback(error)) => Left(error)
          case Err(_) => Left("unknown_error"))
  {
    hide Eval, RetryWithBackoff, Before, Entered;
    var n := Tries(Exec(c));
    ThrowingGives(c, n);
    AttemptGives(Exec(c), n);
    RetryOutcome(AttemptsOf(Exec(c)), IsTransient, c.db.config, c.s);
    OutermostIsRetried(Exec(c));
    SettledOutcome(c);
  }

  // Every query is inside something that turns what it throws into a Left.
  predicate Caught(p: Prog) {
    match p
    case Query(_) => false
    case Reject(_) => true
    case Then(first, second) => Caught(first) && Caught(second)
    case OrElse(first, fallback) => Caught(first) && Caught(fallback)
    case TryCatch(_, _) => true
    case Settled(_) => true
    case Throwing(body) => Caught(body)
    case Transactional(_, body) => Caught(body)
  }

  lemma {:induction false} CaughtHidesFailures(db: Database, p: Prog, level: Level, asked: seq<Level>, s: State)
    requires Caught(p)
    ensures var r := Eval(db, p, Some(level), asked, s).0; r.Ok? || r.error.Conflict? || r.error.Rollback?
  {
    match p
    case Query(_) =>
    case Reject(_) =>
    case Then(first, second) =>
      CaughtHidesFailures(db, first, level, asked, s);
      CaughtHidesFailures(db, second, level, asked, Eval(db, first, Some(level), asked, s).1);
    case OrElse(first, fallback) =>
      CaughtHidesFailures(db, first, level, asked, s);
      CaughtHidesFailures(db, fallback, level, asked, Eval(db, first, Some(level), asked, s).1);
    case TryCatch(_, _) =>
    case Settled(_) =>
    case Throwing(body) => CaughtHidesFailures(db, body, level, asked, s);
    case Transactional(requested, body) => CaughtHidesFailures(db, body, level, asked + [LevelOf(requested)], s);
  }

  // When every query is caught, a failing query ends the transaction, transient or not: an attempt is followed by
  // another only for the sake of its opening or its commit.
  lemma CaughtIsNotRetried(c: Call, n: nat)
    requires Caught(c.body)
    requires 1 <= n <= Tries(Exec(c))
    ensures n < Tries(Exec(c)) <==>
      && n < MaxRuns(c.db.config)
      && (|| FailsTransiently(OpenReply(Exec(c), n))
          || (OpenReply(Exec(c), n).Fine? && Own(c, n) == Ok(Right) && FailsTransiently(CommitReply(Exec(c), n))))
  {
    var level := LevelOf(c.requested);
    CaughtHidesFailures(c.db, c.body, level, c.asked + [level], Opened(Before(Exec(c), n)));
    ThrowingGives(c, n);
    FollowedByAnother(Exec(c), n);
    hide Eval, RetryWithBackoff, Before, Tries, CommitReply, OpenReply;
  }

  // ---- Queries outside transactions ----

  // Which of the first n runs of a query starting at answer `from` took effect.
  function Copies(db: Database, id: nat, from: nat, n: nat): seq<nat> {
    if n == 0 then [] else Copies(db, id, from, n - 1) + if Took(db.reply(from + n - 1)) then [id] else []
  }

  // A query outside transactions writes once for every run that took effect, acknowledged or not; only its last
  // run can be acknowledged.
  lemma QueryWrites(db: Database, id: nat, asked: seq<Level>, s: State) returns (n: nat)
    ensures var (r, s') := Eval(db, Query(id), None, asked, s);
      && 1 <= n <= MaxRuns(db.config)
      && s'.committed == s.committed + Copies(db, id, s.asks, n)
      && s'.trace == s.trace + seq(n, _ => Event(id, None, asked))
      && r == Reported(db.reply(s.asks + n - 1), Ok(Right))
      && forall i | s.asks <= i < s.asks + n - 1 :: FailsTransiently(db.reply(i))
  {
    var attempts := QueryAttempts(db, id, asked);
    hide RetryWithBackoff;
    RetryOutcome(attempts, IsTransient, db.config, s);
    n := RetryWithBackoff(attempts, IsTransient, db.config, s).attempts;
    QueryRuns(db, id, asked, s, n);
    forall i | s.asks <= i < s.asks + n - 1 ensures FailsTransiently(db.reply(i)) {
      QueryRuns(db, id, asked, s, i - s.asks);
      assert !Stops(Answer(attempts, s, i - s.asks + 1), IsTransient);
    }
    QueryRuns(db, id, asked, s, n - 1);
  }

  lemma {:induction false} QueryRuns(db: Database, id: nat, asked: seq<Level>, s: State, n: nat)
    ensures var x := After(QueryAttempts(db, id, asked), s, n);
      && x.asks == s.asks + n && x.committed == s.committed + Copies(db, id, s.asks, n)
      && x.trace == s.trace + seq(n, _ => Event(id, None, asked))
  {
    if n > 0 { QueryRuns(db, id, asked, s, n - 1); }
  }

  // A query inside a transaction runs once, at the transaction's level, and its write waits for the commit.
  lemma QueryInside(db: Database, id: nat, level: Level, asked: seq<Level>, s: State)
    ensures var (r, s') := Eval(db, Query(id), Some(level), asked, s);
      var reply := db.reply(s.asks);
      && r == Reported(reply, Ok(Right))
      && s'.asks == s.asks + 1 && s'.committed == s.committed
      && s'.pending == s.pending + (if Took(reply) then [id] else [])
      && s'.trace == s.trace + [Event(id, Some(level), asked)]
  {
  }

  // ---- Recovering from an inner error ----

  // A nested `execute` that ends Left undoes nothing of what its computation wrote.
  lemma NestedLeftKeepsWrites(
    db: Database, requested: Option<Level>, body: Prog, level: Level, asked: seq<Level>, s: State)
    requires Strictness(LevelOf(requested)) <= Strictness(level)
    requires var r := Eval(db, body, Some(level), asked + [LevelOf(requested)], s).0; r.Ok? && r.value.Left?
    ensures Eval(db, Execute(requested, body), Some(level), asked, s)
      == Eval(db, body, Some(level), asked + [LevelOf(requested)], s)
  {
    var inner := asked + [LevelOf(requested)];
    var (r, s') := Eval(db, body, Some(level), inner, s);
    var thrown := (Err(Rollback(r.value.error)), s');
    assert Eval(db, Throwing(body), Some(level), inner, s) == thrown;
    assert Eval(db, Transactional(requested, Throwing(body)), Some(level), asked, s) == thrown;
  }

  // So a computation that recovers from that Left commits those writes.
  lemma RecoveredLeftIsCommitted(error: string, s: State)
    requires s.pending == []
    ensures var db := Database(_ => Fine, Config(1, 0.0, 1.0, 0.0));
      var inner := Execute(None, Then(Query(1), Reject(error)));
      var (r, s') := Eval(db, Execute(None, OrElse(inner, Query(2))), None, [], s);
      r == Ok(Right) && s'.committed == s.committed + [1, 2]
  {
    var db := Database(_ => Fine, Config(1, 0.0, 1.0, 0.0));
    var c := Call(db, None, OrElse(Execute(None, Then(Query(1), Reject(error))), Query(2)), [], s);
    RecoveringBody(db, error, Opened(s));
    hide Eval, RetryWithBackoff, Strictness;
    WhatStands(Exec(c));
    SettledOutcome(c);
    assert Before(Exec(c), 1) == s;
    assert Entered(Exec(c), Exec(c).body, 1).0 == Ok(Right);
    AttemptGives(Exec(c), 1);
    OutermostIsRetried(Exec(c));
    RetryOutcome(AttemptsOf(Exec(c)), IsTransient, db.config, s);
    StandingNext(Exec(c), 1);
  }

  lemma RecoveringBody(db: Database, error: string, s: State)
    requires s.pending == [] && forall k :: db.reply(k) == Fine
    ensures var body := OrElse(Execute(None, Then(Query(1), Reject(error))), Query(2));
      var (r, s') := Eval(db, Throwing(body), Some(ReadCommitted), [] + [ReadCommitted], s);
      r == Ok(Right) && s'.committed == s.committed && s'.pending == [1, 2]
  {
    var level, outer := Some(ReadCommitted), [] + [ReadCommitted];
    var work := Then(Query(1), Reject(error));
    var s1 := RunQuery(db, 1, level, outer + [ReadCommitted], s).1;
    assert Eval(db, work, level, outer + [ReadCommitted], s) == (Ok(Left(error)), s1);
    NestedLeftKeepsWrites(db, None, work, ReadCommitted, outer, s);
    hide Execute;
    assert Eval(db, Execute(None, work), level, outer, s) == (Ok(Left(error)), s1);
    assert Eval(db, OrElse(Execute(None, work), Query(2)), level, outer, s) == RunQuery(db, 2, level, outer, s1);
  }
}
