/** Database transactions: queries and computations nested in them, retried once at the outermost level. */
module Transactions {
  import opened Wrappers
  import opened Retry

  datatype Level = ReadUncommitted | ReadCommitted | RepeatableRead | Serializable

  function Strictness(level: Level): nat {
    match level
    case ReadUncommitted => 1
    case ReadCommitted => 2
    case RepeatableRead => 3
    case Serializable => 4
  }

  const DEFAULT_LEVEL := ReadCommitted

  // What is thrown: a database failure worth retrying, any other failure, a request for a level stricter than
  // the active one, or a computation that asks for its transaction to be rolled back.
  datatype Fault = Transient | Fatal | Conflict | Rollback(payload: string)

  predicate IsTransient(f: Fault) {
    f.Transient?
  }

  // What a computation that did not throw gives.
  datatype Either = Right | Left(error: string)

  type Reaction = Result<Either, Fault>

  // How the opening of a transaction, a query or a commit is answered. A failure may be reported for something
  // the database did carry out, when only its answer was lost.
  datatype Reply = Fine | Failed(transient: bool, applied: bool)

  datatype Prog =
    | Query(id: nat)
    | Reject(error: string)
    | Then(first: Prog, second: Prog)
    | OrElse(first: Prog, fallback: Prog)
    | TryCatch(body: Prog, error: string)       // whatever is thrown becomes the given Left
    | Throwing(body: Prog)                      // a Left is thrown, to roll back
    | Settled(body: Prog)                       // whatever is thrown becomes the Left that stands for it
    | Transactional(requested: Option<Level>, body: Prog)

  // The transaction manager's `execute`.
  function Execute(requested: Option<Level>, body: Prog): Prog {
    Settled(Transactional(requested, Throwing(body)))
  }

  function ErrorOf(f: Fault): string {
    match f
    case Conflict => "conflicting_isolation_level"
    case Rollback(payload) => payload
    case _ => "unknown_error"
  }

  // One run of a query: the level it ran at, and the levels requested around it, outermost first.
  datatype Event = Event(query: nat, active: Option<Level>, asked: seq<Level>)

  // `asks` counts the database's answers so far; `pending` are the open transaction's writes.
  datatype State = State(asks: nat, committed: seq<nat>, pending: seq<nat>, trace: seq<Event>)

  datatype Database = Database(reply: nat -> Reply, config: Config)

  function FaultOf(reply: Reply): Fault
    requires reply.Failed?
  {
    if reply.transient then Transient else Fatal
  }

  predicate Took(reply: Reply) {
    reply.Fine? || reply.applied
  }

  // What comes of an answer to something that would give `r`.
  function Reported(reply: Reply, r: Reaction): Reaction {
    if reply.Fine? then r else Err(FaultOf(reply))
  }

  function RunQuery(db: Database, id: nat, active: Option<Level>, asked: seq<Level>, s: State): (Reaction, State) {
    var reply := db.reply(s.asks);
    var s' := s.(asks := s.asks + 1, trace := s.trace + [Event(id, active, asked)]);
    (Reported(reply, Ok(Right)),
     if !Took(reply) then s'
     else if active.None? then s'.(committed := s.committed + [id])
     else s'.(pending := s.pending + [id]))
  }

  // The end of a transaction whose computation gave `r` in state `s`: a throw rolls it back, anything else is
  // committed.
  function Finish(db: Database, r: Reaction, s: State): (Reaction, State) {
    if r.Err? then (r, s.(pending := []))
    else
      var reply := db.reply(s.asks);
      var s' := s.(asks := s.asks + 1, pending := []);
      (Reported(reply, r), if Took(reply) then s'.(committed := s.committed + s.pending) else s')
  }

  function LevelOf(requested: Option<Level>): Level {
    if requested.Some? then requested.value else DEFAULT_LEVEL
  }

  function QueryAttempts(db: Database, id: nat, asked: seq<Level>): (nat, State) -> (Reaction, State) {
    (n: nat, x: State) => RunQuery(db, id, None, asked, x)
  }

  // The answer to opening the transaction is spent; nothing is written in it yet.
  function Opened(s: State): State {
    s.(asks := s.asks + 1, pending := [])
  }

  // Each attempt opens a transaction of its own, and enters the computation only once it is open.
  function TransactionAttempts(
    db: Database, body: Prog, level: Level, asked: seq<Level>): (nat, State) -> (Reaction, State)
    decreases body, 1
  {
    (n: nat, x: State) =>
      var reply := db.reply(x.asks);
      var start := Opened(x);
      if reply.Failed? then (Err(FaultOf(reply)), start)
      else
        var (r, end) := Eval(db, body, Some(level), asked + [level], start);
        Finish(db, r, end)
  }

  function Retried(db: Database, attempts: (nat, State) -> (Reaction, State), s: State): (Reaction, State) {
    var o := RetryWithBackoff(attempts, IsTransient, db.config, s);
    (o.result, o.state)
  }

  // `active` is the level of the transaction that is open, if one is.
  function Eval(db: Database, p: Prog, active: Option<Level>, asked: seq<Level>, s: State): (Reaction, State)
    decreases p, 0
  {
    match p
    case Query(id) =>
      if active.Some? then RunQuery(db, id, active, asked, s) else Retried(db, QueryAttempts(db, id, asked), s)
    case Reject(e) => (Ok(Left(e)), s)
    case Then(first, second) =>
      var (r, s') := Eval(db, first, active, asked, s);
      if r == Ok(Right) then Eval(db, second, active, asked, s') else (r, s')
    case OrElse(first, fallback) =>
      var (r, s') := Eval(db, first, active, asked, s);
      if r.Ok? && r.value.Left? then Eval(db, fallback, active, asked, s') else (r, s')
    case TryCatch(body, e) =>
      var (r, s') := Eval(db, body, active, asked, s);
      (if r.Err? then Ok(Left(e)) else r, s')
    case Throwing(body) =>
      var (r, s') := Eval(db, body, active, asked, s);
      (if r.Ok? && r.value.Left? then Err(Rollback(r.value.error)) else r, s')
    case Settled(body) =>
      var (r, s') := Eval(db, body, active, asked, s);
      (if r.Err? then Ok(Left(ErrorOf(r.error))) else r, s')
    case Transactional(requested, body) =>
      var level := LevelOf(requested);
      if active.None? then Retried(db, TransactionAttempts(db, body, level, asked), s)
      else if Strictness(level) > Strictness(active.value) then (Err(Conflict), s)
      else Eval(db, body, active, asked + [level], s)
  }
}
