/** Families of refresh tokens over every interleaving of logins, refresh requests and revocations. */
module RefreshTokenRuns {
  import opened Wrappers
  import opened Votes
  import opened RefreshTokens

  // seen holds every snapshot any request has read so far; a request may act on any of them at any later time.
  datatype System = System(rows: map<string, Token>, seen: set<(string, Token)>)

  const START := System(map[], {})

  datatype Step =
    | Issue(id: string, family: string, owner: EntityRef, now: int)
    | Read(id: string)
    | Rotate(id: string, snapshot: Token, newId: string, time: int, now: int)
    | RejectReuse(id: string, snapshot: Token, time: int)
    | Revoke(family: string)

  function FamilyIds(rows: map<string, Token>, family: string): set<string> {
    set id | id in rows && rows[id].family == family
  }

  predicate KnownFamily(rows: map<string, Token>, family: string) {
    FamilyIds(rows, family) != {}
  }

  // A refresh acts on a snapshot it read and found eligible, and brings an identifier never issued before.
  predicate MayRotate(sys: System, step: Step)
    requires step.Rotate?
  {
    && (step.id, step.snapshot) in sys.seen
    && CanBeRefreshed(step.snapshot, step.time).Ok?
    && MarkAsUsed(step.snapshot, step.newId, step.now).Ok?
    && step.newId !in sys.rows
  }

  predicate Commits(sys: System, step: Step) {
    step.Rotate? && MayRotate(sys, step) && step.id in sys.rows && sys.rows[step.id].occ == step.snapshot.occ
  }

  function RowsAfter(sys: System, step: Step): map<string, Token> {
    match step
    case Issue(id, family, owner, now) =>
      if id in sys.rows || KnownFamily(sys.rows, family) then sys.rows else sys.rows[id := NewToken(family, owner, now)]
    case Read(_) => sys.rows
    case Rotate(id, snapshot, newId, _, now) =>
      if !MayRotate(sys, step) then sys.rows
      else
        var used := MarkAsUsed(snapshot, newId, now).value;
        var rows := Rotated(sys.rows, id, used, snapshot.occ, newId, NewToken(snapshot.family, snapshot.owner, now));
        if rows.Some? then rows.value else sys.rows
    case RejectReuse(id, snapshot, time) =>
      // A used token shown again after its grace period takes its whole family down.
      if (id, snapshot) in sys.seen && CanBeRefreshed(snapshot, time) == Err(ReuseDetected)
      then FamilyRevoked(sys.rows, snapshot.family)
      else sys.rows
    case Revoke(family) => FamilyRevoked(sys.rows, family)
  }

  function Next(sys: System, step: Step): System {
    var seen :=
      if step.Read? && step.id in sys.rows && Validate(sys.rows[step.id]).Ok?
      then sys.seen + {(step.id, sys.rows[step.id])}
      else sys.seen;
    System(RowsAfter(sys, step), seen)
  }

  function Run(sys: System, steps: seq<Step>): System {
    if steps == [] then sys else Next(Run(sys, steps[..|steps| - 1]), steps[|steps| - 1])
  }

  // ---- The invariant ----

  // A snapshot is older than its row, or is the row.
  ghost predicate SnapshotOk(rows: map<string, Token>, id: string, t: Token) {
    && id in rows
    && t.family == rows[id].family && t.owner == rows[id].owner
    && t.occ <= rows[id].occ
    && (t.occ == rows[id].occ ==> t == rows[id])
  }

  // Pointers only lead to rows created later.
  ghost predicate Ranked(rows: map<string, Token>, rank: map<string, nat>) {
    && rank.Keys == rows.Keys
    && (forall id | id in rows :: rank[id] < |rows|)
    && forall id | id in rows && rows[id].nextTokenId.Some? ::
        var next := rows[id].nextTokenId.value;
        next in rows && rows[next].family == rows[id].family && rank[id] < rank[next]
  }

  ghost predicate Inv(sys: System) {
    && (forall s | s in sys.seen :: SnapshotOk(sys.rows, s.0, s.1))
    && (forall id | id in sys.rows :: Validate(sys.rows[id]).Ok?)
    && exists rank :: Ranked(sys.rows, rank)
  }

  lemma RevokedKeepsRanks(rows: map<string, Token>, family: string, rank: map<string, nat>)
    requires Ranked(rows, rank)
    ensures Ranked(FamilyRevoked(rows, family), rank)
  {
    assert FamilyRevoked(rows, family).Keys == rows.Keys;
    assert |FamilyRevoked(rows, family).Keys| == |rows.Keys|;
  }

  lemma AddedKeepsRanks(rows: map<string, Token>, id: string, t: Token, rank: map<string, nat>)
    requires Ranked(rows, rank) && id !in rows && t.nextTokenId.None?
    ensures Ranked(rows[id := t], rank[id := |rows|])
  {
    assert rows[id := t].Keys == rows.Keys + {id};
    assert |rows[id := t].Keys| == |rows.Keys| + 1;
  }

  lemma RotatedKeepsRanks(
    rows: map<string, Token>, oldId: string, used: Token, newId: string, successor: Token, rank: map<string, nat>)
    requires Ranked(rows, rank) && oldId in rows && newId !in rows
    requires used.family == successor.family == rows[oldId].family
    requires used.nextTokenId == Some(newId) && successor.nextTokenId.None?
    ensures Ranked(rows[oldId := used][newId := successor], rank[newId := |rows|])
  {
    var rows' := rows[oldId := used][newId := successor];
    assert rows'.Keys == rows.Keys + {newId};
    assert |rows'.Keys| == |rows.Keys| + 1;
  }

  // A rotation only ever goes through on the row as it was read.
  lemma CommitActsOnCurrentRow(sys: System, step: Step) returns (used: Token)
    requires Inv(sys) && Commits(sys, step)
    ensures step.snapshot == sys.rows[step.id] && step.newId !in sys.rows && step.newId != step.id
    ensures used.family == step.snapshot.family && used.owner == step.snapshot.owner
    ensures used.nextTokenId == Some(step.newId) && used.status == Used
    ensures RowsAfter(sys, step) ==
      sys.rows[step.id := used][step.newId := NewToken(step.snapshot.family, step.snapshot.owner, step.now)]
    ensures CanBeRefreshed(step.snapshot, step.time).Ok?
  {
    assert SnapshotOk(sys.rows, step.id, step.snapshot);
    used := MarkAsUsed(step.snapshot, step.newId, step.now).value.(occ := step.snapshot.occ + 1);
  }

  // A rotation only ever goes through for a token that was not expired, not revoked and, if it had been used,
  // used no more than half a minute before.
  lemma RotationIsTimely(sys: System, step: Step)
    requires Inv(sys) && Commits(sys, step)
    ensures var t := step.snapshot;
      && step.time <= t.expiresAt
      && t.status != Revoked
      && (t.status == Used ==> t.usedAt.Some? && step.time <= t.usedAt.value + 30_000)
  {
    assert SnapshotOk(sys.rows, step.id, step.snapshot);
    RefreshExactly(step.snapshot, step.time);
  }

  lemma RotationKeepsRanks(sys: System, step: Step, rank: map<string, nat>)
    requires Inv(sys) && Commits(sys, step) && Ranked(sys.rows, rank)
    ensures Ranked(RowsAfter(sys, step), rank[step.newId := |sys.rows|])
  {
    var used := CommitActsOnCurrentRow(sys, step);
    hide Ranked, RowsAfter, Inv;
    RotatedKeepsRanks(sys.rows, step.id, used, step.newId,
                      NewToken(step.snapshot.family, step.snapshot.owner, step.now), rank);
  }

  lemma RanksKept(sys: System, step: Step)
    requires Inv(sys)
    ensures exists rank :: Ranked(RowsAfter(sys, step), rank)
  {
    var rank :| Ranked(sys.rows, rank);
    hide Ranked;
    var rows := RowsAfter(sys, step);
    if rows == sys.rows {
    } else if step.Issue? {
      AddedKeepsRanks(sys.rows, step.id, NewToken(step.family, step.owner, step.now), rank);
    } else if step.Rotate? {
      RotationKeepsRanks(sys, step, rank);
    } else {
      RevokedKeepsRanks(sys.rows, if step.Revoke? then step.family else step.snapshot.family, rank);
    }
  }

  lemma SnapshotsKept(sys: System, step: Step, id: string, t: Token)
    requires Inv(sys) && (id, t) in Next(sys, step).seen
    ensures SnapshotOk(RowsAfter(sys, step), id, t)
  {
    assert (id, t) in sys.seen ==> SnapshotOk(sys.rows, id, t);
    if Commits(sys, step) { assert SnapshotOk(sys.rows, step.id, step.snapshot); }
  }

  lemma RowsStayValid(sys: System, step: Step)
    requires forall id | id in sys.rows :: Validate(sys.rows[id]).Ok?
    ensures forall id | id in RowsAfter(sys, step) :: Validate(RowsAfter(sys, step)[id]).Ok?
  {
    hide KnownFamily;
  }

  lemma InvKept(sys: System, step: Step)
    requires Inv(sys)
    ensures Inv(Next(sys, step))
  {
    RanksKept(sys, step);
    RowsStayValid(sys, step);
    forall s | s in Next(sys, step).seen ensures SnapshotOk(RowsAfter(sys, step), s.0, s.1) {
      SnapshotsKept(sys, step, s.0, s.1);
    }
    hide Ranked, SnapshotOk, RowsAfter, Validate;
  }

  lemma {:induction false} InvOverRun(sys: System, steps: seq<Step>)
    requires Inv(sys)
    ensures Inv(Run(sys, steps))
  {
    if steps != [] {
      InvOverRun(sys, steps[..|steps| - 1]);
      InvKept(Run(sys, steps[..|steps| - 1]), steps[|steps| - 1]);
    }
  }

  lemma StartInv()
    ensures Inv(START)
  {
    assert Ranked(START.rows, map[]);
  }

  // ---- The rows of a family ----

  lemma FamilyIdsRevoked(rows: map<string, Token>, revoked: string, family: string)
    ensures FamilyIds(FamilyRevoked(rows, revoked), family) == FamilyIds(rows, family)
  {
  }

  lemma FamilyIdsAdded(rows: map<string, Token>, id: string, t: Token, family: string)
    requires id !in rows
    ensures FamilyIds(rows[id := t], family) == FamilyIds(rows, family) + if t.family == family then {id} else {}
  {
  }

  lemma FamilyIdsRewritten(rows: map<string, Token>, id: string, t: Token, family: string)
    requires id in rows && t.family == rows[id].family
    ensures FamilyIds(rows[id := t], family) == FamilyIds(rows, family)
  {
  }

  // The identifier a step adds to a family, if any.
  function Joins(sys: System, step: Step, family: string): set<string> {
    if step.Issue? && step.id !in sys.rows && !KnownFamily(sys.rows, step.family) && step.family == family
    then {step.id}
    else if Commits(sys, step) && step.snapshot.family == family then {step.newId}
    else {}
  }

  lemma {:induction false} FamilyStep(sys: System, step: Step, family: string)
    requires Inv(sys)
    ensures FamilyIds(RowsAfter(sys, step), family) == FamilyIds(sys.rows, family) + Joins(sys, step, family)
    ensures FamilyIds(sys.rows, family) !! Joins(sys, step, family)
    ensures Commits(sys, step) && step.snapshot.family == family ==> step.id in FamilyIds(sys.rows, family)
  {
    var rows := RowsAfter(sys, step);
    if Commits(sys, step) {
      var snapshot := step.snapshot;
      var used := CommitActsOnCurrentRow(sys, step);
      FamilyIdsRewritten(sys.rows, step.id, used, family);
      var successor := NewToken(snapshot.family, snapshot.owner, step.now);
      FamilyIdsAdded(sys.rows[step.id := used], step.newId, successor, family);
    } else if rows == sys.rows {
    } else if step.Issue? {
      FamilyIdsAdded(sys.rows, step.id, NewToken(step.family, step.owner, step.now), family);
    } else {
      FamilyIdsRevoked(sys.rows, if step.Revoke? then step.family else step.snapshot.family, family);
    }
  }

  // ---- A revoked family stays dead ----

  ghost predicate Dead(rows: map<string, Token>, family: string) {
    KnownFamily(rows, family) && forall id | id in FamilyIds(rows, family) :: rows[id].status == Revoked
  }

  lemma DeadStaysDeadStep(sys: System, step: Step, family: string)
    requires Inv(sys) && Dead(sys.rows, family)
    ensures Dead(RowsAfter(sys, step), family)
    ensures FamilyIds(RowsAfter(sys, step), family) == FamilyIds(sys.rows, family)
  {
    FamilyStep(sys, step, family);
    if Commits(sys, step) {
      var _ := CommitActsOnCurrentRow(sys, step);
    }
    hide Inv;
  }

  lemma {:induction false} DeadStaysDead(sys: System, steps: seq<Step>, family: string)
    requires Inv(sys) && Dead(sys.rows, family)
    ensures Dead(Run(sys, steps).rows, family)
    ensures FamilyIds(Run(sys, steps).rows, family) == FamilyIds(sys.rows, family)
  {
    if steps != [] {
      var init := steps[..|steps| - 1];
      DeadStaysDead(sys, init, family);
      InvOverRun(sys, init);
      DeadStaysDeadStep(Run(sys, init), steps[|steps| - 1], family);
    }
  }

  // Whatever was read before the revocation and whatever runs after it: no row of the family is ever
  // anything but revoked again, and none is added.
  lemma RevokedForever(before: seq<Step>, family: string, after: seq<Step>)
    requires KnownFamily(Run(START, before).rows, family)
    ensures var dead := Next(Run(START, before), Revoke(family));
      Dead(Run(dead, after).rows, family) && FamilyIds(Run(dead, after).rows, family) == FamilyIds(dead.rows, family)
  {
    var sys := Run(START, before);
    StartInv();
    InvOverRun(START, before);
    InvKept(sys, Revoke(family));
    RevocationKills(sys.rows, family);
    DeadStaysDead(Next(sys, Revoke(family)), after, family);
  }

  lemma RevocationKills(rows: map<string, Token>, family: string)
    requires KnownFamily(rows, family)
    ensures Dead(FamilyRevoked(rows, family), family)
  {
    FamilyIdsRevoked(rows, family, family);
  }

  lemma ReuseIsDetected(sys: System, id: string, snapshot: Token, time: int)
    requires Inv(sys) && (id, snapshot) in sys.seen
    requires snapshot.status == Used && snapshot.usedAt.Some? && time > snapshot.usedAt.value + 30_000
    requires time <= snapshot.expiresAt
    ensures KnownFamily(sys.rows, snapshot.family)
    ensures RowsAfter(sys, RejectReuse(id, snapshot, time)) == FamilyRevoked(sys.rows, snapshot.family)
  {
    assert SnapshotOk(sys.rows, id, snapshot);
    assert id in FamilyIds(sys.rows, snapshot.family);
  }

  // The same for a replayed token: being caught ends its family for good.
  lemma ReuseEndsFamily(before: seq<Step>, id: string, snapshot: Token, time: int, after: seq<Step>)
    requires (id, snapshot) in Run(START, before).seen
    requires snapshot.status == Used && snapshot.usedAt.Some? && time > snapshot.usedAt.value + 30_000
    requires time <= snapshot.expiresAt
    ensures Dead(Run(Next(Run(START, before), RejectReuse(id, snapshot, time)), after).rows, snapshot.family)
  {
    var sys := Run(START, before);
    StartInv();
    InvOverRun(START, before);
    ReuseIsDetected(sys, id, snapshot, time);
    hide Inv, RowsAfter, CanBeRefreshed, Validate;
    InvKept(sys, RejectReuse(id, snapshot, time));
    RevocationKills(sys.rows, snapshot.family);
    DeadStaysDead(Next(sys, RejectReuse(id, snapshot, time)), after, snapshot.family);
  }

  // ---- A family belongs to one owner ----

  ghost predicate OneOwner(rows: map<string, Token>) {
    forall a, b | a in rows && b in rows && rows[a].family == rows[b].family :: rows[a].owner == rows[b].owner
  }

  lemma OneOwnerRotated(sys: System, step: Step)
    requires Inv(sys) && OneOwner(sys.rows) && Commits(sys, step)
    ensures OneOwner(RowsAfter(sys, step))
  {
    var used := CommitActsOnCurrentRow(sys, step);
    hide Inv, Commits, RowsAfter;
  }

  lemma OneOwnerKept(sys: System, step: Step)
    requires Inv(sys) && OneOwner(sys.rows)
    ensures OneOwner(RowsAfter(sys, step))
  {
    if Commits(sys, step) {
      OneOwnerRotated(sys, step);
    } else if step.Issue? && RowsAfter(sys, step) != sys.rows {
      forall id | id in sys.rows ensures sys.rows[id].family != step.family {
        assert id in FamilyIds(sys.rows, sys.rows[id].family);
      }
    }
    hide Inv, CanBeRefreshed, MarkAsUsed;
  }

  // However tokens are rotated, all rows of a family belong to whoever logged in.
  lemma {:induction false} FamilyHasOneOwner(steps: seq<Step>)
    ensures OneOwner(Run(START, steps).rows)
  {
    if steps != [] {
      var init := steps[..|steps| - 1];
      FamilyHasOneOwner(init);
      StartInv();
      InvOverRun(START, init);
      OneOwnerKept(Run(START, init), steps[|steps| - 1]);
    }
  }

  // ---- Rotations are conserved ----

  function Rotations(steps: seq<Step>, family: string): nat {
    if steps == [] then 0
    else
      var init, last := steps[..|steps| - 1], steps[|steps| - 1];
      Rotations(init, family) +
      if Commits(Run(START, init), last) && last.snapshot.family == family then 1 else 0
  }

  // A family has its first row plus one for every rotation that went through.
  lemma {:induction false} FamilySize(steps: seq<Step>, family: string)
    ensures var ids := FamilyIds(Run(START, steps).rows, family);
      if ids == {} then Rotations(steps, family) == 0 else |ids| == 1 + Rotations(steps, family)
  {
    if steps != [] {
      var init, last := steps[..|steps| - 1], steps[|steps| - 1];
      var sys := Run(START, init);
      FamilySize(init, family);
      StartInv();
      InvOverRun(START, init);
      FamilyStep(sys, last, family);
      hide RowsAfter, FamilyIds, Commits;
    }
  }

  // Of all requests that act on the same state of a token, at most one rotates it.
  lemma OneRotationPerOcc(steps: seq<Step>, i: nat, j: nat)
    requires i < j < |steps|
    requires Commits(Run(START, steps[..i]), steps[i]) && Commits(Run(START, steps[..j]), steps[j])
    requires steps[i].id == steps[j].id
    ensures steps[i].snapshot.occ < steps[j].snapshot.occ
  {
    assert steps[..i + 1][..i] == steps[..i];
    OccGrows(steps, i + 1, j, steps[i].id);
  }

  lemma OccNeverFalls(sys: System, step: Step, id: string)
    requires id in sys.rows
    ensures id in RowsAfter(sys, step) && RowsAfter(sys, step)[id].occ >= sys.rows[id].occ
  {
    hide KnownFamily, CanBeRefreshed;
  }

  lemma {:induction false} OccGrows(steps: seq<Step>, i: nat, j: nat, id: string)
    requires i <= j <= |steps| && id in Run(START, steps[..i]).rows
    ensures id in Run(START, steps[..j]).rows
    ensures Run(START, steps[..j]).rows[id].occ >= Run(START, steps[..i]).rows[id].occ
  {
    if i < j {
      OccGrows(steps, i, j - 1, id);
      assert steps[..j][..j - 1] == steps[..j - 1];
      OccNeverFalls(Run(START, steps[..j - 1]), steps[j - 1], id);
      hide RowsAfter;
    }
  }

  // ---- Chains end ----

  ghost predicate Chain(rows: map<string, Token>, p: seq<string>) {
    && (forall k | 0 <= k < |p| :: p[k] in rows)
    && forall k | 0 <= k < |p| - 1 :: rows[p[k]].nextTokenId == Some(p[k + 1])
  }

  // In every reachable state a used token names a successor in its own family, and following successors
  // never takes more steps than there are rows.
  lemma ChainsEnd(steps: seq<Step>, id: string, p: seq<string>)
    requires var rows := Run(START, steps).rows; id in rows && Chain(rows, p)
    ensures var rows := Run(START, steps).rows;
      && Validate(rows[id]).Ok?
      && (rows[id].status == Used ==>
          && rows[id].nextTokenId.Some?
          && rows[id].nextTokenId.value in rows
          && rows[rows[id].nextTokenId.value].family == rows[id].family)
      && |p| <= |rows|
  {
    StartInv();
    InvOverRun(START, steps);
    var rows := Run(START, steps).rows;
    var rank :| Ranked(rows, rank);
    ChainClimbs(rows, rank, p, |p|);
    if p != [] { assert rank[p[|p| - 1]] < |rows|; }
  }

  lemma {:induction false} ChainClimbs(rows: map<string, Token>, rank: map<string, nat>, p: seq<string>, n: nat)
    requires Ranked(rows, rank) && Chain(rows, p) && n <= |p|
    ensures forall k | 0 <= k < n :: rank[p[k]] >= k
  {
    if n > 0 {
      ChainClimbs(rows, rank, p, n - 1);
      if n > 1 { assert rows[p[n - 2]].nextTokenId == Some(p[n - 1]); }
    }
  }
}
