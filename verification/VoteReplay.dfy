/**
 The evaluation of a workflow's status: votes are sorted and played one at a time into an
 incrementally maintained index, proved here against the plain reading "what did each voter say last".
 */
module VoteReplay {
  import opened Wrappers
  import opened Votes
  import opened VoteOrder
  import opened ApprovalRules
  import opened Workflows

  // ---- The plain reading ----

  // The last thing the voter with this key said in p.
  function Latest(p: seq<Vote>, k: string): Option<Vote> {
    if p == [] then None
    else if Key(p[|p| - 1]) == k then Some(p[|p| - 1])
    else Latest(p[..|p| - 1], k)
  }

  function Voters(p: seq<Vote>): set<string> {
    set v | v in p :: Key(v)
  }

  predicate SaysApprove(p: seq<Vote>, k: string, g: string) {
    Latest(p, k).Some? && ApprovesGroup(Latest(p, k).value.ballot, g)
  }

  predicate SaysVeto(p: seq<Vote>, k: string) {
    Latest(p, k).Some? && Latest(p, k).value.ballot.Veto?
  }

  function Approvers(p: seq<Vote>, g: string): set<string> {
    set k | k in Voters(p) && SaysApprove(p, k, g)
  }

  function Vetoers(p: seq<Vote>): set<string> {
    set k | k in Voters(p) && SaysVeto(p, k)
  }

  function ApproverMap(p: seq<Vote>, groups: seq<string>): map<string, set<string>> {
    map g | g in groups :: Approvers(p, g)
  }

  predicate CoveredBy(rule: Rule, p: seq<Vote>) {
    Covers(rule, ApproverMap(p, VotingGroups(rule)))
  }

  // Right after the last vote of p the workflow may close as approved.
  predicate ApprovedAt(rule: Rule, p: seq<Vote>) {
    p != [] && Vetoers(p) == {} && CoveredBy(rule, p)
  }

  predicate EverApproved(rule: Rule, timeline: seq<Vote>) {
    exists n | 0 < n <= |timeline| :: ApprovedAt(rule, timeline[..n])
  }

  function Outcome(rule: Rule, timeline: seq<Vote>): Status {
    if EverApproved(rule, timeline) then Approved
    else if Vetoers(timeline) != {} then Rejected
    else EvaluationInProgress
  }

  function EvaluatedStatus(status: Status, expiresAt: int, rule: Rule, votes: seq<Vote>, now: int): Status {
    if Terminal(status) then status
    else if expiresAt < now then Expired
    else Outcome(rule, Timeline(votes))
  }

  // Nobody's last word is a veto, and the rule is covered by the last words.
  ghost predicate MayClose(rule: Rule, p: seq<Vote>) {
    (forall k :: !SaysVeto(p, k)) && CoveredBy(rule, p)
  }

  ghost predicate ClosesAtSomeMoment(rule: Rule, timeline: seq<Vote>) {
    exists n | 0 < n <= |timeline| :: MayClose(rule, timeline[..n])
  }

  // What the status of an evaluated workflow says, spelled out.
  ghost predicate StatusMeans(e: Status, status: Status, expiresAt: int, rule: Rule, timeline: seq<Vote>, now: int) {
    && (status == Approved || status == Canceled ==> e == status)
    && (e == Expired <==> status == Expired || (status != Approved && status != Canceled && expiresAt < now))
    && (status != Approved && status != Canceled && e != Expired ==>
        && (e == Approved <==> ClosesAtSomeMoment(rule, timeline))
        && (e == Rejected <==> !ClosesAtSomeMoment(rule, timeline) && exists k :: SaysVeto(timeline, k))
        && (e == Approved || e == Rejected || e == EvaluationInProgress))
  }

  lemma NoVetoers(p: seq<Vote>)
    ensures Vetoers(p) == {} <==> forall k :: !SaysVeto(p, k)
  {
    forall k | SaysVeto(p, k) ensures k in Vetoers(p) { LatestIsCast(p, k); }
  }

  lemma EverApprovedMeans(rule: Rule, timeline: seq<Vote>)
    ensures EverApproved(rule, timeline) <==> ClosesAtSomeMoment(rule, timeline)
  {
    forall n | 0 < n <= |timeline| ensures ApprovedAt(rule, timeline[..n]) <==> MayClose(rule, timeline[..n]) {
      NoVetoers(timeline[..n]);
      hide Vetoers, SaysVeto, CoveredBy;
    }
    hide ApprovedAt, MayClose;
  }

  lemma EvaluatedStatusMeans(status: Status, expiresAt: int, rule: Rule, votes: seq<Vote>, now: int)
    ensures var e := EvaluatedStatus(status, expiresAt, rule, votes, now);
      StatusMeans(e, status, expiresAt, rule, Timeline(votes), now)
  {
    EverApprovedMeans(rule, Timeline(votes));
    NoVetoers(Timeline(votes));
    hide Vetoers, SaysVeto, EverApproved, ClosesAtSomeMoment, Timeline;
  }

  // ---- One more vote ----

  lemma LatestAfter(p: seq<Vote>, v: Vote, k: string)
    ensures Latest(p + [v], k) == if k == Key(v) then Some(v) else Latest(p, k)
  {
    assert (p + [v])[..|p|] == p;
  }

  lemma {:induction false} LatestIsCast(p: seq<Vote>, k: string)
    ensures Latest(p, k).Some? <==> k in Voters(p)
    ensures Latest(p, k).Some? ==> Latest(p, k).value in p && Key(Latest(p, k).value) == k
  {
    if p != [] {
      var init := p[..|p| - 1];
      LatestIsCast(init, k);
      assert p == init + [p[|p| - 1]];
    }
  }

  lemma ApproversAfter(p: seq<Vote>, v: Vote, g: string)
    ensures Approvers(p + [v], g) ==
      (if ApprovesGroup(v.ballot, g) then Approvers(p, g) + {Key(v)} else Approvers(p, g) - {Key(v)})
  {
    var after := Approvers(p + [v], g);
    forall k ensures k in after <==> SaysApprove(p + [v], k, g) { LatestIsCast(p + [v], k); }
    forall k ensures k in Approvers(p, g) <==> SaysApprove(p, k, g) { LatestIsCast(p, k); }
    forall k
      ensures SaysApprove(p + [v], k, g) <==> if k == Key(v) then ApprovesGroup(v.ballot, g) else SaysApprove(p, k, g)
    {
      LatestAfter(p, v, k);
    }
  }

  lemma VetoersAfter(p: seq<Vote>, v: Vote)
    ensures Vetoers(p + [v]) == if v.ballot.Veto? then Vetoers(p) + {Key(v)} else Vetoers(p) - {Key(v)}
  {
    var after := Vetoers(p + [v]);
    forall k ensures k in after <==> SaysVeto(p + [v], k) { LatestIsCast(p + [v], k); }
    forall k ensures k in Vetoers(p) <==> SaysVeto(p, k) { LatestIsCast(p, k); }
    forall k ensures SaysVeto(p + [v], k) <==> if k == Key(v) then v.ballot.Veto? else SaysVeto(p, k) {
      LatestAfter(p, v, k);
    }
  }

  // ---- The incremental index ----

  // activeVoters holds each voter's last vote, withdrawn voters left out.
  ghost predicate IndexesLatest(activeVoters: map<string, Vote>, p: seq<Vote>) {
    forall k :: if Latest(p, k).Some? && !Latest(p, k).value.ballot.Withdraw?
                then k in activeVoters && activeVoters[k] == Latest(p, k).value
                else k !in activeVoters
  }

  ghost predicate IndexesApprovers(groupVoters: map<string, set<string>>, p: seq<Vote>) {
    forall g :: VotersOf(groupVoters, g) == Approvers(p, g)
  }

  // groupVoters once the voter's old approvals are taken out.
  ghost predicate IndexesOthers(groupVoters: map<string, set<string>>, p: seq<Vote>, k: string) {
    forall g :: VotersOf(groupVoters, g) == Approvers(p, g) - {k}
  }

  method RemoveFromGroups(groupVoters: map<string, set<string>>, groups: seq<string>, k: string)
    returns (updated: map<string, set<string>>)
    ensures forall g :: VotersOf(updated, g) == VotersOf(groupVoters, g) - (if g in groups then {k} else {})
  {
    updated := groupVoters;
    for i := 0 to |groups|
      invariant forall g :: VotersOf(updated, g) == VotersOf(groupVoters, g) - (if g in groups[..i] then {k} else {})
    {
      var g := groups[i];
      if g in updated {
        updated := updated[g := updated[g] - {k}];
      }
      assert groups[..i + 1] == groups[..i] + [g];
    }
    assert groups[..|groups|] == groups;
  }

  method AddToGroups(groupVoters: map<string, set<string>>, groups: seq<string>, k: string)
    returns (updated: map<string, set<string>>)
    ensures forall g :: VotersOf(updated, g) == VotersOf(groupVoters, g) + (if g in groups then {k} else {})
  {
    updated := groupVoters;
    for i := 0 to |groups|
      invariant forall g :: VotersOf(updated, g) == VotersOf(groupVoters, g) + (if g in groups[..i] then {k} else {})
    {
      var g := groups[i];
      if g !in updated {
        updated := updated[g := {}];
      }
      updated := updated[g := updated[g] + {k}];
      assert groups[..i + 1] == groups[..i] + [g];
    }
    assert groups[..|groups|] == groups;
  }

  lemma OthersRemain(groupVoters: map<string, set<string>>, cleaned: map<string, set<string>>, p: seq<Vote>, k: string)
    requires IndexesApprovers(groupVoters, p)
    requires var last := Latest(p, k);
      if last.Some? && last.value.ballot.Approve?
      then forall g ::
        VotersOf(cleaned, g) == VotersOf(groupVoters, g) - (if g in last.value.ballot.groups then {k} else {})
      else cleaned == groupVoters
    ensures IndexesOthers(cleaned, p, k)
  {
    forall g ensures VotersOf(cleaned, g) == Approvers(p, g) - {k} {
      assert VotersOf(groupVoters, g) == Approvers(p, g);
      assert k in Approvers(p, g) ==> SaysApprove(p, k, g);
    }
  }

  lemma CoversIsCoveredBy(rule: Rule, groupVoters: map<string, set<string>>, p: seq<Vote>)
    requires IndexesApprovers(groupVoters, p)
    ensures Covers(rule, groupVoters) <==> CoveredBy(rule, p)
  {
    CoversLocal(rule, groupVoters, ApproverMap(p, VotingGroups(rule)));
  }

  ghost predicate Indexes(activeVoters: map<string, Vote>, groupVoters: map<string, set<string>>,
                          activeVetoers: set<string>, p: seq<Vote>) {
    && IndexesLatest(activeVoters, p)
    && IndexesApprovers(groupVoters, p)
    && activeVetoers == Vetoers(p)
  }

  lemma OthersAndVote(cleaned: map<string, set<string>>, updated: map<string, set<string>>, p: seq<Vote>, v: Vote)
    requires IndexesOthers(cleaned, p, Key(v))
    requires forall g ::
      VotersOf(updated, g) == VotersOf(cleaned, g) + (if ApprovesGroup(v.ballot, g) then {Key(v)} else {})
    ensures IndexesApprovers(updated, p + [v])
  {
    forall g ensures VotersOf(updated, g) == Approvers(p + [v], g) {
      ApproversAfter(p, v, g);
    }
  }

  // One turn of the replay: the index of p becomes the index of p followed by the vote.
  method PlayVote(ghost p: seq<Vote>, vote: Vote, activeVoters: map<string, Vote>,
                  groupVoters: map<string, set<string>>, activeVetoers: set<string>)
    returns (voters: map<string, Vote>, groups: map<string, set<string>>, vetoers: set<string>)
    requires Indexes(activeVoters, groupVoters, activeVetoers, p)
    ensures Indexes(voters, groups, vetoers, p + [vote])
  {
    voters, groups, vetoers := activeVoters, groupVoters, activeVetoers;
    var voterKey := Key(vote);

    // The voter's previous vote, whatever it was, stops counting.
    if voterKey in voters {
      var previous := voters[voterKey];
      if previous.ballot.Veto? {
        vetoers := vetoers - {voterKey};
      } else if previous.ballot.Approve? {
        groups := RemoveFromGroups(groups, previous.ballot.groups, voterKey);
      }
    }
    OthersRemain(groupVoters, groups, p, voterKey);
    ghost var cleaned := groups;

    voters := voters[voterKey := vote];
    if vote.ballot.Veto? {
      vetoers := vetoers + {voterKey};
    } else if vote.ballot.Approve? {
      groups := AddToGroups(groups, vote.ballot.groups, voterKey);
    } else {
      voters := voters - {voterKey};
    }
    OthersAndVote(cleaned, groups, p, vote);
    VetoersAfter(p, vote);
    forall k { LatestAfter(p, vote, k); }
  }

  lemma IndexDecides(rule: Rule, activeVoters: map<string, Vote>, groupVoters: map<string, set<string>>,
                     activeVetoers: set<string>, p: seq<Vote>)
    requires Indexes(activeVoters, groupVoters, activeVetoers, p) && p != []
    ensures activeVetoers == Vetoers(p)
    ensures ApprovedAt(rule, p) <==> activeVetoers == {} && Covers(rule, groupVoters)
  {
    CoversIsCoveredBy(rule, groupVoters, p);
  }

  lemma EmptyIndex()
    ensures Indexes(map[], map[], {}, []) && Vetoers([]) == {}
  {
  }

  lemma OutcomeWhenApproved(rule: Rule, timeline: seq<Vote>, n: nat)
    requires 0 < n <= |timeline| && ApprovedAt(rule, timeline[..n])
    ensures Outcome(rule, timeline) == Approved
  {
  }

  // The loop, left as soon as the workflow is approved.
  method Replay(rule: Rule, timeline: seq<Vote>) returns (status: Status)
    ensures status == Outcome(rule, timeline)
  {
    var activeVoters: map<string, Vote> := map[];
    var groupVoters: map<string, set<string>> := map[];
    var activeVetoers: set<string> := {};
    status := EvaluationInProgress;
    EmptyIndex();
    hide Indexes, ApprovedAt, Vetoers, Covers;

    for i := 0 to |timeline|
      invariant Indexes(activeVoters, groupVoters, activeVetoers, timeline[..i])
      invariant activeVetoers == Vetoers(timeline[..i])
      invariant status == if activeVetoers != {} then Rejected else EvaluationInProgress
      invariant forall n | 0 < n <= i :: !ApprovedAt(rule, timeline[..n])
    {
      ghost var next := timeline[..i + 1];
      assert next == timeline[..i] + [timeline[i]];
      activeVoters, groupVoters, activeVetoers :=
        PlayVote(timeline[..i], timeline[i], activeVoters, groupVoters, activeVetoers);
      IndexDecides(rule, activeVoters, groupVoters, activeVetoers, next);

      if |activeVetoers| > 0 {
        status := Rejected;
      } else if Covers(rule, groupVoters) {
        OutcomeWhenApproved(rule, timeline, i + 1);
        return Approved;
      } else {
        status := EvaluationInProgress;
      }
    }
    assert timeline[..|timeline|] == timeline;
  }

  method EvaluateWorkflowStatus(f: Formats, w: Workflow, rule: Rule, votes: seq<Vote>, now: int, stamp: int)
    returns (r: Result<Workflow, WorkflowError>)
    ensures r == ChangeStatus(f, w, EvaluatedStatus(w.status, w.expiresAt, rule, votes, now), stamp)
    ensures r.Ok? ==>
      && !r.value.recalculationRequired && r.value.updatedAt == stamp
      && StatusMeans(r.value.status, w.status, w.expiresAt, rule, Timeline(votes), now)
  {
    EvaluatedStatusMeans(w.status, w.expiresAt, rule, votes, now);
    if Terminal(w.status) {
      return ChangeStatus(f, w, w.status, stamp);
    }
    if w.expiresAt < now {
      return ChangeStatus(f, w, Expired, stamp);
    }
    var currentStatus := Replay(rule, Timeline(votes));
    // Never taken: expiry was ruled out before the replay started.
    if currentStatus == EvaluationInProgress && w.expiresAt < now {
      currentStatus := Expired;
    }
    return ChangeStatus(f, w, currentStatus, stamp);
  }
}
