/** Exactly when two orders of votes evaluate alike, whatever the approval rule. */
module OrderExactness {
  import opened Wrappers
  import opened Votes
  import opened VoteOrder
  import opened ApprovalRules
  import opened RuleValidation
  import opened Workflows
  import opened VoteReplay

  // The rules that validate.
  predicate Valid(isUuid: string -> bool, rule: Rule) {
    WellFormed(isUuid, rule, MAX_NESTING_DEPTH)
  }

  // No group that a rule may name has more approvers after p than after q.
  ghost predicate Within(isUuid: string -> bool, p: seq<Vote>, q: seq<Vote>) {
    forall g | isUuid(g) :: |Approvers(p, g)| <= |Approvers(q, g)|
  }

  // Nobody vetoes, and a group that a rule may name has an approver.
  ghost predicate Backed(isUuid: string -> bool, p: seq<Vote>) {
    Vetoers(p) == {} && exists g | isUuid(g) :: Approvers(p, g) != {}
  }

  // Every moment of s at which some rule could be met has a moment of t, free of vetoes, with at least as many
  // approvers in every group.
  ghost predicate Matched(isUuid: string -> bool, s: seq<Vote>, t: seq<Vote>) {
    forall n | 0 < n <= |s| && Backed(isUuid, s[..n]) :: MatchedAt(isUuid, s[..n], t)
  }

  ghost predicate MatchedAt(isUuid: string -> bool, p: seq<Vote>, t: seq<Vote>) {
    exists m | 0 < m <= |t| :: Vetoers(t[..m]) == {} && Within(isUuid, p, t[..m])
  }

  // The condition mentions no rule: it compares vetoers and head counts at the moments of the two timelines.
  ghost predicate Agree(isUuid: string -> bool, s: seq<Vote>, t: seq<Vote>) {
    && Matched(isUuid, s, t)
    && Matched(isUuid, t, s)
    && (Vetoers(s) == {} <==> Vetoers(t) == {})
  }

  // ---- Agreement is enough ----

  lemma {:induction false} GroupsAreUuids(isUuid: string -> bool, rule: Rule, room: int, g: string)
    requires WellFormed(isUuid, rule, room) && g in VotingGroups(rule)
    ensures isUuid(g)
  {
    if !rule.Group? {
      var r := FlatGroupsSource(rule.rules, g);
      GroupsAreUuids(isUuid, r, room - 1, g);
    }
  }

  lemma WithinKeepsCoverage(isUuid: string -> bool, rule: Rule, p: seq<Vote>, q: seq<Vote>)
    requires Valid(isUuid, rule) && Within(isUuid, p, q) && CoveredBy(rule, p)
    ensures CoveredBy(rule, q)
  {
    var groups := VotingGroups(rule);
    forall g | g in groups ensures |VotersOf(ApproverMap(p, groups), g)| <= |VotersOf(ApproverMap(q, groups), g)| {
      GroupsAreUuids(isUuid, rule, MAX_NESTING_DEPTH, g);
    }
    CoversByCounts(rule, ApproverMap(p, groups), ApproverMap(q, groups));
  }

  lemma ApprovedIsBacked(isUuid: string -> bool, rule: Rule, p: seq<Vote>)
    requires Valid(isUuid, rule) && ApprovedAt(rule, p)
    ensures Backed(isUuid, p)
  {
    var groups := VotingGroups(rule);
    var voters := AllVoters(ApproverMap(p, groups), groups);
    WellFormedNeedsSomebody(isUuid, rule, MAX_NESTING_DEPTH);
    CoverNeedsVoters(rule, ApproverMap(p, groups));
    assert |voters| >= 1;
    var k :| k in voters;
    var g :| g in groups && k in VotersOf(ApproverMap(p, groups), g);
    GroupsAreUuids(isUuid, rule, MAX_NESTING_DEPTH, g);
    assert k in Approvers(p, g);
  }

  lemma MatchedTransfersApproval(isUuid: string -> bool, rule: Rule, s: seq<Vote>, t: seq<Vote>)
    requires Valid(isUuid, rule) && Matched(isUuid, s, t) && EverApproved(rule, s)
    ensures EverApproved(rule, t)
  {
    hide Valid, Backed, Within, CoveredBy, Vetoers;
    var n :| 0 < n <= |s| && ApprovedAt(rule, s[..n]);
    ApprovedIsBacked(isUuid, rule, s[..n]);
    var m :| 0 < m <= |t| && Vetoers(t[..m]) == {} && Within(isUuid, s[..n], t[..m]);
    WithinKeepsCoverage(isUuid, rule, s[..n], t[..m]);
    assert ApprovedAt(rule, t[..m]);
  }

  // ---- Agreement is needed ----

  // All groups the votes name.
  function Named(p: seq<Vote>): seq<string> {
    if p == [] then [] else (if p[0].ballot.Approve? then p[0].ballot.groups else []) + Named(p[1..])
  }

  lemma {:induction false} ApprovedGroupIsNamed(p: seq<Vote>, v: Vote, g: string)
    requires v in p && ApprovesGroup(v.ballot, g)
    ensures g in Named(p)
  {
    if v != p[0] { ApprovedGroupIsNamed(p[1..], v, g); }
  }

  // One requirement for each group that has approvers after p: as many as there are.
  function Demands(isUuid: string -> bool, p: seq<Vote>, groups: seq<string>): seq<Rule> {
    if groups == [] then []
    else
      var g := groups[0];
      (if isUuid(g) && Approvers(p, g) != {} then [Group(g, |Approvers(p, g)|, None)] else [])
      + Demands(isUuid, p, groups[1..])
  }

  lemma {:induction false} DemandsAre(isUuid: string -> bool, p: seq<Vote>, groups: seq<string>, r: Rule)
    ensures r in Demands(isUuid, p, groups) <==>
      && r.Group? && r.groupId in groups && isUuid(r.groupId)
      && Approvers(p, r.groupId) != {} && r == Group(r.groupId, |Approvers(p, r.groupId)|, None)
  {
    hide Approvers;
    if groups != [] {
      DemandsAre(isUuid, p, groups[1..], r);
      assert groups == [groups[0]] + groups[1..];
    }
  }

  function DemandOf(isUuid: string -> bool, p: seq<Vote>): Rule {
    And(Demands(isUuid, p, Named(p)))
  }

  lemma DemandsEachGroup(isUuid: string -> bool, p: seq<Vote>, g: string)
    requires isUuid(g) && Approvers(p, g) != {}
    ensures Group(g, |Approvers(p, g)|, None) in Demands(isUuid, p, Named(p))
  {
    var k :| k in Approvers(p, g);
    LatestIsCast(p, k);
    ApprovedGroupIsNamed(p, Latest(p, k).value, g);
    DemandsAre(isUuid, p, Named(p), Group(g, |Approvers(p, g)|, None));
  }

  lemma DemandIsValid(isUuid: string -> bool, p: seq<Vote>)
    requires Backed(isUuid, p)
    ensures Valid(isUuid, DemandOf(isUuid, p))
  {
    var demands := Demands(isUuid, p, Named(p));
    var g :| isUuid(g) && Approvers(p, g) != {};
    DemandsEachGroup(isUuid, p, g);
    hide Approvers;
    forall r | r in demands ensures WellFormed(isUuid, r, MAX_NESTING_DEPTH - 1) {
      DemandsAre(isUuid, p, Named(p), r);
      assert |Approvers(p, r.groupId)| > 0;
    }
  }

  lemma DemandMet(isUuid: string -> bool, p: seq<Vote>, q: seq<Vote>, r: Rule)
    requires r in Demands(isUuid, p, Named(p))
    ensures r.Group? && isUuid(r.groupId)
    ensures Covers(r, ApproverMap(q, VotingGroups(DemandOf(isUuid, p)))) <==>
      |Approvers(p, r.groupId)| <= |Approvers(q, r.groupId)|
  {
    hide Approvers;
    DemandsAre(isUuid, p, Named(p), r);
    FlatGroupsMember(Demands(isUuid, p, Named(p)), r, r.groupId);
  }

  // That rule is met exactly where every group has at least as many approvers as after p.
  lemma DemandMeansWithin(isUuid: string -> bool, p: seq<Vote>, q: seq<Vote>)
    ensures CoveredBy(DemandOf(isUuid, p), q) <==> Within(isUuid, p, q)
  {
    var demands := Demands(isUuid, p, Named(p));
    hide Approvers, ApproverMap, Demands;
    if CoveredBy(DemandOf(isUuid, p), q) {
      forall g | isUuid(g) ensures |Approvers(p, g)| <= |Approvers(q, g)| {
        if Approvers(p, g) != {} {
          DemandsEachGroup(isUuid, p, g);
          DemandMet(isUuid, p, q, Group(g, |Approvers(p, g)|, None));
        }
      }
    }
    if Within(isUuid, p, q) {
      forall r | r in demands ensures Covers(r, ApproverMap(q, VotingGroups(DemandOf(isUuid, p)))) {
        DemandMet(isUuid, p, q, r);
      }
    }
  }

  ghost predicate SameForAllRules(isUuid: string -> bool, s: seq<Vote>, t: seq<Vote>) {
    forall rule | Valid(isUuid, rule) :: Outcome(rule, s) == Outcome(rule, t)
  }

  lemma SameMeansMatched(isUuid: string -> bool, s: seq<Vote>, t: seq<Vote>)
    requires SameForAllRules(isUuid, s, t)
    ensures Matched(isUuid, s, t)
  {
    hide Valid, Within, CoveredBy, Vetoers, DemandOf;
    forall n | 0 < n <= |s| && Backed(isUuid, s[..n]) ensures MatchedAt(isUuid, s[..n], t) {
      var p := s[..n];
      var rule := DemandOf(isUuid, p);
      DemandIsValid(isUuid, p);
      DemandMeansWithin(isUuid, p, p);
      assert Within(isUuid, p, p) by { WithinItself(isUuid, p); }
      assert ApprovedAt(rule, p);
      assert Outcome(rule, t) == Outcome(rule, s) == Approved;
      var m :| 0 < m <= |t| && ApprovedAt(rule, t[..m]);
      DemandMeansWithin(isUuid, p, t[..m]);
    }
  }

  lemma WithinItself(isUuid: string -> bool, p: seq<Vote>)
    ensures Within(isUuid, p, p)
  {
  }

  lemma {:induction false} FewVoters(p: seq<Vote>)
    ensures |Voters(p)| <= |p|
  {
    if p == [] {
      assert Voters(p) == {};
    } else {
      FewVoters(p[1..]);
      assert p == [p[0]] + p[1..];
      assert Voters(p) == Voters(p[1..]) + {Key(p[0])};
    }
  }

  // A group that asks for more people than voted is never satisfied.
  lemma NeverApproved(rule: Rule, s: seq<Vote>)
    requires rule.Group? && rule.minCount > |s|
    ensures !EverApproved(rule, s)
  {
    forall n | 0 < n <= |s| ensures !ApprovedAt(rule, s[..n]) {
      var p := s[..n];
      FewVoters(p);
      CardinalityMonotone(Approvers(p, rule.groupId), Voters(p));
      assert rule.groupId in VotingGroups(rule);
    }
  }

  lemma SameMeansSameVetoes(isUuid: string -> bool, s: seq<Vote>, t: seq<Vote>, groupId: string)
    requires isUuid(groupId) && SameForAllRules(isUuid, s, t)
    ensures Vetoers(s) == {} <==> Vetoers(t) == {}
  {
    hide EverApproved;
    var rule := Group(groupId, |s| + |t| + 1, None);
    assert Valid(isUuid, rule);
    NeverApproved(rule, s);
    NeverApproved(rule, t);
  }

  // ---- The two together ----

  lemma OutcomesAgreeExactly(isUuid: string -> bool, s: seq<Vote>, t: seq<Vote>, groupId: string)
    requires isUuid(groupId)
    ensures SameForAllRules(isUuid, s, t) <==> Agree(isUuid, s, t)
  {
    if SameForAllRules(isUuid, s, t) {
      SameMeansMatched(isUuid, s, t);
      SameMeansMatched(isUuid, t, s);
      SameMeansSameVetoes(isUuid, s, t, groupId);
    } else {
      hide EverApproved, Valid, Vetoers;
      var rule :| Valid(isUuid, rule) && Outcome(rule, s) != Outcome(rule, t);
      if Matched(isUuid, s, t) && EverApproved(rule, s) { MatchedTransfersApproval(isUuid, rule, s, t); }
      if Matched(isUuid, t, s) && EverApproved(rule, t) { MatchedTransfersApproval(isUuid, rule, t, s); }
    }
  }

  ghost predicate EvaluateAlike(
    isUuid: string -> bool, votes: seq<Vote>, shuffled: seq<Vote>, expiresAt: int, now: int)
  {
    forall rule | Valid(isUuid, rule) ::
      EvaluatedStatus(EvaluationInProgress, expiresAt, rule, votes, now)
      == EvaluatedStatus(EvaluationInProgress, expiresAt, rule, shuffled, now)
  }

  // Two orders of votes give an open workflow the same status under every valid rule exactly if their timelines agree.
  lemma OrderIndependentExactly(
    isUuid: string -> bool, votes: seq<Vote>, shuffled: seq<Vote>, expiresAt: int, now: int, groupId: string)
    requires isUuid(groupId) && now <= expiresAt
    ensures EvaluateAlike(isUuid, votes, shuffled, expiresAt, now)
      <==> Agree(isUuid, Timeline(votes), Timeline(shuffled))
  {
    hide Outcome, Valid, Agree;
    OutcomesAgreeExactly(isUuid, Timeline(votes), Timeline(shuffled), groupId);
    forall rule
      ensures EvaluatedStatus(EvaluationInProgress, expiresAt, rule, votes, now) == Outcome(rule, Timeline(votes))
    {
    }
    forall rule
      ensures EvaluatedStatus(EvaluationInProgress, expiresAt, rule, shuffled, now) == Outcome(rule, Timeline(shuffled))
    {
    }
  }

  ghost predicate OrderNeverMatters(isUuid: string -> bool, votes: seq<Vote>, expiresAt: int, now: int) {
    forall shuffled | multiset(shuffled) == multiset(votes) :: EvaluateAlike(isUuid, votes, shuffled, expiresAt, now)
  }

  ghost predicate AllOrdersAgree(isUuid: string -> bool, votes: seq<Vote>) {
    forall shuffled | multiset(shuffled) == multiset(votes) :: Agree(isUuid, Timeline(votes), Timeline(shuffled))
  }

  // So the order never matters exactly if the timelines of all orders agree with that of the given one.
  lemma EveryOrderExactly(isUuid: string -> bool, votes: seq<Vote>, expiresAt: int, now: int, groupId: string)
    requires isUuid(groupId) && now <= expiresAt
    ensures OrderNeverMatters(isUuid, votes, expiresAt, now) <==> AllOrdersAgree(isUuid, votes)
  {
    forall shuffled | multiset(shuffled) == multiset(votes)
      ensures EvaluateAlike(isUuid, votes, shuffled, expiresAt, now)
        <==> Agree(isUuid, Timeline(votes), Timeline(shuffled))
    {
      OrderIndependentExactly(isUuid, votes, shuffled, expiresAt, now, groupId);
    }
    hide EvaluateAlike, Agree, Timeline;
  }
}
