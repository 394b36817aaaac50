/** What the evaluation of a workflow guarantees over whole lists of votes. */
module ReplayTheorems {
  import opened Wrappers
  import opened Votes
  import opened VoteOrder
  import opened ApprovalRules
  import opened Workflows
  import opened VoteReplay
  import RuleValidation

  // ---- The order in which votes are handed in does not matter ----

  // An approval that gives up no group its voter approved before.
  ghost predicate Widens(votes: multiset<Vote>, x: Vote) {
    x.ballot.Approve? &&
    forall w, g | w in votes && Key(w) == Key(x) && w.castedAt < x.castedAt && ApprovesGroup(w.ballot, g) ::
      g in x.ballot.groups
  }

  predicate Contend(x: Vote, y: Vote) {
    !x.ballot.Veto? && !y.ballot.Veto? && x.castedAt == y.castedAt
  }

  ghost predicate HarmlessPair(votes: multiset<Vote>, x: Vote, y: Vote) {
    (x == y && votes[x] == 1) || (Key(x) != Key(y) && Widens(votes, x) && Widens(votes, y))
  }

  // Votes other than vetoes that were cast at the same instant come from different voters and only widen
  // approvals, as first approvals do; vetoes may tie with anything.
  ghost predicate HarmlessTies(votes: multiset<Vote>) {
    forall x, y | x in votes && y in votes && Contend(x, y) :: HarmlessPair(votes, x, y)
  }

  // In particular, votes other than vetoes cast at pairwise different instants.
  lemma DistinctTimesAreHarmless(votes: multiset<Vote>)
    requires forall x, y | x in votes && y in votes && Contend(x, y) :: x == y && votes[x] == 1
    ensures HarmlessTies(votes)
  {
    hide Contend;
  }

  // On such votes, what a voter last said is settled by the votes alone, not by their arrangement.
  lemma {:induction false} SameBagSameBallot(p: seq<Vote>, q: seq<Vote>, k: string)
    requires Sorted(p) && Sorted(q) && multiset(p) == multiset(q) && HarmlessTies(multiset(p))
    ensures Latest(p, k).Some? <==> Latest(q, k).Some?
    ensures Latest(p, k).Some? ==> Latest(p, k).value.ballot == Latest(q, k).value.ballot
  {
    LatestIsCast(p, k);
    LatestIsCast(q, k);
    forall v ensures v in p <==> v in q { assert v in multiset(p) <==> v in multiset(q); }
    if Latest(p, k).Some? {
      var v, w := Latest(p, k).value, Latest(q, k).value;
      LatestIsGreatest(p, k, w);
      LatestIsGreatest(q, k, v);
      assert v in multiset(p) && w in multiset(p);
    }
  }

  lemma {:induction false} LatestIsGreatest(p: seq<Vote>, k: string, v: Vote)
    requires Sorted(p) && v in p && Key(v) == k
    ensures Latest(p, k).Some? && !Before(Latest(p, k).value, v)
  {
    var last := p[|p| - 1];
    if Key(last) != k {
      LatestIsGreatest(p[..|p| - 1], k, v);
    }
  }

  lemma SameBagSameStanding(p: seq<Vote>, q: seq<Vote>, rule: Rule)
    requires Sorted(p) && Sorted(q) && multiset(p) == multiset(q) && HarmlessTies(multiset(p))
    ensures Vetoers(p) == Vetoers(q)
    ensures ApprovedAt(rule, p) <==> ApprovedAt(rule, q)
  {
    forall k ensures k in Voters(p) <==> k in Voters(q) {
      SameBagSameBallot(p, q, k);
      LatestIsCast(p, k);
      LatestIsCast(q, k);
    }
    forall k {
      SameBagSameBallot(p, q, k);
    }
    forall g ensures Approvers(p, g) == Approvers(q, g) { }
    assert |multiset(p)| == |multiset(q)|;
    CoversLocal(rule, ApproverMap(p, VotingGroups(rule)), ApproverMap(q, VotingGroups(rule)));
  }

  // The part of a timeline up to an instant.
  lemma CutAt(s: seq<Vote>, instant: int) returns (n: nat)
    requires Sorted(s)
    ensures n <= |s|
    ensures forall i | 0 <= i < n :: s[i].castedAt <= instant
    ensures forall i | n <= i < |s| :: s[i].castedAt > instant
    ensures forall y :: multiset(s[..n])[y] == if y.castedAt <= instant then multiset(s)[y] else 0
  {
    n := 0;
    while n < |s| && s[n].castedAt <= instant
      invariant n <= |s| && forall i | 0 <= i < n :: s[i].castedAt <= instant
    {
      n := n + 1;
    }
    assert s == s[..n] + s[n..];
    assert multiset(s) == multiset(s[..n]) + multiset(s[n..]);
    forall y ensures multiset(s[..n])[y] == if y.castedAt <= instant then multiset(s)[y] else 0 {
      assert y in multiset(s[..n]) ==> y in s[..n];
      assert y in multiset(s[n..]) ==> y in s[n..];
    }
  }

  lemma LastIsNoVeto(rule: Rule, s: seq<Vote>, n: nat)
    requires 0 < n <= |s| && ApprovedAt(rule, s[..n])
    ensures !s[n - 1].ballot.Veto?
  {
    assert s[..n] == s[..n - 1] + [s[n - 1]];
    VetoersAfter(s[..n - 1], s[n - 1]);
  }

  // A widening approval keeps an approved prefix approved.
  lemma WideningKeepsApproval(rule: Rule, p: seq<Vote>, v: Vote)
    requires ApprovedAt(rule, p) && v.ballot.Approve?
    requires forall g | SaysApprove(p, Key(v), g) :: g in v.ballot.groups
    ensures ApprovedAt(rule, p + [v])
  {
    VetoersAfter(p, v);
    forall g ensures Approvers(p, g) <= Approvers(p + [v], g) {
      ApproversAfter(p, v, g);
    }
    CoversMonotone(rule, ApproverMap(p, VotingGroups(rule)), ApproverMap(p + [v], VotingGroups(rule)));
  }

  lemma TiesWiden(s: seq<Vote>, n: nat)
    requires 0 < n < |s| && Sorted(s) && HarmlessTies(multiset(s))
    requires !s[n - 1].ballot.Veto? && s[n].castedAt == s[n - 1].castedAt
    ensures s[n].ballot.Approve? && forall g | SaysApprove(s[..n], Key(s[n]), g) :: g in s[n].ballot.groups
  {
    var x, y := s[n - 1], s[n];
    assert !Before(y, x);
    HarmlessAt(s, n - 1, n);
    forall g | SaysApprove(s[..n], Key(y), g) ensures g in y.ballot.groups {
      LatestIsCast(s[..n], Key(y));
      var i :| 0 <= i < n && s[i] == Latest(s[..n], Key(y)).value;
      assert !Before(y, s[i]) && s[i] in multiset(s);
      if s[i].castedAt == y.castedAt { HarmlessAt(s, i, n); }
    }
  }

  // Two votes of a timeline that tie come from different voters and widen.
  lemma HarmlessAt(s: seq<Vote>, i: nat, j: nat)
    requires i < j < |s| && HarmlessTies(multiset(s)) && Contend(s[i], s[j])
    ensures Key(s[i]) != Key(s[j]) && Widens(multiset(s), s[i]) && Widens(multiset(s), s[j])
  {
    hide Contend, Widens;
    assert s == s[..j] + s[j..];
    assert multiset(s) == multiset(s[..j]) + multiset(s[j..]);
    assert s[i] in s[..j] && s[j] in s[j..];
    assert s[i] in multiset(s) && s[j] in multiset(s);
    assert HarmlessPair(multiset(s), s[i], s[j]);
  }

  // Approval lasts to the end of the instant it came at.
  lemma {:induction false} ApprovedToTheEnd(rule: Rule, s: seq<Vote>, n: nat, m: nat)
    requires Sorted(s) && HarmlessTies(multiset(s))
    requires 0 < n <= m <= |s| && ApprovedAt(rule, s[..n]) && s[m - 1].castedAt == s[n - 1].castedAt
    ensures ApprovedAt(rule, s[..m])
    decreases m - n
  {
    if n < m {
      hide ApprovedAt, HarmlessTies;
      LastIsNoVeto(rule, s, n);
      assert !Before(s[n], s[n - 1]) && (n == m - 1 || !Before(s[m - 1], s[n]));
      TiesWiden(s, n);
      WideningKeepsApproval(rule, s[..n], s[n]);
      assert s[..n + 1] == s[..n] + [s[n]];
      ApprovedToTheEnd(rule, s, n + 1, m);
    }
  }

  lemma HarmlessInPart(votes: multiset<Vote>, part: multiset<Vote>)
    requires HarmlessTies(votes) && part <= votes
    ensures HarmlessTies(part)
  {
    forall x, y | x in part && y in part && Contend(x, y) ensures HarmlessPair(part, x, y) {
      assert HarmlessPair(votes, x, y);
      assert part[x] <= votes[x];
    }
  }

  lemma EverApprovedTransfers(s: seq<Vote>, t: seq<Vote>, rule: Rule)
    requires Sorted(s) && Sorted(t) && multiset(s) == multiset(t) && HarmlessTies(multiset(s))
    requires EverApproved(rule, s)
    ensures EverApproved(rule, t)
  {
    hide ApprovedAt, HarmlessTies;
    var n :| 0 < n <= |s| && ApprovedAt(rule, s[..n]);
    var instant := s[n - 1].castedAt;
    var m := CutAt(s, instant);
    var k := CutAt(t, instant);
    assert m >= n;
    assert !Before(s[m - 1], s[n - 1]) || m == n;
    hide Before;
    ApprovedToTheEnd(rule, s, n, m);
    assert multiset(s[..m]) == multiset(t[..k]);
    assert |multiset(s[..m])| == |multiset(t[..k])|;
    HarmlessInPart(multiset(s), multiset(s[..m]));
    PrefixSorted(s, m);
    PrefixSorted(t, k);
    SameBagSameStanding(s[..m], t[..k], rule);
  }

  lemma PrefixSorted(s: seq<Vote>, n: nat)
    requires n <= |s| && Sorted(s)
    ensures Sorted(s[..n])
  {
  }

  // Every permutation of the votes evaluates to the same status.
  lemma OrderIndependence(status: Status, expiresAt: int, rule: Rule, votes: seq<Vote>, shuffled: seq<Vote>, now: int)
    requires multiset(votes) == multiset(shuffled) && HarmlessTies(multiset(votes))
    ensures EvaluatedStatus(status, expiresAt, rule, votes, now)
      == EvaluatedStatus(status, expiresAt, rule, shuffled, now)
  {
    var s, t := Timeline(votes), Timeline(shuffled);
    TimelineIsStableSort(votes);
    TimelineIsStableSort(shuffled);
    if EverApproved(rule, s) { EverApprovedTransfers(s, t, rule); }
    if EverApproved(rule, t) { EverApprovedTransfers(t, s, rule); }
    SameBagSameStanding(s, t, rule);
  }

  lemma GroupApprovedAt(rule: Rule, p: seq<Vote>)
    requires rule.Group? && p != [] && forall v | v in p :: !v.ballot.Veto?
    ensures Vetoers(p) == {}
    ensures ApprovedAt(rule, p) <==> |Approvers(p, rule.groupId)| >= rule.minCount
  {
    forall k ensures !SaysVeto(p, k) { LatestIsCast(p, k); }
  }

  lemma ApproversOfThree(x: Vote, y: Vote, z: Vote, g: string)
    ensures Approvers([x], g) == if ApprovesGroup(x.ballot, g) then {Key(x)} else {}
    ensures Approvers([x, y], g) ==
      if ApprovesGroup(y.ballot, g) then Approvers([x], g) + {Key(y)} else Approvers([x], g) - {Key(y)}
    ensures Approvers([x, y, z], g) ==
      if ApprovesGroup(z.ballot, g) then Approvers([x, y], g) + {Key(z)} else Approvers([x, y], g) - {Key(z)}
  {
    assert Approvers([], g) == {};
    assert [x] == [] + [x] && [x, y] == [x] + [y] && [x, y, z] == [x, y] + [z];
    ApproversAfter([], x, g);
    ApproversAfter([x], y, g);
    ApproversAfter([x, y], z, g);
  }

  lemma OutcomeOfThree(rule: Rule, x: Vote, y: Vote, z: Vote)
    requires rule.Group? && !x.ballot.Veto? && !y.ballot.Veto? && !z.ballot.Veto?
    ensures Outcome(rule, [x, y, z]) ==
      if || |Approvers([x], rule.groupId)| >= rule.minCount
         || |Approvers([x, y], rule.groupId)| >= rule.minCount
         || |Approvers([x, y, z], rule.groupId)| >= rule.minCount
      then Approved else EvaluationInProgress
  {
    var s := [x, y, z];
    assert s[..1] == [x] && s[..2] == [x, y] && s[..3] == s;
    forall n | 0 < n <= 3 ensures ApprovedAt(rule, s[..n]) <==> |Approvers(s[..n], rule.groupId)| >= rule.minCount {
      GroupApprovedAt(rule, s[..n]);
    }
    GroupApprovedAt(rule, s);
    hide ApprovedAt, Vetoers, Approvers;
    assert EverApproved(rule, s) <==> ApprovedAt(rule, s[..1]) || ApprovedAt(rule, s[..2]) || ApprovedAt(rule, s[..3]);
  }

  // The condition is needed: an approval and a withdrawal cast in the same instant are played as received.
  lemma TiedVotesCanMatter(first: Vote, joins: Vote, leaves: Vote, g: string, highPrivilege: Option<bool>)
    requires first.castedAt < joins.castedAt == leaves.castedAt
    requires first.ballot == Approve([g]) && joins.ballot == Approve([g]) && leaves.ballot == Withdraw
    requires first.voter == leaves.voter && joins.voter != first.voter
    ensures multiset([first, joins, leaves]) == multiset([first, leaves, joins])
    ensures Outcome(Group(g, 2, highPrivilege), Timeline([first, joins, leaves])) == Approved
    ensures Outcome(Group(g, 2, highPrivilege), Timeline([first, leaves, joins])) == EvaluationInProgress
  {
    hide Outcome, Timeline;
    var rule := Group(g, 2, highPrivilege);
    PlayedInOrder(rule, first, joins, leaves);
    PlayedInOrder(rule, first, leaves, joins);
    NormalizedIdInjective(first.voter, joins.voter);
  }

  // Three votes, none a veto and none before its predecessor, spelled out for a rule on one group.
  lemma PlayedInOrder(rule: Rule, x: Vote, y: Vote, z: Vote)
    requires rule.Group? && !x.ballot.Veto? && !y.ballot.Veto? && !z.ballot.Veto?
    requires x.castedAt <= y.castedAt <= z.castedAt
    ensures var g := rule.groupId;
      var one := if ApprovesGroup(x.ballot, g) then {Key(x)} else {};
      var two := if ApprovesGroup(y.ballot, g) then one + {Key(y)} else one - {Key(y)};
      var three := if ApprovesGroup(z.ballot, g) then two + {Key(z)} else two - {Key(z)};
      Outcome(rule, Timeline([x, y, z])) ==
      if |one| >= rule.minCount || |two| >= rule.minCount || |three| >= rule.minCount
      then Approved else EvaluationInProgress
  {
    TimelineOfSorted([x, y, z]);
    ApproversOfThree(x, y, z, rule.groupId);
    OutcomeOfThree(rule, x, y, z);
  }

  // ---- An approval is never undone by what comes after ----

  lemma ApprovalSurvivesLaterVotes(
    expiresAt: int, rule: Rule, votes: seq<Vote>, later: seq<Vote>, now: int, afterwards: int)
    requires EvaluatedStatus(EvaluationInProgress, expiresAt, rule, votes, now) == Approved
    requires forall v, w | v in votes && w in later :: v.castedAt < w.castedAt
    requires expiresAt >= afterwards
    ensures EvaluatedStatus(EvaluationInProgress, expiresAt, rule, votes + later, afterwards) == Approved
  {
    TimelineOfLater(votes, later);
    var s, t := Timeline(votes), Timeline(votes + later);
    var n :| 0 < n <= |s| && ApprovedAt(rule, s[..n]);
    assert t[..n] == s[..n];
  }

  // ---- Groups the rule does not mention do not matter ----

  function Prune(v: Vote, groups: seq<string>): Vote {
    if v.ballot.Approve? then v.(ballot := Approve(Keep(v.ballot.groups, groups))) else v
  }

  function Keep(gs: seq<string>, groups: seq<string>): seq<string> {
    if gs == [] then [] else (if gs[0] in groups then [gs[0]] else []) + Keep(gs[1..], groups)
  }

  function PruneAll(votes: seq<Vote>, groups: seq<string>): seq<Vote> {
    if votes == [] then [] else [Prune(votes[0], groups)] + PruneAll(votes[1..], groups)
  }

  lemma KeepMembers(gs: seq<string>, groups: seq<string>, g: string)
    ensures g in Keep(gs, groups) <==> g in gs && g in groups
  {
  }

  lemma PruneAllAt(votes: seq<Vote>, groups: seq<string>)
    ensures |PruneAll(votes, groups)| == |votes|
    ensures forall i | 0 <= i < |votes| :: PruneAll(votes, groups)[i] == Prune(votes[i], groups)
  {
  }

  lemma {:induction false} PruneInsert(v: Vote, s: seq<Vote>, groups: seq<string>)
    ensures PruneAll(Insert(v, s), groups) == Insert(Prune(v, groups), PruneAll(s, groups))
  {
    assert ([v] + s)[1..] == s;
    if s != [] {
      assert PruneAll(s, groups)[1..] == PruneAll(s[1..], groups);
      if Before(s[0], v) {
        PruneInsert(v, s[1..], groups);
        assert ([s[0]] + Insert(v, s[1..]))[1..] == Insert(v, s[1..]);
      }
    }
  }

  lemma {:induction false} PruneTimeline(votes: seq<Vote>, groups: seq<string>)
    ensures Timeline(PruneAll(votes, groups)) == PruneAll(Timeline(votes), groups)
  {
    if votes != [] {
      PruneTimeline(votes[1..], groups);
      PruneInsert(votes[0], Timeline(votes[1..]), groups);
      assert PruneAll(votes, groups)[1..] == PruneAll(votes[1..], groups);
    }
  }

  lemma {:induction false} PruneLatest(p: seq<Vote>, groups: seq<string>, k: string)
    ensures Latest(PruneAll(p, groups), k) ==
      if Latest(p, k).Some? then Some(Prune(Latest(p, k).value, groups)) else None
  {
    PruneAllAt(p, groups);
    if p != [] {
      var n := |p| - 1;
      PruneAllAt(p[..n], groups);
      assert PruneAll(p, groups)[..n] == PruneAll(p[..n], groups);
      PruneLatest(p[..n], groups, k);
    }
  }

  lemma PruneStanding(p: seq<Vote>, rule: Rule)
    ensures Vetoers(PruneAll(p, VotingGroups(rule))) == Vetoers(p)
    ensures ApprovedAt(rule, PruneAll(p, VotingGroups(rule))) <==> ApprovedAt(rule, p)
  {
    var groups := VotingGroups(rule);
    var q := PruneAll(p, groups);
    PruneAllAt(p, groups);
    forall k ensures SaysVeto(q, k) <==> SaysVeto(p, k) { PruneLatest(p, groups, k); }
    forall k ensures k in Voters(q) <==> k in Voters(p) {
      PruneLatest(p, groups, k);
      LatestIsCast(p, k);
      LatestIsCast(q, k);
    }
    forall g | g in groups ensures Approvers(q, g) == Approvers(p, g) {
      forall k ensures SaysApprove(q, k, g) <==> SaysApprove(p, k, g) {
        PruneLatest(p, groups, k);
        if Latest(p, k).Some? && Latest(p, k).value.ballot.Approve? {
          KeepMembers(Latest(p, k).value.ballot.groups, groups, g);
        }
      }
    }
    CoversLocal(rule, ApproverMap(p, groups), ApproverMap(q, groups));
  }

  // Dropping from every approval the groups outside the rule changes no evaluation.
  lemma IrrelevantGroups(status: Status, expiresAt: int, rule: Rule, votes: seq<Vote>, now: int)
    ensures EvaluatedStatus(status, expiresAt, rule, PruneAll(votes, VotingGroups(rule)), now)
      == EvaluatedStatus(status, expiresAt, rule, votes, now)
  {
    hide ApprovedAt, Vetoers, Timeline, VotingGroups;
    var groups := VotingGroups(rule);
    var s := Timeline(votes);
    var t := PruneAll(s, groups);
    PruneTimeline(votes, groups);
    PruneAllAt(s, groups);
    forall n | 0 <= n <= |s| ensures ApprovedAt(rule, t[..n]) <==> ApprovedAt(rule, s[..n]) {
      PruneAllAt(s[..n], groups);
      assert t[..n] == PruneAll(s[..n], groups);
      PruneStanding(s[..n], rule);
    }
    PruneStanding(s, rule);
  }

  // ---- Nothing is approved by too few people ----

  // Approved means that at some moment nobody was vetoing and enough distinct voters were standing by an approval.
  lemma ApprovalNeedsVoters(isUuid: string -> bool, expiresAt: int, rule: Rule, votes: seq<Vote>, now: int)
    returns (n: nat, voters: set<string>)
    requires EvaluatedStatus(EvaluationInProgress, expiresAt, rule, votes, now) == Approved
    ensures 0 < n <= |Timeline(votes)|
    ensures |voters| >= MinVoters(rule)
    ensures RuleValidation.WellFormed(isUuid, rule, RuleValidation.MAX_NESTING_DEPTH) ==> |voters| >= 1
    ensures Vetoers(Timeline(votes)[..n]) == {}
    ensures forall k | k in voters :: exists g | g in VotingGroups(rule) :: SaysApprove(Timeline(votes)[..n], k, g)
  {
    var s := Timeline(votes);
    n :| 0 < n <= |s| && ApprovedAt(rule, s[..n]);
    var gv := ApproverMap(s[..n], VotingGroups(rule));
    voters := AllVoters(gv, VotingGroups(rule));
    CoverNeedsVoters(rule, gv);
    if RuleValidation.WellFormed(isUuid, rule, RuleValidation.MAX_NESTING_DEPTH) {
      RuleValidation.WellFormedNeedsSomebody(isUuid, rule, RuleValidation.MAX_NESTING_DEPTH);
    }
  }
}
