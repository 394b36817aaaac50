/** Approval rule trees: what they ask for, and when a set of voters meets them. */
module ApprovalRules {
  import opened Wrappers

  datatype Rule =
    | Group(groupId: string, minCount: int, highPrivilege: Option<bool>)
    | And(rules: seq<Rule>)
    | Or(rules: seq<Rule>)

  // An absent group and an empty one are the same thing.
  function VotersOf(groupVoters: map<string, set<string>>, g: string): set<string> {
    if g in groupVoters then groupVoters[g] else {}
  }

  predicate Covers(rule: Rule, groupVoters: map<string, set<string>>) {
    match rule
    case Group(g, n, _) => |VotersOf(groupVoters, g)| >= n
    case And(rs) => forall r | r in rs :: Covers(r, groupVoters)
    case Or(rs) => exists r | r in rs :: Covers(r, groupVoters)
  }

  function VotingGroups(rule: Rule): seq<string> {
    match rule
    case Group(g, _, _) => [g]
    case And(rs) => FlatGroups(rs)
    case Or(rs) => FlatGroups(rs)
  }

  function FlatGroups(rs: seq<Rule>): seq<string> {
    if rs == [] then [] else VotingGroups(rs[0]) + FlatGroups(rs[1..])
  }

  predicate HighPrivilegeRequired(rule: Rule, groupIds: seq<string>) {
    match rule
    case Group(g, _, h) => g in groupIds && h == Some(true)
    case And(rs) => exists r | r in rs :: HighPrivilegeRequired(r, groupIds)
    case Or(rs) => exists r | r in rs :: HighPrivilegeRequired(r, groupIds)
  }

  // The least number of distinct approvers a rule can be met with.
  function MinVoters(rule: Rule): int {
    match rule
    case Group(_, n, _) => n
    case And(rs) => MostOf(rs)
    case Or(rs) => LeastOf(rs)
  }

  function MostOf(rs: seq<Rule>): int {
    if rs == [] then 0
    else
      var m, rest := MinVoters(rs[0]), MostOf(rs[1..]);
      if m > rest then m else rest
  }

  function LeastOf(rs: seq<Rule>): int {
    if rs == [] then 0
    else if |rs| == 1 then MinVoters(rs[0])
    else
      var m, rest := MinVoters(rs[0]), LeastOf(rs[1..]);
      if m < rest then m else rest
  }

  // Everybody who voted for at least one of the groups.
  function AllVoters(groupVoters: map<string, set<string>>, gs: seq<string>): set<string> {
    set g, v | g in gs && v in VotersOf(groupVoters, g) :: v
  }

  lemma FlatGroupsMember(rs: seq<Rule>, r: Rule, g: string)
    requires r in rs && g in VotingGroups(r)
    ensures g in FlatGroups(rs)
  {
    if r != rs[0] {
      FlatGroupsMember(rs[1..], r, g);
    }
  }

  lemma FlatGroupsSource(rs: seq<Rule>, g: string) returns (r: Rule)
    requires g in FlatGroups(rs)
    ensures r in rs && g in VotingGroups(r)
  {
    if g in VotingGroups(rs[0]) {
      r := rs[0];
    } else {
      r := FlatGroupsSource(rs[1..], g);
    }
  }

  // Coverage looks at nothing but the head counts of the rule's own groups, and greater ones never uncover a rule.
  lemma {:induction false} CoversByCounts(rule: Rule, gv: map<string, set<string>>, gv': map<string, set<string>>)
    requires forall g | g in VotingGroups(rule) :: |VotersOf(gv, g)| <= |VotersOf(gv', g)|
    ensures Covers(rule, gv) ==> Covers(rule, gv')
  {
    match rule
    case Group(g, n, _) =>
      assert g in VotingGroups(rule);
    case And(rs) =>
      forall r | r in rs ensures Covers(r, gv) ==> Covers(r, gv') {
        forall g | g in VotingGroups(r) ensures g in VotingGroups(rule) { FlatGroupsMember(rs, r, g); }
        CoversByCounts(r, gv, gv');
      }
    case Or(rs) =>
      forall r | r in rs ensures Covers(r, gv) ==> Covers(r, gv') {
        forall g | g in VotingGroups(r) ensures g in VotingGroups(rule) { FlatGroupsMember(rs, r, g); }
        CoversByCounts(r, gv, gv');
      }
  }

  // In particular, more votes never uncover a rule.
  lemma CoversMonotone(rule: Rule, gv: map<string, set<string>>, gv': map<string, set<string>>)
    requires forall g | g in VotingGroups(rule) :: VotersOf(gv, g) <= VotersOf(gv', g)
    ensures Covers(rule, gv) ==> Covers(rule, gv')
  {
    forall g | g in VotingGroups(rule) ensures |VotersOf(gv, g)| <= |VotersOf(gv', g)| {
      CardinalityMonotone(VotersOf(gv, g), VotersOf(gv', g));
    }
    CoversByCounts(rule, gv, gv');
  }

  lemma CoversLocal(rule: Rule, gv: map<string, set<string>>, gv': map<string, set<string>>)
    requires forall g | g in VotingGroups(rule) :: VotersOf(gv, g) == VotersOf(gv', g)
    ensures Covers(rule, gv) <==> Covers(rule, gv')
  {
    CoversMonotone(rule, gv, gv');
    CoversMonotone(rule, gv', gv);
  }

  lemma CardinalityMonotone<T>(a: set<T>, b: set<T>)
    requires a <= b
    ensures |a| <= |b|
  {
    assert b == a + (b - a);
  }

  // Lower bound: no rule is met by fewer distinct people than it names.
  lemma {:induction false} CoverNeedsVoters(rule: Rule, gv: map<string, set<string>>)
    requires Covers(rule, gv)
    ensures |AllVoters(gv, VotingGroups(rule))| >= MinVoters(rule)
  {
    var all := AllVoters(gv, VotingGroups(rule));
    match rule
    case Group(g, n, _) =>
      assert g in VotingGroups(rule);
      CardinalityMonotone(VotersOf(gv, g), all);
    case And(rs) =>
      forall r | r in rs ensures MinVoters(r) <= |all| {
        CoverNeedsVoters(r, gv);
        ChildVoters(gv, rs, r);
      }
      MostOfBound(rs, |all|);
    case Or(rs) =>
      var r :| r in rs && Covers(r, gv);
      CoverNeedsVoters(r, gv);
      ChildVoters(gv, rs, r);
      LeastOfBound(rs, r);
  }

  lemma ChildVoters(gv: map<string, set<string>>, rs: seq<Rule>, r: Rule)
    requires r in rs
    ensures |AllVoters(gv, VotingGroups(r))| <= |AllVoters(gv, FlatGroups(rs))|
  {
    forall g | g in VotingGroups(r) ensures g in FlatGroups(rs) { FlatGroupsMember(rs, r, g); }
    CardinalityMonotone(AllVoters(gv, VotingGroups(r)), AllVoters(gv, FlatGroups(rs)));
  }

  lemma MostOfBound(rs: seq<Rule>, n: nat)
    requires forall r | r in rs :: MinVoters(r) <= n
    ensures MostOf(rs) <= n
  {
    if rs != [] {
      assert rs[0] in rs;
      MostOfBound(rs[1..], n);
    }
  }

  lemma LeastOfBound(rs: seq<Rule>, r: Rule)
    requires r in rs
    ensures LeastOf(rs) <= MinVoters(r)
  {
    if |rs| > 1 && r != rs[0] {
      LeastOfBound(rs[1..], r);
    }
  }

  // Whether a high-privilege token is needed for a list of groups is decided group by group.
  lemma {:induction false} HighPrivilegeUnion(rule: Rule, a: seq<string>, b: seq<string>)
    ensures HighPrivilegeRequired(rule, a + b) <==> HighPrivilegeRequired(rule, a) || HighPrivilegeRequired(rule, b)
  {
    match rule
    case Group(_, _, _) =>
    case And(rs) => forall r | r in rs { HighPrivilegeUnion(r, a, b); }
    case Or(rs) => forall r | r in rs { HighPrivilegeUnion(r, a, b); }
  }

  // ---- The ways to meet a rule ----

  datatype Demand = Demand(groupId: string, minCount: int)

  // Each way is a set of demands on single groups.
  function Ways(rule: Rule): seq<set<Demand>> {
    match rule
    case Group(g, n, _) => [{Demand(g, n)}]
    case And(rs) => WaysOfAll(rs)
    case Or(rs) => WaysOfAny(rs)
  }

  function WaysOfAny(rs: seq<Rule>): seq<set<Demand>> {
    if rs == [] then [] else Ways(rs[0]) + WaysOfAny(rs[1..])
  }

  function WaysOfAll(rs: seq<Rule>): seq<set<Demand>> {
    if rs == [] then [{}] else Joined(Ways(rs[0]), WaysOfAll(rs[1..]))
  }

  function Joined(a: seq<set<Demand>>, b: seq<set<Demand>>): seq<set<Demand>> {
    if a == [] then [] else JoinedWith(a[0], b) + Joined(a[1..], b)
  }

  function JoinedWith(w: set<Demand>, b: seq<set<Demand>>): seq<set<Demand>> {
    if b == [] then [] else [w + b[0]] + JoinedWith(w, b[1..])
  }

  predicate Meets(gv: map<string, set<string>>, way: set<Demand>) {
    forall d | d in way :: |VotersOf(gv, d.groupId)| >= d.minCount
  }

  predicate MeetsOne(gv: map<string, set<string>>, ways: seq<set<Demand>>) {
    exists w | w in ways :: Meets(gv, w)
  }

  lemma MeetsOneOfTwo(gv: map<string, set<string>>, a: seq<set<Demand>>, b: seq<set<Demand>>)
    ensures MeetsOne(gv, a + b) <==> MeetsOne(gv, a) || MeetsOne(gv, b)
  {
    hide Meets;
    forall w ensures w in a + b <==> w in a || w in b { }
  }

  lemma {:induction false} MeetsJoinedWith(gv: map<string, set<string>>, w: set<Demand>, b: seq<set<Demand>>)
    ensures MeetsOne(gv, JoinedWith(w, b)) <==> Meets(gv, w) && MeetsOne(gv, b)
  {
    if b != [] {
      MeetsJoinedWith(gv, w, b[1..]);
      MeetsOneOfTwo(gv, [w + b[0]], JoinedWith(w, b[1..]));
      MeetsOneOfTwo(gv, [b[0]], b[1..]);
      assert b == [b[0]] + b[1..];
      assert w + b[0] in [w + b[0]] && b[0] in [b[0]];
      assert Meets(gv, w + b[0]) <==> Meets(gv, w) && Meets(gv, b[0]);
    }
  }

  lemma {:induction false} MeetsJoined(gv: map<string, set<string>>, a: seq<set<Demand>>, b: seq<set<Demand>>)
    ensures MeetsOne(gv, Joined(a, b)) <==> MeetsOne(gv, a) && MeetsOne(gv, b)
  {
    hide Meets;
    if a != [] {
      MeetsJoined(gv, a[1..], b);
      MeetsJoinedWith(gv, a[0], b);
      MeetsOneOfTwo(gv, JoinedWith(a[0], b), Joined(a[1..], b));
      MeetsOneOfTwo(gv, [a[0]], a[1..]);
      assert a == [a[0]] + a[1..];
      assert a[0] in [a[0]];
    }
  }

  // A rule is covered exactly if all demands of one of its ways are met.
  lemma {:induction false} CoveredByOneWay(rule: Rule, gv: map<string, set<string>>)
    ensures Covers(rule, gv) <==> MeetsOne(gv, Ways(rule))
    decreases rule, 0
  {
    match rule
    case Group(g, n, _) =>
      assert Demand(g, n) in {Demand(g, n)} && {Demand(g, n)} in Ways(rule);
    case And(rs) => CoveredAll(rs, gv);
    case Or(rs) => CoveredAny(rs, gv);
  }

  lemma {:induction false} CoveredAll(rs: seq<Rule>, gv: map<string, set<string>>)
    ensures (forall r | r in rs :: Covers(r, gv)) <==> MeetsOne(gv, WaysOfAll(rs))
    decreases rs, 1
  {
    if rs == [] {
      assert {} in WaysOfAll(rs) && Meets(gv, {});
    } else {
      CoveredByOneWay(rs[0], gv);
      CoveredAll(rs[1..], gv);
      MeetsJoined(gv, Ways(rs[0]), WaysOfAll(rs[1..]));
      hide Covers;
      assert rs == [rs[0]] + rs[1..];
    }
  }

  lemma {:induction false} CoveredAny(rs: seq<Rule>, gv: map<string, set<string>>)
    ensures (exists r | r in rs :: Covers(r, gv)) <==> MeetsOne(gv, WaysOfAny(rs))
    decreases rs, 1
  {
    if rs != [] {
      CoveredByOneWay(rs[0], gv);
      CoveredAny(rs[1..], gv);
      MeetsOneOfTwo(gv, Ways(rs[0]), WaysOfAny(rs[1..]));
      hide Covers;
      assert rs == [rs[0]] + rs[1..];
    }
  }

  // The rules on single groups a tree is made of.
  function Leaves(rule: Rule): seq<Rule> {
    match rule
    case Group(_, _, _) => [rule]
    case And(rs) => LeavesOf(rs)
    case Or(rs) => LeavesOf(rs)
  }

  function LeavesOf(rs: seq<Rule>): seq<Rule> {
    if rs == [] then [] else Leaves(rs[0]) + LeavesOf(rs[1..])
  }

  predicate Asks(leaf: Rule, groupIds: seq<string>) {
    leaf.Group? && leaf.highPrivilege == Some(true) && leaf.groupId in groupIds
  }

  // A high-privilege token is needed exactly if some leaf on one of the groups explicitly asks for it.
  lemma {:induction false} HighPrivilegeExactly(rule: Rule, groupIds: seq<string>)
    ensures HighPrivilegeRequired(rule, groupIds) <==> exists leaf | leaf in Leaves(rule) :: Asks(leaf, groupIds)
    decreases rule, 0
  {
    match rule
    case Group(_, _, _) => assert rule in Leaves(rule);
    case And(rs) => HighPrivilegeOfAny(rs, groupIds);
    case Or(rs) => HighPrivilegeOfAny(rs, groupIds);
  }

  lemma {:induction false} HighPrivilegeOfAny(rs: seq<Rule>, groupIds: seq<string>)
    ensures (exists r | r in rs :: HighPrivilegeRequired(r, groupIds))
      <==> exists leaf | leaf in LeavesOf(rs) :: Asks(leaf, groupIds)
    decreases rs, 1
  {
    if rs != [] {
      HighPrivilegeExactly(rs[0], groupIds);
      HighPrivilegeOfAny(rs[1..], groupIds);
      hide HighPrivilegeRequired, Asks;
      assert rs == [rs[0]] + rs[1..];
      forall leaf ensures leaf in LeavesOf(rs) <==> leaf in Leaves(rs[0]) || leaf in LeavesOf(rs[1..]) { }
    }
  }
}
