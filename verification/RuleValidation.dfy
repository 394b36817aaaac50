/** Reading approval rules out of untyped JSON, and writing them back. */
module RuleValidation {
  import opened Wrappers
  import opened ApprovalRules

  // A JavaScript value as `unknown` admits it. Number holds finite numbers; NaN and the infinities are NonFinite.
  datatype Json =
    | Undefined
    | Null
    | Bool(b: bool)
    | Number(n: real)
    | NonFinite
    | Str(s: string)
    | Arr(items: seq<Json>)
    | Obj(fields: map<string, Json>)

  datatype RuleError =
    | InvalidRuleType
    | InvalidGroupId
    | InvalidMinCount
    | AndMustHaveRules
    | OrMustHaveRules
    | MaxNestingExceeded
    | MalformedContent

  const MAX_NESTING_DEPTH := 2
  const GROUP_TAG := "GROUP_REQUIREMENT"
  const AND_TAG := "AND"
  const OR_TAG := "OR"

  function Field(fields: map<string, Json>, name: string): Json {
    if name in fields then fields[name] else Undefined
  }

  function Validate(isUuid: string -> bool, data: Json): Result<Rule, RuleError> {
    ValidateAt(isUuid, data, 0)
  }

  function ValidateAt(isUuid: string -> bool, data: Json, depth: nat): Result<Rule, RuleError>
    decreases MAX_NESTING_DEPTH + 1 - depth, 1, 0
  {
    if depth > MAX_NESTING_DEPTH then Err(MaxNestingExceeded)
    else if !data.Obj? || !Field(data.fields, "type").Str? then Err(InvalidRuleType)
    else
      var tag := Field(data.fields, "type").s;
      if tag == GROUP_TAG then ValidateGroup(isUuid, data.fields)
      else if tag == AND_TAG then
        match ValidateChildren(isUuid, Field(data.fields, "rules"), depth, AndMustHaveRules)
        case Ok(rules) => Ok(And(rules))
        case Err(e) => Err(e)
      else if tag == OR_TAG then
        match ValidateChildren(isUuid, Field(data.fields, "rules"), depth, OrMustHaveRules)
        case Ok(rules) => Ok(Or(rules))
        case Err(e) => Err(e)
      else Err(InvalidRuleType)
  }

  function ValidateGroup(isUuid: string -> bool, fields: map<string, Json>): Result<Rule, RuleError> {
    var groupId, minCount := Field(fields, "groupId"), Field(fields, "minCount");
    var high := Field(fields, "requireHighPrivilege");
    if !groupId.Str? then Err(InvalidGroupId)
    else if !isUuid(groupId.s) then Err(InvalidGroupId)
    else if !minCount.Number? || minCount.n.Floor as real != minCount.n then Err(InvalidMinCount)
    else if minCount.n < 1.0 then Err(InvalidMinCount)
    else if high == Undefined then Ok(Group(groupId.s, minCount.n.Floor, None))
    else if !high.Bool? then Err(MalformedContent)
    else Ok(Group(groupId.s, minCount.n.Floor, Some(high.b)))
  }

  function ValidateChildren(isUuid: string -> bool, rules: Json, depth: nat, empty: RuleError)
    : Result<seq<Rule>, RuleError>
    requires depth <= MAX_NESTING_DEPTH
    decreases MAX_NESTING_DEPTH + 1 - depth, 0, 0
  {
    if !rules.Arr? || rules.items == [] then Err(empty) else ValidateAll(isUuid, rules.items, depth + 1)
  }

  // Left-to-right traversal that keeps the first error.
  function ValidateAll(isUuid: string -> bool, items: seq<Json>, depth: nat): (r: Result<seq<Rule>, RuleError>)
    requires depth <= MAX_NESTING_DEPTH + 1
    ensures r.Ok? ==> |r.value| == |items|
    decreases MAX_NESTING_DEPTH + 1 - depth, 2, |items|
  {
    if items == [] then Ok([])
    else
      match ValidateAt(isUuid, items[0], depth)
      case Err(e) => Err(e)
      case Ok(first) =>
        match ValidateAll(isUuid, items[1..], depth)
        case Err(e) => Err(e)
        case Ok(rest) => Ok([first] + rest)
  }

  function ToApi(rule: Rule): Json {
    match rule
    case Group(g, n, h) =>
      var base := map["type" := Str(GROUP_TAG), "groupId" := Str(g), "minCount" := Number(n as real)];
      Obj(if h.Some? then base["requireHighPrivilege" := Bool(h.value)] else base)
    case And(rs) => Obj(map["type" := Str(AND_TAG), "rules" := Arr(ToApiAll(rs))])
    case Or(rs) => Obj(map["type" := Str(OR_TAG), "rules" := Arr(ToApiAll(rs))])
  }

  function ToApiAll(rs: seq<Rule>): (items: seq<Json>)
    ensures |items| == |rs|
    ensures forall i | 0 <= i < |rs| :: items[i] == ToApi(rs[i])
  {
    if rs == [] then [] else [ToApi(rs[0])] + ToApiAll(rs[1..])
  }

  // The trees the domain allows, with no mention of JSON or of the order of checks.
  predicate WellFormed(isUuid: string -> bool, rule: Rule, room: int) {
    room >= 0 &&
    match rule
    case Group(g, n, _) => isUuid(g) && n >= 1
    case And(rs) => rs != [] && forall r | r in rs :: WellFormed(isUuid, r, room - 1)
    case Or(rs) => rs != [] && forall r | r in rs :: WellFormed(isUuid, r, room - 1)
  }

  // What it means for a JSON value to say a rule; unknown extra fields say nothing.
  predicate Says(data: Json, rule: Rule)
    decreases rule
  {
    data.Obj? &&
    match rule
    case Group(g, n, h) =>
      && Field(data.fields, "type") == Str("GROUP_REQUIREMENT")
      && Field(data.fields, "groupId") == Str(g)
      && Field(data.fields, "minCount") == Number(n as real)
      && Field(data.fields, "requireHighPrivilege") == (if h.Some? then Bool(h.value) else Undefined)
    case And(rs) =>
      && Field(data.fields, "type") == Str("AND")
      && SaysAll(Field(data.fields, "rules"), rs)
    case Or(rs) =>
      && Field(data.fields, "type") == Str("OR")
      && SaysAll(Field(data.fields, "rules"), rs)
  }

  predicate SaysAll(data: Json, rs: seq<Rule>)
    decreases rs
  {
    && data.Arr?
    && |data.items| == |rs|
    && forall i | 0 <= i < |rs| :: Says(data.items[i], rs[i])
  }

  // Validation accepts a value as a rule exactly when the value says that rule and the rule is well formed.
  lemma ValidateExact(isUuid: string -> bool, data: Json, rule: Rule)
    ensures Validate(isUuid, data) == Ok(rule) <==> Says(data, rule) && WellFormed(isUuid, rule, 2)
  {
    ValidateAtExact(isUuid, data, 0, rule);
  }

  lemma {:induction false} ValidateAtExact(isUuid: string -> bool, data: Json, depth: nat, rule: Rule)
    ensures ValidateAt(isUuid, data, depth) == Ok(rule)
      <==> Says(data, rule) && WellFormed(isUuid, rule, MAX_NESTING_DEPTH - depth)
    decreases rule, 0
  {
    if depth <= MAX_NESTING_DEPTH && data.Obj? && !rule.Group? {
      var children := Field(data.fields, "rules");
      if children.Arr? {
        ValidateAllExact(isUuid, children.items, depth + 1, rule.rules);
      }
    }
  }

  lemma {:induction false} ValidateAllExact(isUuid: string -> bool, items: seq<Json>, depth: nat, rs: seq<Rule>)
    requires depth <= MAX_NESTING_DEPTH + 1
    ensures ValidateAll(isUuid, items, depth) == Ok(rs)
      <==> SaysAll(Arr(items), rs) && forall r | r in rs :: WellFormed(isUuid, r, MAX_NESTING_DEPTH - depth)
    decreases rs, 1
  {
    if items != [] && rs != [] {
      ValidateAtExact(isUuid, items[0], depth, rs[0]);
      ValidateAllExact(isUuid, items[1..], depth, rs[1..]);
      var first, rest := ValidateAt(isUuid, items[0], depth), ValidateAll(isUuid, items[1..], depth);
      assert rs == [rs[0]] + rs[1..];
      assert ValidateAll(isUuid, items, depth) == Ok(rs) <==> first == Ok(rs[0]) && rest == Ok(rs[1..]) by {
        if first.Ok? && rest.Ok? {
          assert ([first.value] + rest.value)[0] == first.value && ([first.value] + rest.value)[1..] == rest.value;
        }
      }
      forall r | r in rs ensures r == rs[0] || r in rs[1..] { }
      forall r | r in rs[1..] ensures r in rs { }
      assert rs[0] in rs;
      assert SaysAll(Arr(items), rs) <==> Says(items[0], rs[0]) && SaysAll(Arr(items[1..]), rs[1..]) by {
        if Says(items[0], rs[0]) && SaysAll(Arr(items[1..]), rs[1..]) {
          forall i | 0 <= i < |rs| ensures Says(items[i], rs[i]) {
            if i > 0 { assert items[1..][i - 1] == items[i] && rs[1..][i - 1] == rs[i]; }
          }
        }
        if SaysAll(Arr(items), rs) {
          forall i | 0 <= i < |rs| - 1 ensures Says(items[1..][i], rs[1..][i]) { }
        }
      }
    }
  }

  lemma {:induction false} ApiSays(rule: Rule)
    ensures Says(ToApi(rule), rule)
  {
    if !rule.Group? {
      forall i | 0 <= i < |rule.rules| { ApiSays(rule.rules[i]); }
    }
  }

  // Round trip: a validated rule survives being sent out through the API and validated again.
  lemma RoundTrip(isUuid: string -> bool, data: Json, rule: Rule)
    requires Validate(isUuid, data) == Ok(rule)
    ensures Validate(isUuid, ToApi(rule)) == Ok(rule)
  {
    ValidateExact(isUuid, data, rule);
    ApiSays(rule);
    ValidateExact(isUuid, ToApi(rule), rule);
  }

  // A validated rule can never be met by nobody.
  lemma {:induction false} WellFormedNeedsSomebody(isUuid: string -> bool, rule: Rule, room: int)
    requires WellFormed(isUuid, rule, room)
    ensures MinVoters(rule) >= 1
  {
    match rule
    case Group(_, _, _) =>
    case And(rs) => NeedsSomebodyAll(isUuid, rs, room - 1);
    case Or(rs) => NeedsSomebodyAll(isUuid, rs, room - 1);
  }

  lemma {:induction false} NeedsSomebodyAll(isUuid: string -> bool, rs: seq<Rule>, room: int)
    requires rs != [] && forall r | r in rs :: WellFormed(isUuid, r, room)
    ensures MostOf(rs) >= 1 && LeastOf(rs) >= 1
  {
    WellFormedNeedsSomebody(isUuid, rs[0], room);
    if |rs| > 1 {
      NeedsSomebodyAll(isUuid, rs[1..], room);
    }
  }

  // The counterpart of the lower bound: a rule is met once each of its groups has that many voters.
  lemma {:induction false} EnoughVotersCover(
    isUuid: string -> bool, rule: Rule, room: int, gv: map<string, set<string>>)
    requires WellFormed(isUuid, rule, room)
    requires forall g | g in VotingGroups(rule) :: |VotersOf(gv, g)| >= MinVoters(rule)
    ensures Covers(rule, gv)
  {
    match rule
    case Group(g, _, _) => assert g in VotingGroups(rule);
    case And(rs) =>
      forall r | r in rs ensures Covers(r, gv) {
        MostOfIsMost(rs, r);
        forall g | g in VotingGroups(r) ensures g in VotingGroups(rule) { FlatGroupsMember(rs, r, g); }
        EnoughVotersCover(isUuid, r, room - 1, gv);
      }
    case Or(rs) =>
      var r := LeastOfIsOne(rs);
      forall g | g in VotingGroups(r) ensures g in VotingGroups(rule) { FlatGroupsMember(rs, r, g); }
      EnoughVotersCover(isUuid, r, room - 1, gv);
  }

  lemma {:induction false} MostOfIsMost(rs: seq<Rule>, r: Rule)
    requires r in rs
    ensures MinVoters(r) <= MostOf(rs)
  {
    if r != rs[0] { MostOfIsMost(rs[1..], r); }
  }

  lemma {:induction false} LeastOfIsOne(rs: seq<Rule>) returns (r: Rule)
    requires rs != []
    ensures r in rs && MinVoters(r) == LeastOf(rs)
  {
    r := rs[0];
    if |rs| > 1 && LeastOf(rs[1..]) < MinVoters(r) {
      r := LeastOfIsOne(rs[1..]);
    }
  }

  // ---- Which error ----

  // What is wrong with a node itself, its children aside.
  function OwnProblem(isUuid: string -> bool, data: Json, depth: nat): Option<RuleError> {
    if depth > 2 then Some(MaxNestingExceeded)
    else if !data.Obj? then Some(InvalidRuleType)
    else
      var tag, rules := Field(data.fields, "type"), Field(data.fields, "rules");
      if tag == Str("GROUP_REQUIREMENT") then GroupProblem(isUuid, data.fields)
      else if tag == Str("AND") then (if rules.Arr? && rules.items != [] then None else Some(AndMustHaveRules))
      else if tag == Str("OR") then (if rules.Arr? && rules.items != [] then None else Some(OrMustHaveRules))
      else Some(InvalidRuleType)
  }

  function GroupProblem(isUuid: string -> bool, fields: map<string, Json>): Option<RuleError> {
    var groupId, minCount := Field(fields, "groupId"), Field(fields, "minCount");
    var high := Field(fields, "requireHighPrivilege");
    if !(groupId.Str? && isUuid(groupId.s)) then Some(InvalidGroupId)
    else if !minCount.Number? || minCount.n < 1.0 || minCount.n.Floor as real != minCount.n then Some(InvalidMinCount)
    else if high != Undefined && !high.Bool? then Some(MalformedContent)
    else None
  }

  // Everything that is wrong with a value, node by node in reading order; nothing is said of what is below a bad node.
  function Problems(isUuid: string -> bool, data: Json, depth: nat): seq<RuleError>
    decreases 3 - depth, 1, 0
  {
    var own := OwnProblem(isUuid, data, depth);
    if own.Some? then [own.value]
    else if Field(data.fields, "type") == Str("GROUP_REQUIREMENT") then []
    else ProblemsOfAll(isUuid, Field(data.fields, "rules").items, depth + 1)
  }

  function ProblemsOfAll(isUuid: string -> bool, items: seq<Json>, depth: nat): seq<RuleError>
    requires depth <= 3
    decreases 3 - depth, 2, |items|
  {
    if items == [] then []
    else Problems(isUuid, items[0], depth) + ProblemsOfAll(isUuid, items[1..], depth)
  }

  // Validation reports the first problem in reading order, and accepts a value that has none.
  lemma ErrorIsFirstProblem(isUuid: string -> bool, data: Json)
    ensures var problems := Problems(isUuid, data, 0);
      if problems == [] then Validate(isUuid, data).Ok? else Validate(isUuid, data) == Err(problems[0])
  {
    FirstProblemAt(isUuid, data, 0);
  }

  lemma {:induction false} FirstProblemAt(isUuid: string -> bool, data: Json, depth: nat)
    ensures var problems := Problems(isUuid, data, depth);
      if problems == [] then ValidateAt(isUuid, data, depth).Ok?
      else ValidateAt(isUuid, data, depth) == Err(problems[0])
    decreases 3 - depth, 1, 0
  {
    var own := OwnProblem(isUuid, data, depth);
    if own.None? && Field(data.fields, "type") != Str("GROUP_REQUIREMENT") {
      FirstProblemOfAll(isUuid, Field(data.fields, "rules").items, depth + 1);
    }
  }

  lemma {:induction false} FirstProblemOfAll(isUuid: string -> bool, items: seq<Json>, depth: nat)
    requires depth <= 3
    ensures var problems := ProblemsOfAll(isUuid, items, depth);
      if problems == [] then ValidateAll(isUuid, items, depth).Ok?
      else ValidateAll(isUuid, items, depth) == Err(problems[0])
    decreases 3 - depth, 2, |items|
  {
    if items != [] {
      FirstProblemAt(isUuid, items[0], depth);
      FirstProblemOfAll(isUuid, items[1..], depth);
      hide Problems, ValidateAt;
    }
  }
}
