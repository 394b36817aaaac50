# Approval workflows: a verified model

A Dafny model of the stateful core of an approval-workflow backend, with proofs about it:

- **Vote replay.** A workflow's status is found by sorting its votes and playing them one at a time into an
  incrementally maintained index (`VoteOrder`, `Votes`, `ApprovalRules`, `Workflows`, `VoteReplay`). The loop is
  proved against a plain reading, "what did each voter say last, at each moment", and theorems about whole vote lists
  follow (`ReplayTheorems`, `OrderExactness`). `RuleValidation` reads rule trees out of untyped JSON and prints them back.
- **Optimistic concurrency.** The workflow row shared by voters, recalculation jobs, the expiration sweep and
  template deprecation (`WorkflowRecalculation`); task rows locked, updated and released by many workers (`TaskRows`,
  `TaskRuns`); families of rotating refresh tokens (`RefreshTokens`, `RefreshTokenRuns`; refresh token rotation as in
  section 10.4 of RFC 6749 and section 4.14.2 of RFC 9700). Each statement or transaction is one atomic step; theorems
  hold for every interleaving of any number of participants. What the source keeps in rows is kept in classes whose
  methods are proved against the step functions the run theorems are about.
- **Keyset pagination** over an append-only audit log, page by page while rows arrive (`AuditLog`, `AuditLogWalk`).
- **Roles and groups.** Consolidation by text key against the pairwise duplicate check (`JsonText`, `Roles`,
  `RoleTheorems`), and groups that never lose their last administrator (`GroupMemberships`).
- **Retry and transactions.** Back-off (`Retry`), and trees of queries, nested transactions and recoveries run against
  an arbitrary database (`Transactions`, `TransactionTheorems`).

The clock, identifiers, the database's answers and string formats are parameters.

## What the code does not promise

Some expected properties do not hold of the code. Each is settled here by a concrete run, and where there is a
condition under which the property holds, it is proved, in both directions where that says more:

- Approvals or withdrawals cast at the same millisecond can make the outcome depend on the order the database returns
  them in (`TiedVotesCanMatter`). Two orders give the same status under every valid rule iff their timelines agree:
  each moment without vetoes at which some group has approvers is matched in the other timeline by a moment without
  vetoes with at least as many approvers in every group, and both end with or without vetoes
  (`OrderIndependentExactly`; for all orders of a list of votes `EveryOrderExactly`). A simple case in which they always
  do: votes other than vetoes that tie come from different voters and only widen what those voters approved before, as
  first approvals do (`OrderIndependence`), or do not tie at all (`DistinctTimesAreHarmless`).
- Cancelling a workflow neither bumps `occ` nor lowers the flag. If a vote is still to be counted when the cancellation
  lands, the flag masks it, so even a recalculation that starts afterwards erases it (`CancellationCanBeLost`); so does
  a recalculation that loaded the row before. A cancelled workflow stays cancelled, as long as no vote is cast and no
  sweep comes by, iff the flag is down and every job at the row's `occ` saw it cancelled (`CancellationLastsExactly`);
  a later vote or sweep ends that (`LateStepUnprotects`).
- Workers read a task, then lock it, then write what they computed from the first read under the `occ` of the lock.
  A failure recorded in between is then not counted (`UncheckedUpdateIsLost`). A worker can tell that its snapshot is
  still good by comparing the two `occ` values and the lock holder it read, and no weaker check is enough, even if every
  write is one the workers make (`FreshExactly`); with that check no update is lost (`NoLostUpdates`).
- A failed conditional write is explained by the read that follows it, however the others go on, iff its `occ` lies
  below the least one at which its owner can still come to hold the lock (`ExplainedExactly`). An `occ` that was ever
  on the row is below it once the write has failed, so the error stays unknown only for an `occ` that no call has
  returned yet (`FailureIsExplained`, `FailureIsKnown`). Callers carry only what `lockTask` or an update returned.
- A scope spelled with its properties in another order passes the text-key deduplication and then makes the pairwise
  check fail (`RespelledScopeIsDuplicate`); the check fires after consolidation iff such a pair is there
  (`DuplicatesAfterConsolidation`).
- A transaction nested in another does not undo its writes when it ends in an error the outer computation recovers from
  (`RecoveredLeftIsCommitted`).
- When a computation handed to `execute` catches the failures of all its queries, a transient failure of a query ends
  the transaction; only a transaction that fails to open or to commit is retried (`CaughtIsNotRetried`). A comment in
  `database-client.ts` suggests the enclosing transaction's retry handles the query's failure. That is so only where the
  failure is caught outside the transaction, as in `vote.repository.ts` when it runs on its own.
- A commit, or a query outside transactions, can take effect and still be reported as a transient failure, and is then
  run again. A transaction is all or nothing iff no such acknowledgement is lost for an attempt that wrote something
  (`AllOrNothing`); otherwise the writes of each such attempt stand too, at most the retry limit in all (`WhatStands`,
  `QueryWrites`).
- A completed webhook or Slack row is stored without the response its validation asks for and cannot be read back as a
  task; a completed e-mail row can (`ReadFailsOnlyWhenDone`).

## Model

| member | source | states |
|---|---|---|
| Votes.NormalizedIdInjective | app/domain/src/authenticated-entity.ts:72-80 | Two entities share a voter key iff they are the same entity, whatever their identifiers are. |
| VoteOrder.BeforeIsStrictWeakOrder | app/domain/src/workflows.ts:194-202 | The vote comparator is a strict weak order, and it ties exactly votes of one instant that are both vetoes or both not. |
| VoteOrder.TimelineIsStableSort | app/domain/src/workflows.ts:193-202 | The timeline is sorted, holds the same votes, and keeps tied votes in their received order. |
| VoteOrder.StableSortUnique | app/domain/src/workflows.ts:193-202 | Any stable sort with this comparator gives that very timeline. |
| VoteOrder.TimelineOfLater | app/domain/src/workflows.ts:193-202 | Votes cast strictly later only extend the timeline. |
| ApprovalRules.CoversByCounts | app/domain/src/approval-rules.ts:184-205 | Coverage looks only at how many voters the rule's own groups have, and greater numbers never uncover a rule. |
| ApprovalRules.CoversMonotone | app/domain/src/approval-rules.ts:184-205 | More voters in the rule's own groups never uncover a rule. |
| ApprovalRules.CoversLocal | app/domain/src/approval-rules.ts:184-205 | Coverage depends on the rule's own groups alone, an absent group counting as an empty one. |
| ApprovalRules.CoverNeedsVoters | app/domain/src/approval-rules.ts:184-205 | A covered rule has at least as many distinct voters in its groups as it names: the count at a leaf, the largest of AND, the smallest of OR. |
| RuleValidation.EnoughVotersCover | app/domain/src/approval-rules.ts:184-195 | The counterpart: a well-formed rule is covered once each of its groups has the number of voters it asks for at least. |
| ApprovalRules.CoveredByOneWay | app/domain/src/approval-rules.ts:184-195 | A rule is covered iff all demands of one of its ways are met, a way being a choice of one alternative at every OR. |
| ApprovalRules.HighPrivilegeUnion | app/domain/src/approval-rules.ts:207-215 | The need for a high-privilege token distributes over joining two lists of groups. |
| ApprovalRules.HighPrivilegeExactly | app/domain/src/approval-rules.ts:207-215 | A high-privilege token is needed iff a leaf on one of the groups explicitly asks for it. |
| RuleValidation.ValidateExact | app/domain/src/approval-rules.ts:79-162 | Validation accepts a JSON value as a rule iff the value says that rule and the rule is well formed: UUID groups, counts of at least 1, non-empty AND and OR, depth at most 2. |
| RuleValidation.ErrorIsFirstProblem | app/domain/src/approval-rules.ts:83-162 | A value without problems is accepted; otherwise the error is that of the first bad node in reading order: wrong type, group, count, flag, empty AND or OR, or too deep. |
| RuleValidation.ApiSays | app/controllers/src/shared/mappers.ts:5-25 | The API form of any rule says exactly that rule, the optional high-privilege flag included. |
| RuleValidation.RoundTrip | app/controllers/src/shared/mappers.ts:5-25 | A validated rule printed for the API validates to the same rule. |
| RuleValidation.WellFormedNeedsSomebody | app/domain/src/approval-rules.ts:109-162 | A well-formed rule asks for at least one voter. |
| Workflows.InstantiateExactly | app/domain/src/workflows.ts:101-125 | A workflow validates iff template id, name and description are well formed and its times are in order; it comes out as it went in, except that a pending recalculation masks the status as in progress and an empty description counts as none. |
| Workflows.ChangeStatusOfLoaded | app/domain/src/workflows.ts:248-253 | A status change of a loaded workflow changes status, flag and stamp only, and fails only if the clock is before the creation time. |
| VoteReplay.LatestIsCast | app/domain/src/workflows.ts:211-223 | A voter has a latest vote iff they voted, and it is one of their own votes. |
| VoteReplay.ApproversAfter | app/domain/src/workflows.ts:217-230 | After one more vote, the approvers of a group are the old ones with or without this voter. |
| VoteReplay.VetoersAfter | app/domain/src/workflows.ts:217-230 | After one more vote, the vetoers are the old ones with or without this voter. |
| VoteReplay.CoversIsCoveredBy | app/domain/src/workflows.ts:234-237 | Coverage of the incremental group index equals coverage by the latest votes of the prefix. |
| VoteReplay.RemoveFromGroups | app/domain/src/workflows.ts:219-220 | Removes the voter from exactly the listed groups, repeated and unknown ones included. |
| VoteReplay.AddToGroups | app/domain/src/workflows.ts:225-229 | Adds the voter to exactly the listed groups, creating missing ones. |
| VoteReplay.PlayVote | app/domain/src/workflows.ts:211-230 | One turn of the loop takes the three structures that index a prefix to those that index the prefix and the vote: last non-withdrawn votes, approvers by group, vetoers. |
| VoteReplay.Replay | app/domain/src/workflows.ts:204-239 | The loop with its early exit returns Approved iff at some prefix nobody's latest vote is a veto and the latest approvals cover the rule, else Rejected iff somebody's last vote is a veto, else in progress. |
| VoteReplay.EvaluateWorkflowStatus | app/domain/src/workflows.ts:182-246 | Approved and Canceled are kept; the result is Expired iff the workflow was, or was open and its time is past; otherwise Approved iff at some moment nobody's last word was a veto and the rule was covered, else Rejected iff somebody's last word is a veto, else in progress. The flag is lowered; the late expiry branch changes nothing. |
| VoteReplay.EvaluatedStatusMeans | app/domain/src/workflows.ts:186-245 | The same for the status function the theorems are about. |
| ReplayTheorems.OrderIndependence | app/domain/src/workflows.ts:188-245 | If votes other than vetoes that tie come from different voters and only widen their approvals, every permutation of the votes gives the same status, vetoes tied with anything. |
| ReplayTheorems.DistinctTimesAreHarmless | app/domain/src/workflows.ts:188-245 | Votes other than vetoes at pairwise distinct times meet that condition. |
| OrderExactness.OrderIndependentExactly | app/domain/src/workflows.ts:188-245 | Two vote lists give an open, unexpired workflow the same status under every rule that validates iff their timelines agree moment by moment in head counts per group, and in whether they end with a veto. |
| OrderExactness.EveryOrderExactly | app/domain/src/workflows.ts:188-245 | Every order of a vote list gives the same status under every rule that validates iff the timelines of all orders agree with its own. |
| OrderExactness.DemandMeansWithin | app/domain/src/workflows.ts:188-245 | A rule asking of each group as many approvers as it has at one moment is met at another iff no group has fewer there. |
| ReplayTheorems.TiedVotesCanMatter | app/domain/src/workflows.ts:193-239 | For any group and a rule asking two of its voters: an approval and a withdrawal at one instant, and two orders of the same three votes, one approved and one not. |
| ReplayTheorems.ApprovalSurvivesLaterVotes | app/domain/src/workflows.ts:193-239 | An approved vote list stays approved with any votes cast strictly later, at any time before expiry. |
| ReplayTheorems.IrrelevantGroups | app/domain/src/workflows.ts:211-239 | Dropping from every approval the groups the rule does not name changes no evaluation. |
| ReplayTheorems.ApprovalNeedsVoters | app/domain/src/workflows.ts:232-237 | Behind every approval stands a moment without vetoes at which as many distinct voters as the rule asks for, at least one for a validated rule, had an approval for one of its groups as their latest vote. |
| WorkflowRecalculation.WorkflowRow.PersistVoteAndMarkWorkflowRecalculation | app/external/src/database/vote.repository.ts:24-53 | One transaction inserts the vote, raises the flag and bumps occ, and keeps the stored status. |
| WorkflowRecalculation.WorkflowRow.MarkAsRecalculationRequired | app/external/src/database/workflow.repository.ts:261-275 | Raises the flag and nothing else, occ included. |
| WorkflowRecalculation.WorkflowRow.UpdateWorkflowConcurrentSafe | app/external/src/database/workflow.repository.ts:161-175 | Writes status and, if given, flag iff occ is the expected one; occ itself is not bumped. |
| WorkflowRecalculation.WorkflowRow.GetWorkflow | app/domain/src/workflows.ts:117-122 | A row due for recalculation is loaded as in progress, whatever it stores; any other is loaded with its stored status, together with its occ. |
| WorkflowRecalculation.InvKept | app/services/src/workflow/workflow-recalculation.service.ts:35-57 | Every step of every job, vote, sweep and cancellation keeps: with the flag down the status is accounted for by the stored votes, and so is what each running job may still commit. |
| WorkflowRecalculation.NoVoteMissed | app/services/src/workflow/workflow-recalculation.service.ts:35-57 | In every interleaving, whenever the flag is down the status is the evaluation of the complete stored vote list at the committing job's clock, or the initial status with no votes, or Canceled after a cancellation that went through. |
| WorkflowRecalculation.CancellationLastsExactly | app/services/src/workflow-template/workflow-template.service.ts:286-292 | On a cancelled row, every continuation without a vote or a sweep keeps it cancelled iff the flag is down and every job at the row's occ saw it cancelled or is about to write Canceled. |
| WorkflowRecalculation.ProtectedKept | app/services/src/workflow-template/workflow-template.service.ts:286-292 | Each such step keeps the row cancelled and protected. |
| WorkflowRecalculation.LateStepUnprotects | app/services/src/workflow-template/workflow-template.service.ts:286-292 | After a later vote or sweep some continuation without another one takes the cancellation away. |
| WorkflowRecalculation.CancellationCanBeLost | app/services/src/workflow-template/workflow-template.service.ts:286-292 | A vote is cast, the workflow is cancelled, and the recalculation of the vote then starts and finishes: the cancellation went through, and the row ends with the evaluation of the vote, flag down and no job left. |
| TaskRows.TaskTable.CreateTask | app/external/src/database/task.repository.ts:208-239 | Inserts a fresh pending row, or reports that the identifier is taken and changes nothing. |
| TaskRows.TaskTable.LockStatement | app/external/src/database/task.repository.ts:423-426 | The conditional lock statement writes iff the row is there and unlocked: owner, time and the next occ, which it returns. |
| TaskRows.TaskTable.LockTask | app/external/src/database/task.repository.ts:400-462 | Success means the row is locked by the caller at the returned occ when the call returns, also when it already was; after a failed statement, a separate read, with any statements of others in between, finds no row or a row the caller does not hold. |
| TaskRows.TaskTable.UpdateTask | app/external/src/database/task.repository.ts:241-280 | Succeeds iff occ and owner match, and then writes status and count, the reason only for ERROR, keeps the lock and bumps occ; otherwise it changes nothing itself, and the error is "locked by other" iff a separate read after any statements of others finds another holder or none, "concurrent update" iff it finds no row or the caller's own lock at another occ. |
| TaskRows.TaskTable.ReleaseLock | app/external/src/database/task.repository.ts:464-506 | Succeeds iff occ and owner match, and then clears both lock fields and bumps occ; otherwise it changes nothing itself and the error is told apart in the same way. |
| TaskRows.RowsAreIndependent | app/external/src/database/task.repository.ts:241-271 | A statement on one task is a step of that task's row and leaves every other row alone. |
| TaskRows.TransitionReadsBack | app/domain/src/workflow-tasks/webhook-task.ts:106-141 | A written failure reads back as a failed task with its reason and one more attempt; a written completion keeps the count and reads back iff no response is asked for. |
| TaskRows.ReadTaskExactly | app/domain/src/workflow-tasks/base.ts:163-283 | Which stored rows come back as a task, and which are reported as inconsistently locked. |
| TaskRuns.LockHeld | app/external/src/database/task.repository.ts:400-506 | A lock stays with its owner until that owner's release goes through. |
| TaskRuns.LockExclusion | app/external/src/database/task.repository.ts:400-506 | From a lock to its owner's release, the only statements that write are updates by that owner; nobody else's lock, update or release does. |
| TaskRuns.OccCountsWrites | app/external/src/database/task.repository.ts:241-271 | Between any two moments occ grows by exactly the number of statements that wrote. |
| TaskRuns.OneWritePerOcc | app/external/src/database/task.repository.ts:241-271 | For each occ value at most one conditional update or release goes through, even among executions sharing one owner. |
| TaskRuns.SameOccSameRow | app/external/src/database/task.repository.ts:241-271 | While the occ is the same, so is the whole row. |
| TaskRuns.FailureIsExplained | app/external/src/database/task.repository.ts:508-538 | A failed write that carried an occ once seen on the row is classified by any later read as a foreign lock if the row is not locked by the caller then, and as a concurrent update if it is, never as unknown. |
| TaskRuns.FailureIsKnown | app/external/src/database/task.repository.ts:508-538 | On the whole table, with any statements on any tasks before the failure and before the read: the row is found, and the error of an update or release with an occ once on it says whether the caller holds its lock. |
| TaskRuns.ExplainedExactly | app/external/src/database/task.repository.ts:508-538 | From a given row, or none, every run of the workers' statements leaves the failure explained iff the occ lies below the least one at which the owner can hold the lock. |
| TaskRuns.RowOfTable | app/external/src/database/task.repository.ts:241-271 | Any sequence of statements on the table acts on each row as that row's own statements in order. |
| TaskRuns.LocksAreConsistent | app/external/src/database/task.repository.ts:155-156 | In every reachable row the lock owner is set iff the lock time is, so that the inconsistency error cannot occur. |
| TaskRuns.FreshExactly | app/worker/src/processor/workflow-action-webhook.processor.ts:29-33 | Status, retry count and error reason read before locking are sure to be current at a lock with a given occ, in every run of writes the workers make, iff that occ is at most the read occ plus 0, 1 or 2 for a row read as one's own, unlocked, or another's. |
| TaskRuns.NoLostUpdates | app/domain/src/workflow-tasks/webhook-task.ts:106-141 | In every run whose committed updates were computed from a snapshot that passes that check, the retry count is the number of committed failures, and the task is pending iff no transition has committed. |
| TaskRuns.ReadFailsOnlyWhenDone | app/external/src/database/task.repository.ts:149-173 | In such runs a stored task reads back as it is, except if its lock does not parse, or if it is completed and of a kind whose validation needs a response, as webhook and Slack tasks are and e-mail tasks are not. |
| TaskRuns.UncheckedUpdateIsLost | app/worker/src/processor/workflow-action-webhook.processor.ts:27-104 | A run of the workers' own steps in which two failures commit and the retry count is 1. |
| RefreshTokens.RefreshTokenTable.CreateToken | app/external/src/database/refresh-token.repository.ts:32-50 | Adds the row iff its identifier is free. |
| RefreshTokens.RefreshExactly | app/domain/src/refresh-token.ts:512-562 | A token may be refreshed up to its expiry, never once revoked, and once used for 30 seconds more; a used token shown later is reported as reuse. |
| RefreshTokens.ValidateExactly | app/domain/src/refresh-token.ts:375-403 | A token validates iff it expires no earlier than it was created and, if used, says when, no earlier than that, and by what it was replaced. |
| RefreshTokens.NewTokenLives | app/domain/src/refresh-token.ts:208-223 | A new token is its owner's, valid, and can be refreshed for 30 days. |
| RefreshTokens.MarkAsUsedExactly | app/domain/src/refresh-token.ts:459-472 | Marking a token as used keeps family, owner, times and occ, and fails only if the clock is before the creation. |
| RefreshTokens.RefreshTokenTable.PersistNewTokenUpdateOldToken | app/external/src/database/refresh-token.repository.ts:88-130 | Rewrites the old row with occ bumped and adds the new one, both or neither, iff the old row has the expected occ. |
| RefreshTokens.RefreshTokenTable.RevokeFamily | app/external/src/database/refresh-token.repository.ts:132-150 | No row comes or goes; each row of the family becomes revoked with its occ one higher and all else as it was; every other row is untouched. |
| RefreshTokenRuns.CommitActsOnCurrentRow | app/external/src/database/refresh-token.repository.ts:96-120 | A rotation that goes through acted on the row exactly as stored, which was eligible, and points it at the one row it adds. |
| RefreshTokenRuns.RotationIsTimely | app/domain/src/refresh-token.ts:545-562 | A rotation goes through only for a token not expired, not revoked and, if used, used at most 30 seconds before. |
| RefreshTokenRuns.InvKept | app/services/src/auth/auth.service.ts:361-462 | Every step keeps: snapshots agree with their row while its occ is theirs, stored rows validate, and successors are rows of the same family created later. |
| RefreshTokenRuns.FamilyStep | app/external/src/database/refresh-token.repository.ts:96-120 | A step adds to a family the first row of a new family or the successor of a committed rotation, and never removes a row. |
| RefreshTokenRuns.DeadStaysDead | app/external/src/database/refresh-token.repository.ts:88-150 | A family whose rows are all revoked keeps exactly those rows, all revoked, over every further run. |
| RefreshTokenRuns.RevokedForever | app/external/src/database/refresh-token.repository.ts:132-150 | Whatever was read before a family's revocation and whatever runs after it, all its rows stay revoked and none is added. |
| RefreshTokenRuns.ReuseEndsFamily | app/services/src/auth/auth.service.ts:443-462 | The same holds once an unexpired used token is shown again more than 30 seconds after its use. |
| RefreshTokenRuns.FamilySize | app/external/src/database/refresh-token.repository.ts:96-120 | A family has one row more than committed rotations. |
| RefreshTokenRuns.FamilyHasOneOwner | app/services/src/auth/auth.service.ts:377-385 | In every reachable state all rows of a family belong to one owner. |
| RefreshTokenRuns.OneRotationPerOcc | app/external/src/database/refresh-token.repository.ts:96-111 | At most one rotation commits per row and occ value. |
| RefreshTokenRuns.ChainsEnd | app/domain/src/refresh-token.ts:459-472 | Every used row names an existing row of its family, and following successors takes no more steps than there are rows, rotations in the grace period included. |
| AuditLog.BuildWhere | app/external/src/database/audit-log.repository.ts:125-163 | A row meets the pushed conditions iff it was asked for, absent and empty filter lists restricting nothing, and lies below the cursor. |
| AuditLog.NewerIsStrictOrder | app/external/src/database/audit-log.repository.ts:55-59 | The listing order is a strict order that is total on rows with different identifiers. |
| AuditLog.IdLessIsLexicographic | app/external/src/database/audit-log.repository.ts:55-59 | Identifiers are ordered lexicographically. |
| AuditLog.SplitTwo | app/external/src/database/audit-log.repository.ts:113-113 | Splitting two underscore-free parts joined by an underscore gives back the two parts. |
| AuditLog.CursorRoundTrip | app/external/src/database/audit-log.repository.ts:101-123 | A cursor decodes to the time and identifier it was made from, for every time a date can hold. |
| AuditLog.DecodeExactly | app/external/src/database/audit-log.repository.ts:101-119 | A cursor is understood iff its text reads as a date, an underscore and an identifier, what follows another underscore being ignored; an absent or empty one asks for the first page; any other is refused. |
| AuditLog.AuditLogTable.Persist | app/external/src/database/database-client.ts:189-205 | Rows are only ever appended. |
| AuditLog.AuditLogTable.FindMany | app/external/src/database/audit-log.repository.ts:35-66 | Fetching one row more than asked for gives the first rows of the full listing below the cursor, and a next cursor for the last of them iff there are more; an undecodable cursor is an error. |
| AuditLogWalk.PageContents | app/external/src/database/audit-log.repository.ts:45-66 | A page is descending and holds only rows asked for; it hands out a cursor iff such a row is missing from it, and every missing one lies below that cursor. |
| AuditLogWalk.WalkProgress | app/external/src/database/audit-log.repository.ts:45-66 | After any number of pages over a growing log, what was delivered descends strictly and each wanted row of the first log was delivered or lies below the current cursor. |
| AuditLogWalk.ExactlyOnce | app/external/src/database/audit-log.repository.ts:45-66 | A finished walk over a growing log delivers every wanted row of the first log exactly once, in strictly descending order, and nothing twice. |
| AuditLogWalk.OnlyFirstRows | app/external/src/database/audit-log.repository.ts:157-160 | If appended rows stay above the cursors, the walk delivers rows of the first log only and every page but the last is full. |
| AuditLogWalk.WalkTerminates | app/external/src/database/audit-log.repository.ts:61-64 | Such a walk has at most as many full pages as the first log has rows for. |
| JsonText.StringifyInjective | app/domain/src/role.ts:224-224 | Two objects with string values print alike only if they hold the same properties in the same order, whatever characters they contain. |
| JsonText.PlainTextUnchanged | app/domain/src/role.ts:224-224 | Text without quotes, backslashes and control characters is printed as it is. |
| Roles.RoleKeyInjective | app/domain/src/role.ts:219-232 | On names without a dash, as all validated names are, the text keys of two roles are equal iff their names and spelled scopes are. |
| Roles.ValidIsDashFree | app/domain/src/role.ts:287-292 | A validated role name holds no dash. |
| Roles.ConsolidateRoles | app/domain/src/role.ts:219-232 | The loop over the set of seen keys returns the specified consolidation. |
| Roles.CheckForDuplicateRoles | app/domain/src/user.ts:262-274 | The nested loop answers whether two roles share a name and denote the same scope. |
| RoleTheorems.ConsolidatedKeys | app/domain/src/role.ts:219-232 | Consolidation invents no role, loses no key and repeats none. |
| RoleTheorems.ConsolidatedIsFirsts | app/domain/src/role.ts:219-232 | On such names it keeps exactly the first role of each name and spelled scope. |
| RoleTheorems.DuplicatesAfterConsolidation | app/domain/src/user.ts:154-184 | The pairwise check fires on consolidated roles iff two of the given roles have one name and one scope in two spellings. |
| RoleTheorems.CanonicalNeverDuplicates | app/domain/src/user.ts:154-184 | On scopes spelled the way the code spells them it never fires. |
| RoleTheorems.RespelledScopeIsDuplicate | app/domain/src/user.ts:262-274 | Two valid roles with reordered scope properties survive consolidation and are then reported as duplicates. |
| RoleTheorems.PermissionsPreserved | app/domain/src/permission-checker.ts:24-64 | If the name determines the permissions, consolidation changes no permission answer. |
| RoleTheorems.PermissionExactly | app/domain/src/permission-checker.ts:24-64 | With canonical scopes, a permission on a scope is held iff a role of the organization or of that very scope has it. |
| RoleTheorems.PermissionOnResource | app/domain/src/permission-checker.ts:66-88 | The same spelled out for a group, a space and a template: no role on another resource gives the permission. |
| RoleTheorems.ScopesExactly | app/domain/src/role.ts:259-272 | A scope is valid iff it has a known type and the identifier that goes with it; two scopes are the same iff they agree on both. |
| RoleTheorems.ValidateRoleExactly | app/domain/src/role.ts:274-368 | A role is accepted iff its scope is valid, its name has 1 to 100 letters, digits and underscores, and its permissions belong to its kind of resource. |
| RoleTheorems.AssignThenRemove | app/domain/src/user.ts:154-225 | For a valid user, removing roles after a successful assignment of them gives what removing them without it gives. |
| RoleTheorems.AssignKeepsAndAdds | app/domain/src/user.ts:154-184 | A successful assignment keeps the user's roles in place, adds exactly the missing keys, and ends without duplicates and within the limit. |
| RoleTheorems.AssignExactly | app/domain/src/user.ts:154-184 | For a good profile and roles valid one by one, an assignment fails iff more than 128 roles remain or one scope occurs in two spellings, each with its own error, and otherwise gives the consolidated roles. |
| RoleTheorems.WithoutExactly | app/domain/src/user.ts:196-201 | Removing takes away exactly the roles with a listed name and scope; every other role stays as often as it was there. |
| RoleTheorems.CreateUserExactly | app/domain/src/user.ts:232-255 | A user is accepted iff the profile is good and the roles are valid and pairwise different. |
| RoleTheorems.RemoveExactly | app/domain/src/user.ts:192-225 | Roles can always be removed from a valid user; otherwise removal succeeds iff what is left makes a valid user. |
| GroupMemberships.GroupManager.constructor | app/domain/src/group-membership.ts:111-116 | Files exactly the given entities, each under its own key and as given last. |
| GroupMemberships.GroupManager.CreateGroupManager | app/domain/src/group-membership.ts:204-214 | Succeeds iff no entity appears twice, and then the group holds exactly the given members. |
| GroupMemberships.GroupManager.AddMembership | app/domain/src/group-membership.ts:122-128 | Adds the member, or reports that the entity is in the group and changes nothing. |
| GroupMemberships.GroupManager.AddMemberships | app/domain/src/group-membership.ts:130-137 | Succeeds iff the new keys are pairwise distinct and disjoint from the old; otherwise it fails having added every member it could. |
| GroupMemberships.GroupManager.RemoveMembership | app/domain/src/group-membership.ts:143-176 | Removes exactly the member, or reports that there is none, or that it is the last administrator, and then changes nothing. |
| GroupMemberships.AllAddedExactly | app/domain/src/group-membership.ts:130-137 | After a successful addition the group holds the old members, the new members and nobody else. |
| GroupMemberships.RefusedExactlyForLastAdmin | app/domain/src/group-membership.ts:159-172 | A member's removal is refused iff the group has an administrator and would have none after it. |
| GroupMemberships.RefusedExactly | app/domain/src/group-membership.ts:150-172 | With canonical scopes, a member's removal is refused iff the member is a user with "manage" on the organization or on this very group and no other member is. |
| GroupMemberships.AdminNeverLost | app/domain/src/group-membership.ts:108-176 | Over every sequence of additions and removals, members stay filed under their own keys and a group with an administrator keeps one. |
| GroupMemberships.DistinctCount | app/domain/src/group-membership.ts:208-211 | The size comparison of the creation check detects exactly repeated entities. |
| Retry.RetryOutcome | app/utils/src/retry.ts:20-43 | The action runs between 1 and max(1, maxAttempts) times; the outcome and the final state are those of the first attempt that is not a transient failure, else of the last one; one delay before each attempt but the first. |
| Retry.WaitsAreBounded | app/utils/src/retry.ts:29-37 | The waits add up to at most their number times the cap and at most the geometric sum, and do not get shorter when the factor is at least one. |
| Retry.DelayExactly | app/utils/src/retry.ts:32-32 | Each wait is the lesser of the cap and the exponentially growing delay. |
| TransactionTheorems.NestingDoesNotMultiply | app/external/src/database/database-client.ts:67-93 | For every tree of queries, recoveries and nested transactions, query runs are at most the retry limit times the number of queries, and inside a transaction at most the number of queries; inside, nothing is committed. |
| TransactionTheorems.IsolationIsStrictEnough | app/external/src/database/database-client.ts:124-145 | Every query of every attempt runs at the level its outermost transaction asked for, which is at least as strict as what each enclosing computation asked for. |
| TransactionTheorems.NestedRequest | app/external/src/database/database-client.ts:128-141 | Inside a transaction a request joins it iff the active level gives what was asked for, ReadCommitted if no level was, and is otherwise refused with nothing run. |
| TransactionTheorems.WhatStands | app/external/src/database/database-client.ts:143-165 | An outermost transaction leaves exactly the writes of the attempts whose commit took effect: the last one if the call succeeds, and those whose acknowledgement was lost. |
| TransactionTheorems.AllOrNothing | app/external/src/database/database-client.ts:143-165 | A call that throws has committed nothing, and one that does not the writes of the single run that gave its result, iff no acknowledgement is lost for an attempt that wrote something. |
| TransactionTheorems.ExecuteIsAllOrNothing | app/external/src/database/transaction-manager.ts:42-75 | `execute` never throws; a Right comes from a run that itself ended Right; Left means nothing committed and Right exactly that run's writes, iff no acknowledgement is lost for an attempt that wrote something. |
| TransactionTheorems.ExecuteAnswers | app/external/src/database/transaction-manager.ts:42-75 | The answer of `execute`: the computation's own Left, or its Right once committed, the payload it rolls back with, "conflicting_isolation_level" for a level conflict, and "unknown_error" for everything else. |
| TransactionTheorems.LeftEndsTheRetry | app/external/src/database/transaction-manager.ts:47-66 | An attempt whose computation gives a Left is the last attempt, and its error is the outcome. |
| TransactionTheorems.FollowedByAnother | app/external/src/database/database-client.ts:143-159 | An attempt is followed by another iff attempts are left and the opening failed transiently, or the computation threw a transient failure, or it did not throw and its commit failed transiently. |
| TransactionTheorems.CaughtIsNotRetried | app/external/src/database/database-client.ts:68-71 | If every query is caught, an attempt is followed by another iff attempts are left and the opening failed transiently, or the computation gave Right and its commit failed transiently. |
| TransactionTheorems.QueryWrites | app/external/src/database/database-client.ts:73-89 | A query outside transactions is written once for each of its runs that took effect, acknowledged or not; every run but the last failed transiently, and the outcome is the last one's. |
| TransactionTheorems.QueryInside | app/external/src/database/database-client.ts:69-71 | A query inside a transaction runs once, at the active level, and its write waits for the commit. |
| TransactionTheorems.NestedLeftKeepsWrites | app/external/src/database/database-client.ts:132-141 | A nested `execute` at any level that does not conflict, whose computation gives a Left, ends in exactly the state that computation left. |
| TransactionTheorems.RecoveredLeftIsCommitted | app/external/src/database/transaction-manager.ts:42-66 | A concrete computation that recovers from a nested Left commits what was written before it. |

## Left out

- OrderIndependence: a sufficient condition on ties alone; the exact one, `OrderIndependentExactly`, compares the timelines and speaks of all rules at once, not of one given rule.
- TaskTable: response columns, headers, payloads and URLs are not modelled, nor is the deletion of rows; the e-mail, webhook and Slack tables share one model.
- Token: tokens are known by identifier, not by hash, and token values are not modelled.
- PersistNewTokenUpdateOldToken: does not tell the kinds of failure apart, because a failed conditional update throws and ends as an unknown error.
- FindMany: does not map rows to domain objects, and the walk theorems ask for a page size of at least one; the date and base64 functions appear only through their laws.
- StringifyInjective: does not model the escaping of lone surrogates or of properties whose values are not strings.
- AddMemberships: members have no insertion order.
- Execute: transactions run on values of a state type rather than in place; no PostgreSQL anomaly, and in particular no transaction that a failed statement has aborted, is modelled; writes are known by the query that makes them, so a repeated write is not rejected by a unique key.
- Load: a recalculation job may start at any time, not only when a vote or a sweep has put one in the queue; `CancellationCanBeLost` uses a job that a vote has asked for.
- RetryOutcome: an attempt limit that is not a number is not modelled.
- String formats (UUID, names, e-mail, error reasons, lock owners) are parameters or absent; status strings outside the enumerations are not represented.
- Every transaction and every single statement is atomic, and new identifiers are assumed never issued before.
- Creating workflows, voting eligibility, quotas, hierarchies, system roles and the restriction of agents to template roles: small case tables.
- HTTP controllers, queues, e-mail, Slack and webhook delivery, cryptography and configuration.
