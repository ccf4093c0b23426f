# NodeRollout status merger

A Dafny model of the status merger of the navarchos node-rollout controller
(`pkg/controller/noderollout/status`). After each reconcile pass the
controller collects what it learned in a `Result`; `UpdateStatus` merges that
`Result` into the NodeRollout's stored status under these rules:

- the phase is overwritten only when the `Result` carries one;
- `ReplacementsCreated` and `CompletionTimestamp` are write-once;
- `ReplacementsCompleted` grows by a duplicate-dropping append;
- two conditions (`ReplacementsCreated`, `ReplacementsInProgress`) are updated
  by a rule that keeps one condition per type and preserves transition times;

It then writes the merged status back only when it differs from the stored
one.

Modules:

- `Types` (`types.dfy`): the records. `Result` has the fields `types.go`
  declares plus the ones `status.go` reads. `NodeRolloutStatus` and
  `NodeRolloutCondition` are the persisted status and its conditions. The
  nil-able list and timestamp fields are `Option`s, so a present but empty list
  differs from an absent one, as it does for the source's `nil` checks and for
  `reflect.DeepEqual`. `Conditions` is the exception (see "Left out").
- `Names` (`names.dfy`): `appendIfMissingElement` and `appendIfMissingStr`
  as loop methods. They are proved against the specification function
  `Merged`, with lemmas on prefix, membership, no duplicates, idempotence and
  the disjoint case.
- `Conditions` (`conditions.dfy`): `getNodeRolloutCondition` and
  `filterOutCondition` as loop methods. They are proved against `FindCondition`
  and `WithoutType`. `SetCondition` is the update rule of
  `setNodeRolloutCondition`, with its lemmas. `NewNodeRolloutCondition` builds
  a condition whose two timestamps are `now`.
- `Merge` (`merge.dfy`): one function per setter (`PhaseStep`, `CreatedStep`,
  `CompletedStep`, `TimestampStep`, `CreatedConditionStep`,
  `InProgressConditionStep`). `MergeStatus` chains them in the source's order
  and stops at the first error. Lemmas state each field's merge rule.
- `Status` (`status.dfy`): `UpdateStatus` and the setters in the source's
  imperative form. `WorkingStatus` is the local copy `status := instance.Status`
  that each setter updates in place through a pointer. Each setter is proved
  against its step function. `UpdateStatus` is proved against `MergeStatus`
  and the write decision.

The model's boundaries:

- The clock (`metav1.Now()`) is the parameter `now`.
- The store's `Update` call is the parameter `writeError`, the store's answer.
- `UpdateStatus` returns `written`, the status it would hand to the store, or
  `None` when it makes no write.
- `reflect.DeepEqual` is structural equality of Dafny datatypes.

Where the tests in `status_test.go` disagree with `status.go`, the model
follows `status.go`:

- No `ReplacementsCreated` condition is added when its reason is empty; the
  tests expect one.
- A reason without an error is accepted; the tests expect an error.
- `ReplacementsCompletedError` and `ReplacementsCompletedReason` are never
  read.

The doc comment on `ReplacementsFailed` (`types.go:32-34`) says the list
replaces the stored one. `UpdateStatus` never reads it, so the model leaves the
stored `ReplacementsFailed` and its count unchanged (`Merge.MergeKeepsFailed`).

## Model

| member | source | states |
|---|---|---|
| `Names.AppendIfMissingElement` | pkg/controller/noderollout/status/status.go:208-217 | the slice is returned unchanged when it already holds the name, and the name is appended otherwise |
| `Names.AppendIfMissingStr` | pkg/controller/noderollout/status/status.go:199-206 | the loop computes `Merged(slice, str)`; the stored slice is a prefix of the result; the result holds exactly the names of both inputs |
| `Names.Merged` | pkg/controller/noderollout/status/status.go:199-206 | the definition of `appendIfMissingStr` as a left fold of `appendIfMissingElement`; the `Merged*` lemmas below state its properties |
| `Names.MergedExtends` | pkg/controller/noderollout/status/status.go:199-206 | the merge only appends, so the stored list is a prefix of the merged one |
| `Names.MergedElements` | pkg/controller/noderollout/status/status.go:199-217 | a name is in the merged list if and only if it is in the stored list or in the new one (set union) |
| `Names.MergedNoDups` | pkg/controller/noderollout/status/status.go:199-217 | if the stored list has no duplicates, neither has the merged list |
| `Names.MergedAppendsOnlyNew` | pkg/controller/noderollout/status/status.go:208-217 | every name appended after the stored prefix was absent from the stored list |
| `Names.MergedAbsorbs` | pkg/controller/noderollout/status/status.go:208-217 | merging names that are all present already leaves the list unchanged |
| `Names.MergedIdempotent` | pkg/controller/noderollout/status/status.go:199-217 | merging the same list a second time is a no-op |
| `Names.MergedDisjoint` | pkg/controller/noderollout/status/status.go:199-217 | distinct names absent from the stored list are appended verbatim and in their order |
| `Conditions.FindFirst` | pkg/controller/noderollout/status/status.go:119-128 | the lookup returns the first condition of the type: a found condition sits at an index with no condition of that type before it, and the condition at such an index is the one found |
| `Conditions.NewNodeRolloutCondition` | pkg/controller/noderollout/status/status.go:107-117 | the definition of `newNodeRolloutCondition`, with both timestamps the clock reading `now`; `Merge.MergeCreatedCondition` and `Merge.MergeInProgressCondition` state what it contributes |
| `Conditions.SetCondition` | pkg/controller/noderollout/status/status.go:130-143 | the definition of the update rule of `setNodeRolloutCondition`; the `SetCondition*` lemmas below state its properties, and `Status.WorkingStatus.SetNodeRolloutCondition` is proved against it |
| `Conditions.FindCondition` | pkg/controller/noderollout/status/status.go:119-128 | a found condition is in the list and has the requested type; nothing is found if and only if no condition has that type |
| `Conditions.GetNodeRolloutCondition` | pkg/controller/noderollout/status/status.go:119-128 | the linear search returns the first condition of the type, or none |
| `Conditions.WithoutType` | pkg/controller/noderollout/status/status.go:145-155 | no condition of the filtered type remains; the list never grows |
| `Conditions.WithoutTypeMembers` | pkg/controller/noderollout/status/status.go:145-155 | a condition is kept if and only if it was in the list and is of another type |
| `Conditions.FilterOutCondition` | pkg/controller/noderollout/status/status.go:145-155 | the loop keeps exactly the conditions of other types, in their original order (`WithoutType`) |
| `Conditions.WithoutAbsentType` | pkg/controller/noderollout/status/status.go:145-155 | filtering out a type no condition has returns the list unchanged |
| `Conditions.WithoutTypeUnique` | pkg/controller/noderollout/status/status.go:145-155 | filtering keeps the at-most-one-condition-per-type invariant |
| `Conditions.SetConditionSameStatusAndReason` | pkg/controller/noderollout/status/status.go:130-136 | when a condition of the type already has the same status and reason, the list is unchanged, including message and timestamps |
| `Conditions.SetConditionChanged` | pkg/controller/noderollout/status/status.go:137-143 | otherwise the new condition is the only one of its type, it is last, and it carries the new status, reason, message and update time; its transition time is the old one exactly when the status did not change |
| `Conditions.SetConditionKeepsOthers` | pkg/controller/noderollout/status/status.go:141-142 | conditions of other types keep their relative order: removing the type from the result gives the same list as removing it from the input |
| `Conditions.SetConditionUnique` | pkg/controller/noderollout/status/status.go:130-143 | the update keeps at most one condition per type |
| `Conditions.SetConditionLookup` | pkg/controller/noderollout/status/status.go:130-143 | after the update the lookup of the type gives the stored condition if it already had the requested status and reason; otherwise it gives the new condition, with the old transition time when only the reason changed |
| `Conditions.SetConditionTwice` | pkg/controller/noderollout/status/status.go:130-136 | re-applying the same status and reason, at any later time, leaves the first application's result unchanged |
| `Merge.PhaseStep` | pkg/controller/noderollout/status/status.go:57-62 | the definition of `setPhase` on a status value; `Merge.MergePhase` states its effect |
| `Merge.CreatedStep` | pkg/controller/noderollout/status/status.go:64-77 | the definition of `setReplacementsCreated` on a status value; `Merge.MergeCreated` and `Merge.MergeErrors` state its effect |
| `Merge.CompletedStep` | pkg/controller/noderollout/status/status.go:79-92 | the definition of `setReplacementsCompleted` on a status value; `Merge.MergeCompleted`, `Merge.MergeCompletedCopyOrKeep` and `Merge.MergeCompletedNoDups` state its effect |
| `Merge.TimestampStep` | pkg/controller/noderollout/status/status.go:94-105 | the definition of `setCompletionTimestamp` on a status value; `Merge.MergeTimestamp` and `Merge.MergeErrors` state its effect |
| `Merge.CreatedConditionStep` | pkg/controller/noderollout/status/status.go:180-197 | the definition of `setCreatedCondition` on a status value; `Merge.MergeCreatedCondition` and `Merge.MergeNoCreatedReasonKeepsCreated` state its effect |
| `Merge.InProgressConditionStep` | pkg/controller/noderollout/status/status.go:157-178 | the definition of `setInProgressCondition` on a status value; `Merge.MergeInProgressCondition` and `Merge.MergeNoInProgressReasonKeepsInProgress` state its effect |
| `Merge.MergeStatus` | pkg/controller/noderollout/status/status.go:19-42 | the definition of the merge pass: the six setters in source order, stopping at the first error; the `Merge*` lemmas below state its properties, and `Status.UpdateStatus` is proved against it |
| `Merge.MergeErrors` | pkg/controller/noderollout/status/status.go:18-42 | the merge fails exactly on a write-once conflict or on an error without a reason; the message is the one of the first setter that fails |
| `Merge.MergePhase` | pkg/controller/noderollout/status/status.go:57-62 | the new phase is the result's phase when it carries one, the stored phase otherwise |
| `Merge.MergeCreated` | pkg/controller/noderollout/status/status.go:64-77 | a stored `ReplacementsCreated` and its count never change; a first value is set with count equal to its length; an absent result value changes nothing |
| `Merge.MergeCompleted` | pkg/controller/noderollout/status/status.go:79-86 | with both lists present, the stored list is a prefix of the new one; the new one holds exactly the names of both; only names absent from the stored list are appended; the count is the new length |
| `Merge.MergeCompletedCopyOrKeep` | pkg/controller/noderollout/status/status.go:87-90 | with no stored list the result's list is copied verbatim with its length as count; with no result list the stored one and its count stay |
| `Merge.MergeCompletedNoDups` | pkg/controller/noderollout/status/status.go:79-92 | duplicate-free stored and result lists give a duplicate-free merged list |
| `Merge.MergeCompletedTwice` | pkg/controller/noderollout/status/status.go:79-92 | merging the same completions a second time leaves the status unchanged |
| `Merge.MergeCompletedExample` | pkg/controller/noderollout/status/status.go:81-85 | stored {master-1, worker-1} merged with {master-2, worker-2} gives all four names and count 4 |
| `Merge.MergeTimestamp` | pkg/controller/noderollout/status/status.go:94-105 | a stored completion timestamp never changes; otherwise the result's, if any, is taken |
| `Merge.MergeKeepsFailed` | pkg/controller/noderollout/status/status.go:18-55 | the stored `ReplacementsFailed` list and count are left unchanged |
| `Merge.MergeNoReasonKeepsConditions` | pkg/controller/noderollout/status/status.go:157-197 | when both reasons are empty the conditions are left as stored |
| `Merge.MergeNoCreatedReasonKeepsCreated` | pkg/controller/noderollout/status/status.go:180-197 | with an empty created reason the created condition is the stored one, and every condition other than the in-progress one stays in its stored order |
| `Merge.MergeNoInProgressReasonKeepsInProgress` | pkg/controller/noderollout/status/status.go:157-178 | with an empty in-progress reason the in-progress condition is the stored one, and every condition other than the created one stays in its stored order |
| `Merge.MergeCreatedCondition` | pkg/controller/noderollout/status/status.go:180-197 | with a reason, the created condition afterwards has that reason and status False exactly when an error came with it; it is the stored condition if that already had this status and reason; otherwise its message is the error text (empty without an error), its update time is `now`, and its transition time is the stored one if the status is unchanged, `now` otherwise |
| `Merge.MergeInProgressCondition` | pkg/controller/noderollout/status/status.go:157-178 | as for the created condition, except that the status is also False when the reason is "ReplacementsCompleted" |
| `Merge.MergeConditionsUnique` | pkg/controller/noderollout/status/status.go:130-155 | the merge keeps at most one condition per type |
| `Merge.MergeZeroResult` | pkg/controller/noderollout/status/types.go:7-35 | the all-absent `Result` merges to the stored status unchanged |
| `Status.WorkingStatus.constructor` | pkg/controller/noderollout/status/status.go:19 | the local copy starts equal to the stored status |
| `Status.WorkingStatus.SetPhase` | pkg/controller/noderollout/status/status.go:58-62 | the fields become `PhaseStep` of the old ones |
| `Status.WorkingStatus.SetReplacementsCreated` | pkg/controller/noderollout/status/status.go:66-77 | on a conflict it returns the immutability error and changes nothing; otherwise the fields become `CreatedStep` of the old ones |
| `Status.WorkingStatus.SetReplacementsCompleted` | pkg/controller/noderollout/status/status.go:81-92 | the fields become `CompletedStep` of the old ones |
| `Status.WorkingStatus.SetCompletionTimestamp` | pkg/controller/noderollout/status/status.go:96-105 | on a conflict it returns the immutability error and changes nothing; otherwise the fields become `TimestampStep` of the old ones |
| `Status.WorkingStatus.SetNodeRolloutCondition` | pkg/controller/noderollout/status/status.go:132-143 | only the conditions change; they become `SetCondition` of the old ones |
| `Status.WorkingStatus.SetInProgressCondition` | pkg/controller/noderollout/status/status.go:157-178 | an error without a reason returns the error and changes nothing; otherwise the fields become `InProgressConditionStep` of the old ones |
| `Status.WorkingStatus.SetCreatedCondition` | pkg/controller/noderollout/status/status.go:180-197 | an error without a reason returns the error and changes nothing; otherwise the fields become `CreatedConditionStep` of the old ones |
| `Status.UpdateStatus` | pkg/controller/noderollout/status/status.go:18-55 | a setter error is returned with no write; otherwise the merged status is written exactly when it differs from the stored one, and a failed write returns "error updating status: " and the store's message; a `ReplacementsCreated` conflict gives exactly its immutability error, and a `CompletionTimestamp` conflict gives its own error when there is no `ReplacementsCreated` conflict; the zero `Result` gives no error and no write |

## Left out

- The store write `c.Update` (status.go:48), including its optimistic-concurrency conflicts. It is a parameter (the store's answer) and an output (the status that would be written).
- The clock: `newNodeRolloutCondition` reads `metav1.Now()` twice, once per timestamp, and each condition setter that has a reason calls it once. The model uses one instant, `now`, for all of these reads, so the two timestamps of a new condition are always equal.
- Go slice aliasing: `appendIfMissingStr` may share the stored slice's backing array, and `ReplacementsCreated`/`ReplacementsCompleted` are assigned by reference. The model uses values.
- `NodeRollout` itself: only its status is modelled, since `UpdateStatus` reads and writes nothing else of it. `instance.DeepCopy()` is left out.
- The NodeRollout API types file is not part of this model. The condition types are a two-value datatype and the phase is a string, since the API's constant strings are not visible. A condition's status also allows the API's Unknown value.
- `ReplacementsCompletedError`, `ReplacementsCompletedReason` and `ReplacementsFailed` are in `Result` but play no part, because `status.go` never reads them.
- The nil/empty distinction of `Conditions`: it is a plain sequence, so a nil and an empty condition list are the same value. `setNodeRolloutCondition` either leaves the list as it is or replaces it with a non-empty one (status.go:134-142), so `reflect.DeepEqual` never compares a nil list with an empty one that the merge produced.
