/**
 * UpdateStatus and its setters (pkg/controller/noderollout/status/status.go).
 * UpdateStatus copies the stored status into a local variable and hands a
 * pointer to it to each setter, which updates its fields in place; the class
 * WorkingStatus is that local copy.
 */
module Status {
  import opened Types
  import opened Names
  import opened Conditions
  import opened Merge

  class WorkingStatus {
    var phase: RolloutPhase
    var replacementsCreated: Option<seq<string>>
    var replacementsCreatedCount: int
    var replacementsCompleted: Option<seq<string>>
    var replacementsCompletedCount: int
    var replacementsFailed: Option<seq<string>>
    var replacementsFailedCount: int
    var completionTimestamp: Option<Time>
    var conditions: seq<NodeRolloutCondition>

    /** The status value the fields currently hold. */
    function Value(): NodeRolloutStatus
      reads this
    {
      NodeRolloutStatus(phase, replacementsCreated, replacementsCreatedCount,
                        replacementsCompleted, replacementsCompletedCount,
                        replacementsFailed, replacementsFailedCount,
                        completionTimestamp, conditions)
    }

    /** `status := instance.Status`. */
    constructor (s: NodeRolloutStatus)
      ensures Value() == s
    {
      phase := s.phase;
      replacementsCreated := s.replacementsCreated;
      replacementsCreatedCount := s.replacementsCreatedCount;
      replacementsCompleted := s.replacementsCompleted;
      replacementsCompletedCount := s.replacementsCompletedCount;
      replacementsFailed := s.replacementsFailed;
      replacementsFailedCount := s.replacementsFailedCount;
      completionTimestamp := s.completionTimestamp;
      conditions := s.conditions;
    }

    /** setPhase. */
    method SetPhase(result: Result)
      modifies this
      ensures Value() == PhaseStep(old(Value()), result)
    {
      if result.phase.Some? {
        phase := result.phase.value;
      }
    }

    /** setReplacementsCreated: fails, changing nothing, when both lists are present. */
    method SetReplacementsCreated(result: Result) returns (err: Option<string>)
      modifies this
      ensures CreatedStep(old(Value()), result).Err? ==>
        err == Some(CreatedImmutableMsg) && Value() == old(Value())
      ensures CreatedStep(old(Value()), result).Ok? ==>
        err == None && Value() == CreatedStep(old(Value()), result).value
    {
      if replacementsCreated.Some? && result.replacementsCreated.Some? {
        return Some(CreatedImmutableMsg);
      }
      if replacementsCreated.None? && result.replacementsCreated.Some? {
        replacementsCreated := result.replacementsCreated;
        replacementsCreatedCount := |result.replacementsCreated.value|;
      }
      return None;
    }

    /** setReplacementsCompleted: the two guarded updates of the source, in order. */
    method SetReplacementsCompleted(result: Result)
      modifies this
      ensures Value() == CompletedStep(old(Value()), result)
    {
      if replacementsCompleted.Some? && result.replacementsCompleted.Some? {
        var merged := AppendIfMissingStr(replacementsCompleted.value, result.replacementsCompleted.value);
        replacementsCompleted := Some(merged);
        replacementsCompletedCount := |merged|;
      }
      if replacementsCompleted.None? && result.replacementsCompleted.Some? {
        replacementsCompleted := result.replacementsCompleted;
        replacementsCompletedCount := |result.replacementsCompleted.value|;
      }
    }

    /** setCompletionTimestamp: fails, changing nothing, when both timestamps are present. */
    method SetCompletionTimestamp(result: Result) returns (err: Option<string>)
      modifies this
      ensures TimestampStep(old(Value()), result).Err? ==>
        err == Some(TimestampImmutableMsg) && Value() == old(Value())
      ensures TimestampStep(old(Value()), result).Ok? ==>
        err == None && Value() == TimestampStep(old(Value()), result).value
    {
      if completionTimestamp.Some? && result.completionTimestamp.Some? {
        return Some(TimestampImmutableMsg);
      }
      if completionTimestamp.None? && result.completionTimestamp.Some? {
        completionTimestamp := result.completionTimestamp;
      }
      return None;
    }

    /** setNodeRolloutCondition: only the conditions change. */
    method SetNodeRolloutCondition(condition: NodeRolloutCondition)
      modifies this
      ensures Value() == old(Value()).(conditions := SetCondition(old(conditions), condition))
    {
      var currentCond := GetNodeRolloutCondition(Value(), condition.condType);
      if currentCond.Some? && currentCond.value.status == condition.status && currentCond.value.reason == condition.reason {
        return;
      }
      var c := condition;
      if currentCond.Some? && currentCond.value.status == condition.status {
        c := c.(lastTransitionTime := currentCond.value.lastTransitionTime);
      }
      var newConditions := FilterOutCondition(conditions, condition.condType);
      conditions := newConditions + [c];
    }

    /** setInProgressCondition. */
    method SetInProgressCondition(result: Result, now: Time) returns (err: Option<string>)
      modifies this
      ensures InProgressConditionStep(old(Value()), result, now).Err? ==>
        err == Some(InProgressReasonMsg) && Value() == old(Value())
      ensures InProgressConditionStep(old(Value()), result, now).Ok? ==>
        err == None && Value() == InProgressConditionStep(old(Value()), result, now).value
    {
      if result.replacementsInProgressError.Some? && result.replacementsInProgressReason == "" {
        return Some(InProgressReasonMsg);
      }
      if result.replacementsInProgressReason != "" {
        var condition := NewNodeRolloutCondition(ReplacementsInProgressType, ConditionTrue, result.replacementsInProgressReason, "", now);
        if result.replacementsInProgressError.Some? {
          condition := condition.(status := ConditionFalse, message := result.replacementsInProgressError.value);
        }
        if result.replacementsInProgressReason == CompletedReason {
          condition := condition.(status := ConditionFalse);
        }
        SetNodeRolloutCondition(condition);
      }
      return None;
    }

    /** setCreatedCondition. */
    method SetCreatedCondition(result: Result, now: Time) returns (err: Option<string>)
      modifies this
      ensures CreatedConditionStep(old(Value()), result, now).Err? ==>
        err == Some(CreatedReasonMsg) && Value() == old(Value())
      ensures CreatedConditionStep(old(Value()), result, now).Ok? ==>
        err == None && Value() == CreatedConditionStep(old(Value()), result, now).value
    {
      if result.replacementsCreatedError.Some? && result.replacementsCreatedReason == "" {
        return Some(CreatedReasonMsg);
      }
      if result.replacementsCreatedReason != "" {
        var condition := NewNodeRolloutCondition(ReplacementsCreatedType, ConditionTrue, result.replacementsCreatedReason, "", now);
        if result.replacementsCreatedError.Some? {
          condition := condition.(status := ConditionFalse, message := result.replacementsCreatedError.value);
        }
        SetNodeRolloutCondition(condition);
      }
      return None;
    }
  }

  /**
   * UpdateStatus. `now` is the clock reading the new conditions carry;
   * `writeError` is what the cluster store would answer to the write.
   * `written` is the status handed to the store, None when no write is made.
   * A setter's error stops the pass with no write; otherwise the merged status
   * is written exactly when it differs from the stored one, and a failed write
   * comes back wrapped.
   */
  method UpdateStatus(stored: NodeRolloutStatus, result: Result, now: Time, writeError: Option<string>)
    returns (err: Option<string>, written: Option<NodeRolloutStatus>)
    ensures MergeStatus(stored, result, now).Err? ==>
      err == Some(MergeStatus(stored, result, now).msg) && written == None
    ensures MergeStatus(stored, result, now).Ok? ==>
      var merged := MergeStatus(stored, result, now).value;
      && written == (if merged == stored then None else Some(merged))
      && err == (if merged != stored && writeError.Some? then Some(UpdateErrorPrefix + writeError.value) else None)
    ensures stored.replacementsCreated.Some? && result.replacementsCreated.Some? ==>
      err == Some(CreatedImmutableMsg) && written == None
    ensures !(stored.replacementsCreated.Some? && result.replacementsCreated.Some?)
              && stored.completionTimestamp.Some? && result.completionTimestamp.Some? ==>
      err == Some(TimestampImmutableMsg) && written == None
    ensures result == ZeroResult ==> err == None && written == None
  {
    MergeErrors(stored, result, now);
    if result == ZeroResult {
      MergeZeroResult(stored, now);
    }
    var status := new WorkingStatus(stored);

    status.SetPhase(result);

    err := status.SetReplacementsCreated(result);
    if err.Some? {
      return err, None;
    }

    status.SetReplacementsCompleted(result);

    err := status.SetCompletionTimestamp(result);
    if err.Some? {
      return err, None;
    }

    err := status.SetCreatedCondition(result, now);
    if err.Some? {
      return err, None;
    }
    err := status.SetInProgressCondition(result, now);
    if err.Some? {
      return err, None;
    }

    var merged := status.Value();
    written := None;
    if merged != stored {
      written := Some(merged);
      if writeError.Some? {
        return Some(UpdateErrorPrefix + writeError.value), written;
      }
    }
    return None, written;
  }
}
